/** `FileStorage`: the loaded data, held in one mutable field and changed in
    place by its methods. Each method is proved to leave exactly the state,
    and return exactly the value, that the matching function of module
    Tables describes; what those functions promise is proved there.

    `writes` records every snapshot handed to `writeData`, so that the
    contracts say when the store persists and when it does not. */
module Storage {
  import opened Records
  import opened Normalize
  import CountSort
  import Tables

  class FileStorage {
    /** `this.data` once `ensureLoaded` has run. */
    var data: Tables.Data

    /** Every snapshot passed to `writeData`, oldest first. */
    ghost var writes: seq<Tables.Data>

    ghost predicate Valid()
      reads this`data
    {
      Tables.Valid(data)
    }

    /** The store after `ensureLoaded` found no data file. */
    constructor ()
      ensures Valid() && data == Tables.Empty() && writes == []
    {
      data := Tables.Empty();
      writes := [];
    }

    method IncrementUninstallCount(programName: string, freshId: string) returns (r: UninstallRequest)
      requires Valid()
      requires Key(programName) !in data.requests ==> freshId !in Tables.RequestIds(data.requests)
      modifies this
      ensures var s := Tables.IncrementUninstall(old(data), programName, freshId);
              data == s.next && r == s.out
      ensures writes == old(writes) + [data]
      ensures Valid()
    {
      ghost var before := data;
      var normalizedName := Key(programName);
      if normalizedName in data.requests {
        r := data.requests[normalizedName];
        r := r.(count := r.count + 1);
      } else {
        r := UninstallRequest(freshId, Trim(programName), 1);
      }
      assert r == Tables.IncrementUninstall(before, programName, freshId).out;
      data := Tables.PutRequest(data, normalizedName, r);
      writes := writes + [data];  // writeData
    }

    /** The stored entries, highest count first, each exactly once. */
    function GetAllUninstallRequests(): (r: seq<UninstallRequest>)
      reads this`data
      requires Valid()
      ensures r == Tables.Leaderboard(data)
      ensures CountSort.CountDescending(r)
      ensures multiset(r) == multiset(Tables.AllRequests(data))
    {
      Tables.Leaderboard(data)
    }

    /** The entry stored under the normalised name, if any. */
    function GetUninstallRequest(programName: string): (r: Option<UninstallRequest>)
      reads this`data
      requires Valid()
      ensures r.Some? <==> Key(programName) in data.requests
      ensures r.Some? ==> r.value == data.requests[Key(programName)]
    {
      Tables.GetUninstallRequest(data, programName)
    }

    method ResetAllRequests()
      requires Valid()
      modifies this
      ensures data == Tables.ResetRequests(old(data))
      ensures writes == old(writes) + [data]
      ensures Valid()
    {
      data := data.(requests := map[], requestOrder := []);
      writes := writes + [data];  // writeData
    }

    method DeleteRequest(programName: string) returns (deleted: bool)
      requires Valid()
      modifies this
      ensures var s := Tables.DeleteRequest(old(data), programName);
              data == s.next && deleted == s.out
      ensures writes == if deleted then old(writes) + [data] else old(writes)
      ensures Valid()
    {
      var normalizedName := Key(programName);
      if normalizedName in data.requests {
        data := data.(requests := data.requests - {normalizedName},
                      requestOrder := Tables.Without(data.requestOrder, normalizedName));
        writes := writes + [data];  // writeData
        return true;
      }
      return false;
    }

    /** The boss stored under the normalised name, if any. */
    function GetBoss(name: string): (r: Option<Boss>)
      reads this`data
      requires Valid()
      ensures r.Some? <==> Key(name) in data.bosses
      ensures r.Some? ==> r.value == data.bosses[Key(name)] && Key(r.value.name) == Key(name)
    {
      Tables.GetBoss(data, name)
    }

    /** The first unbeaten boss in key order; none exactly when every boss
        is beaten. */
    function GetActiveBoss(): (r: Option<Boss>)
      reads this`data
      requires Valid()
      ensures r == Tables.ActiveBoss(data)
      ensures r.None? <==> forall k | k in data.bosses :: data.bosses[k].isBeaten
      ensures r.Some? ==> !r.value.isBeaten && Key(r.value.name) in data.bosses
                          && data.bosses[Key(r.value.name)] == r.value
    {
      Tables.ActiveBossIsFirstUnbeaten(data);
      Tables.ActiveBoss(data)
    }

    method UpsertBoss(name: string, freshId: string) returns (b: Boss)
      requires Valid()
      requires Key(name) !in data.bosses ==> freshId !in Tables.BossIds(data.bosses)
      modifies this
      ensures var s := Tables.UpsertBoss(old(data), name, freshId);
              data == s.next && b == s.out
      ensures writes == if Key(name) in old(data.bosses) then old(writes) else old(writes) + [data]
      ensures Valid()
    {
      var normalizedName := Key(name);
      if normalizedName !in data.bosses {
        data := Tables.PutBoss(data, normalizedName, Boss(freshId, Trim(name), false, 0, None));
        writes := writes + [data];  // writeData
      }
      b := data.bosses[normalizedName];
    }

    /** The boss `incrementDeaths` works on: the upserted boss for a name,
        else the active boss. */
    method FindDeathTarget(bossName: Option<string>, freshId: string) returns (boss: Option<Boss>)
      requires Valid()
      requires Tables.Named(bossName) && Key(bossName.value) !in data.bosses ==> freshId !in Tables.BossIds(data.bosses)
      modifies this
      ensures match Tables.DeathTarget(old(data), bossName, freshId)
              case None => boss.None? && data == old(data)
              case Some(t) => boss == Some(t.out) && data == t.next
      ensures writes == if Tables.Named(bossName) && Key(bossName.value) !in old(data.bosses)
                        then old(writes) + [data] else old(writes)
      ensures Valid()
    {
      ghost var before := data;
      if Tables.Named(bossName) {
        var upserted := UpsertBoss(bossName.value, freshId);
        boss := Some(upserted);
        assert Tables.DeathTarget(before, bossName, freshId) == Some(Tables.Step(data, upserted));
      } else {
        boss := GetActiveBoss();
      }
    }

    method IncrementDeaths(bossName: Option<string>, freshId: string) returns (r: Result<Boss>)
      requires Valid()
      requires Tables.Named(bossName) && Key(bossName.value) !in data.bosses ==> freshId !in Tables.BossIds(data.bosses)
      modifies this
      ensures match Tables.IncrementDeaths(old(data), bossName, freshId)
              case Ok(s) => r == Ok(s.out) && data == s.next
              case Err(e) => r == Err(e) && data == old(data) && writes == old(writes)
      ensures r.Ok? ==>
              writes == old(writes)
                        + (if Tables.Named(bossName) && Key(bossName.value) !in old(data.bosses)
                           then [Tables.DeathTarget(old(data), bossName, freshId).value.next] else [])
                        + [data]
      ensures Valid()
    {
      ghost var before := data;
      var boss := FindDeathTarget(bossName, freshId);
      assert writes == old(writes)
                       + (if Tables.Named(bossName) && Key(bossName.value) !in before.bosses then [data] else []);
      ghost var target := Tables.DeathTarget(before, bossName, freshId);
      if boss.None? {
        return Err(NoActiveBoss);
      }
      assert target == Some(Tables.Step(data, boss.value));
      var b := AddDeath(boss.value);
      assert Tables.IncrementDeaths(before, bossName, freshId) == Ok(Tables.AddDeath(target.value));
      r := Ok(b);
    }

    /** The rest of `incrementDeaths` once the boss is found: one more death,
        written back under the boss's own key, and the data persisted. */
    method AddDeath(boss: Boss) returns (b: Boss)
      requires Valid() && Key(boss.name) in data.bosses && data.bosses[Key(boss.name)] == boss
      modifies this
      ensures var s := Tables.AddDeath(Tables.Step(old(data), boss));
              data == s.next && b == s.out
      ensures writes == old(writes) + [data]
      ensures Valid()
    {
      ghost var found := Tables.Step(data, boss);
      b := boss.(deathCount := boss.deathCount + 1);
      data := Tables.PutBoss(data, Key(b.name), b);
      writes := writes + [data];  // writeData
      assert Tables.AddDeath(found) == Tables.Step(data, b);
      Tables.AddDeathValid(found);
    }

    method SetDeaths(bossName: string, count: int, freshId: string) returns (b: Boss)
      requires Valid()
      requires Key(bossName) !in data.bosses ==> freshId !in Tables.BossIds(data.bosses)
      modifies this
      ensures var s := Tables.SetDeaths(old(data), bossName, count, freshId);
              data == s.next && b == s.out
      ensures writes == old(writes)
                        + (if Key(bossName) in old(data.bosses) then []
                           else [Tables.UpsertBoss(old(data), bossName, freshId).next])
                        + [data]
      ensures Valid()
    {
      ghost var before := data;
      var boss := UpsertBoss(bossName, freshId);
      assert writes == old(writes) + (if Key(bossName) in before.bosses then [] else [data]);
      boss := boss.(deathCount := count);
      data := Tables.PutBoss(data, Key(boss.name), boss);
      writes := writes + [data];  // writeData
      b := boss;
    }

    method MarkBeaten(bossName: Option<string>) returns (r: Result<Boss>)
      requires Valid()
      modifies this
      ensures match Tables.MarkBeaten(old(data), bossName)
              case Ok(s) => r == Ok(s.out) && data == s.next && writes == old(writes) + [data]
              case Err(e) => r == Err(e) && data == old(data) && writes == old(writes)
      ensures Valid()
    {
      var boss: Option<Boss>;
      if Tables.Named(bossName) {
        boss := GetBoss(bossName.value);
      } else {
        boss := GetActiveBoss();
      }
      if boss.None? {
        return Err(BossNotFound);
      }
      var b := boss.value.(isBeaten := true, finalDeathCount := Some(boss.value.deathCount));
      data := Tables.PutBoss(data, Key(b.name), b);
      writes := writes + [data];  // writeData
      r := Ok(b);
    }

    /** Every stored boss once, in key order. */
    function GetAllBosses(): (r: seq<Boss>)
      reads this`data
      requires Valid()
      ensures |r| == |data.bossOrder| == |data.bosses|
      ensures forall i :: 0 <= i < |r| ==> r[i] == data.bosses[data.bossOrder[i]]
    {
      Tables.ListedKeysCount(data.bosses, data.bossOrder);
      Tables.AllBosses(data)
    }
  }
}
