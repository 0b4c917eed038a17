/** The two pieces of the HTTP layer that compute something: the total of
    all death counts reported by GET /api/total-deaths, and the guard of
    GET /api/uninstall that refuses a blank program name. */
module Routes {
  import opened Records
  import opened Normalize
  import opened Tables

  /** `bosses.reduce((acc, b) => acc + b.deathCount, 0)`. With no negative
      count, the total is at least each boss's count. */
  function TotalDeaths(bosses: seq<Boss>): (r: int)
    ensures (forall i :: 0 <= i < |bosses| ==> bosses[i].deathCount >= 0) ==>
              r >= 0 && forall i :: 0 <= i < |bosses| ==> bosses[i].deathCount <= r
  {
    if bosses == [] then 0
    else
      var init := bosses[..|bosses| - 1];
      assert forall i :: 0 <= i < |init| ==> init[i] == bosses[i];
      TotalDeaths(init) + bosses[|bosses| - 1].deathCount
  }

  lemma TotalOfAppend(s: seq<Boss>, b: Boss)
    ensures TotalDeaths(s + [b]) == TotalDeaths(s) + b.deathCount
  {
    assert (s + [b])[..|s|] == s;
  }

  /** Changing one boss of the list changes the total by the difference of
      its death counts. */
  lemma {:induction false} TotalOfPointChange(s: seq<Boss>, t: seq<Boss>, i: nat)
    requires |s| == |t| && i < |s|
    requires forall j :: 0 <= j < |s| && j != i ==> s[j] == t[j]
    ensures TotalDeaths(t) == TotalDeaths(s) - s[i].deathCount + t[i].deathCount
  {
    var n := |s| - 1;
    if i == n {
      assert s[..n] == t[..n];
    } else {
      TotalOfPointChange(s[..n], t[..n], i);
    }
  }

  /** The total after `bosses[k] = b`. */
  lemma TotalAfterPut(d: Data, k: string, b: Boss)
    requires ListsKeys(d.bosses, d.bossOrder)
    ensures var n := PutBoss(d, k, b);
            ListsKeys(n.bosses, n.bossOrder)
            && TotalDeaths(Values(n.bosses, n.bossOrder))
               == TotalDeaths(Values(d.bosses, d.bossOrder))
                  - (if k in d.bosses then d.bosses[k].deathCount else 0) + b.deathCount
  {
    var n := PutBoss(d, k, b);
    var before := Values(d.bosses, d.bossOrder);
    var after := Values(n.bosses, n.bossOrder);
    AppendNewKey(d.bossOrder, k);
    if k in d.bosses {
      var i :| 0 <= i < |d.bossOrder| && d.bossOrder[i] == k;
      forall j | 0 <= j < |before| && j != i ensures before[j] == after[j] {
        assert d.bossOrder[j] != k;
      }
      TotalOfPointChange(before, after, i);
    } else {
      assert after == before + [b];
      TotalOfAppend(before, b);
    }
  }

  /** One more death for a stored boss adds one to the total. */
  lemma TotalAfterAddDeath(t: Step<Boss>)
    requires Valid(t.next) && Key(t.out.name) in t.next.bosses && t.next.bosses[Key(t.out.name)] == t.out
    ensures Valid(AddDeath(t).next)
    ensures TotalDeaths(AllBosses(AddDeath(t).next)) == TotalDeaths(AllBosses(t.next)) + 1
  {
    AddDeathValid(t);
    var b := t.out.(deathCount := t.out.deathCount + 1);
    TotalAfterPut(t.next, Key(b.name), b);
  }

  /** Finding the boss `incrementDeaths` acts on leaves the total as it is:
      an existing boss is found as it is, a new one starts with no deaths. */
  lemma TotalAfterDeathTarget(d: Data, bossName: Option<string>, freshId: string)
    requires Valid(d)
    requires Named(bossName) && Key(bossName.value) !in d.bosses ==> freshId !in BossIds(d.bosses)
    requires DeathTarget(d, bossName, freshId).Some?
    ensures TotalDeaths(AllBosses(DeathTarget(d, bossName, freshId).value.next)) == TotalDeaths(AllBosses(d))
  {
    var t := DeathTarget(d, bossName, freshId).value;
    if Named(bossName) && Key(bossName.value) !in d.bosses {
      var k := Key(bossName.value);
      assert t.out == Boss(freshId, Trim(bossName.value), false, 0, None);
      assert t.next == PutBoss(d, k, t.out);
      TotalAfterPut(d, k, t.out);
    } else {
      assert t.next == d;
    }
  }

  /** Every successful `incrementDeaths` adds exactly one to the total. */
  lemma TotalAfterIncrementDeaths(d: Data, bossName: Option<string>, freshId: string)
    requires Valid(d)
    requires Named(bossName) && Key(bossName.value) !in d.bosses ==> freshId !in BossIds(d.bosses)
    requires IncrementDeaths(d, bossName, freshId).Ok?
    ensures TotalDeaths(AllBosses(IncrementDeaths(d, bossName, freshId).value.next))
            == TotalDeaths(AllBosses(d)) + 1
  {
    TotalAfterAddDeath(DeathTarget(d, bossName, freshId).value);
    TotalAfterDeathTarget(d, bossName, freshId);
  }

  /** `setDeaths` moves the total by the new count minus the old one (a new
      boss counts as zero before). */
  lemma TotalAfterSetDeaths(d: Data, bossName: string, count: int, freshId: string)
    requires Valid(d)
    requires Key(bossName) !in d.bosses ==> freshId !in BossIds(d.bosses)
    ensures var before := match GetBoss(d, bossName) case Some(b) => b.deathCount case None => 0;
            TotalDeaths(AllBosses(SetDeaths(d, bossName, count, freshId).next))
            == TotalDeaths(AllBosses(d)) - before + count
  {
    var u := UpsertBoss(d, bossName, freshId);
    var b := u.out.(deathCount := count);
    TotalAfterPut(u.next, Key(b.name), b);
    if Key(bossName) !in d.bosses {
      TotalAfterPut(d, Key(bossName), u.out);
    }
  }

  /** `markBeaten` leaves the total as it is. */
  lemma TotalAfterMarkBeaten(d: Data, bossName: Option<string>)
    requires Valid(d) && MarkBeaten(d, bossName).Ok?
    ensures TotalDeaths(AllBosses(MarkBeaten(d, bossName).value.next)) == TotalDeaths(AllBosses(d))
  {
    var t := BeatenTarget(d, bossName).value;
    var b := t.(isBeaten := true, finalDeathCount := Some(t.deathCount));
    TotalAfterPut(d, Key(b.name), b);
  }

  /** The guard of GET /api/uninstall: the `program` query parameter must be
      present and not empty after trimming. */
  function AcceptsProgram(program: Option<string>): (ok: bool)
    ensures ok <==> program.Some? && !AllSpace(program.value)
    ensures ok ==> Key(program.value) != []
  {
    if program.None? then false
    else
      KeyEmptyIffBlank(program.value);
      Trim(program.value) != ""
  }

  /** A request that passes the guard is counted under an entry whose
      display name is not empty. */
  lemma AcceptedProgramHasDisplayName(d: Data, program: string, freshId: string)
    requires Valid(d) && AcceptsProgram(Some(program))
    requires Key(program) !in d.requests ==> freshId !in RequestIds(d.requests)
    ensures IncrementUninstall(d, program, freshId).out.programName != ""
  {
    var r := IncrementUninstall(d, program, freshId).out;
    KeyEmptyIffBlank(program);
    KeyEmptyIffBlank(r.programName);
  }
}
