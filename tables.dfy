/** The store's state once loaded (`DataStructure`) and every operation of
    `FileStorage` as a function from the old state to the new state and the
    returned value. The class in module Storage performs the same steps in
    place and is proved to agree with these functions.

    Both tables are JavaScript objects keyed by the normalised name. Besides
    the map itself the model keeps, for each table, the order in which keys
    were added: that is the order `Object.values` enumerates them in, which
    decides the active boss and the order of equal counts on the leaderboard. */
module Tables {
  import opened Records
  import opened Normalize
  import opened CountSort

  datatype Data = Data(requests: map<string, UninstallRequest>, requestOrder: seq<string>,
                       bosses: map<string, Boss>, bossOrder: seq<string>)

  /** What an operation leaves behind, and what it returns. */
  datatype Step<+T> = Step(next: Data, out: T)

  // ---------------------------------------------------------------------
  // Key order of a JavaScript object

  predicate NoDuplicates(order: seq<string>) {
    forall i, j :: 0 <= i < j < |order| ==> order[i] != order[j]
  }

  /** `order` lists every key of `m` exactly once. */
  ghost predicate ListsKeys<V>(m: map<string, V>, order: seq<string>) {
    NoDuplicates(order) && forall k :: k in m <==> k in order
  }

  /** The key order after `obj[k] = v`: a key already there keeps its place,
      a new key goes last. */
  function Assign(order: seq<string>, k: string): seq<string> {
    if k in order then order else order + [k]
  }

  /** The key order after `delete obj[k]`. */
  function Without(order: seq<string>, k: string): seq<string> {
    if order == [] then []
    else (if order[0] == k then [] else [order[0]]) + Without(order[1..], k)
  }

  /** `Object.values(obj)`. */
  function Values<V>(m: map<string, V>, order: seq<string>): seq<V>
    requires forall k | k in order :: k in m
  {
    seq(|order|, i requires 0 <= i < |order| => m[order[i]])
  }

  lemma {:induction false} WithoutRemovesOnlyKey(order: seq<string>, k: string)
    requires NoDuplicates(order)
    ensures NoDuplicates(Without(order, k))
    ensures forall x :: x in Without(order, k) <==> x in order && x != k
  {
    if order != [] {
      var tail := order[1..];
      assert order == [order[0]] + tail;
      WithoutRemovesOnlyKey(tail, k);
      var rest := Without(tail, k);
      HeadNotInTail(order);
      if order[0] != k {
        var r := [order[0]] + rest;
        assert Without(order, k) == r;
        forall i, j | 0 <= i < j < |r| ensures r[i] != r[j] {
          assert r[j] == rest[j - 1];
          if i > 0 { assert r[i] == rest[i - 1]; }
        }
      } else {
        assert Without(order, k) == rest;
      }
    }
  }

  lemma HeadNotInTail(order: seq<string>)
    requires NoDuplicates(order) && order != []
    ensures order[0] !in order[1..]
  {
    forall j | 0 <= j < |order[1..]| ensures order[1..][j] != order[0] {
      assert order[1..][j] == order[j + 1];
    }
  }

  /** Deleting a key that the last assignment added restores the key order. */
  lemma {:induction false} WithoutUndoesAppend(order: seq<string>, k: string)
    requires k !in order
    ensures Without(order + [k], k) == order
  {
    if order == [] {
      assert Without([k], k) == [] + Without([], k);
    } else {
      assert (order + [k])[1..] == order[1..] + [k];
      WithoutUndoesAppend(order[1..], k);
      assert order == [order[0]] + order[1..];
    }
  }

  /** A key not in the order is not removed from anywhere. */
  lemma {:induction false} WithoutAbsentKey(order: seq<string>, k: string)
    requires k !in order
    ensures Without(order, k) == order
  {
    if order != [] {
      WithoutAbsentKey(order[1..], k);
      assert order == [order[0]] + order[1..];
    }
  }

  /** `delete obj[k]` takes `k` out of its place and keeps every other key
      in its relative order. */
  lemma {:induction false} WithoutKeepsOrder(order: seq<string>, k: string, i: nat)
    requires NoDuplicates(order) && i < |order| && order[i] == k
    ensures Without(order, k) == order[..i] + order[i + 1..]
  {
    var tail := order[1..];
    assert NoDuplicates(tail) by {
      forall a, b | 0 <= a < b < |tail| ensures tail[a] != tail[b] {
        assert tail[a] == order[a + 1] && tail[b] == order[b + 1];
      }
    }
    if i == 0 {
      HeadNotInTail(order);
      WithoutAbsentKey(tail, k);
    } else {
      WithoutKeepsOrder(tail, k, i - 1);
      assert order[..i] == [order[0]] + tail[..i - 1];
      assert order[i + 1..] == tail[i..];
    }
  }

  /** `obj[k] = v`: every key already there keeps its place, and at most the
      new key is added, at the end. */
  lemma AssignKeepsPlaces(order: seq<string>, k: string)
    requires NoDuplicates(order)
    ensures order <= Assign(order, k) && |Assign(order, k)| <= |order| + 1
    ensures NoDuplicates(Assign(order, k))
    ensures forall x :: x in Assign(order, k) <==> x in order || x == k
  {
    AppendNewKey(order, k);
  }

  lemma {:induction false} DistinctKeysCount(order: seq<string>)
    requires NoDuplicates(order)
    ensures |set k | k in order| == |order|
  {
    if order != [] {
      var rest := order[1..];
      DistinctKeysCount(rest);
      assert (set k | k in order) == {order[0]} + (set k | k in rest);
      HeadNotInTail(order);
    }
  }

  lemma ListedKeysCount<V>(m: map<string, V>, order: seq<string>)
    requires ListsKeys(m, order)
    ensures |m| == |order|
  {
    DistinctKeysCount(order);
    assert m.Keys == set k | k in order;
  }

  lemma AppendNewKey(order: seq<string>, k: string)
    requires NoDuplicates(order)
    ensures k !in order ==> NoDuplicates(order + [k])
  {
    if k !in order {
      forall i, j | 0 <= i < j < |order + [k]| ensures (order + [k])[i] != (order + [k])[j] {
        if j == |order| { assert (order + [k])[i] == order[i]; }
      }
    }
  }

  // ---------------------------------------------------------------------
  // The state and what every reachable state satisfies

  /** A stored request sits under the key of its own display name, which is
      already trimmed, and has been requested at least once. */
  predicate RequestStoredAt(r: UninstallRequest, k: string) {
    Key(r.programName) == k && Trim(r.programName) == r.programName && r.count >= 1
  }

  /** A stored boss sits under the key of its own name, which is already
      trimmed, and has a final count exactly when it has been beaten. */
  predicate BossStoredAt(b: Boss, k: string) {
    Key(b.name) == k && Trim(b.name) == b.name && (b.isBeaten <==> b.finalDeathCount.Some?)
  }

  function RequestIds(m: map<string, UninstallRequest>): set<string> {
    set k | k in m :: m[k].id
  }

  function BossIds(m: map<string, Boss>): set<string> {
    set k | k in m :: m[k].id
  }

  ghost predicate RequestsValid(d: Data) {
    && ListsKeys(d.requests, d.requestOrder)
    && (forall k | k in d.requests :: RequestStoredAt(d.requests[k], k))
    && (forall k1, k2 | k1 in d.requests && k2 in d.requests && d.requests[k1].id == d.requests[k2].id :: k1 == k2)
  }

  ghost predicate BossesValid(d: Data) {
    && ListsKeys(d.bosses, d.bossOrder)
    && (forall k | k in d.bosses :: BossStoredAt(d.bosses[k], k))
    && (forall k1, k2 | k1 in d.bosses && k2 in d.bosses && d.bosses[k1].id == d.bosses[k2].id :: k1 == k2)
  }

  ghost predicate Valid(d: Data) {
    RequestsValid(d) && BossesValid(d)
  }

  /** The state `readData` yields when there is no data file yet. */
  function Empty(): (d: Data)
    ensures Valid(d)
    ensures d.requests == map[] && d.bosses == map[]
  {
    Data(map[], [], map[], [])
  }

  // ---------------------------------------------------------------------
  // Uninstall requests

  /** `getUninstallRequest`: the entry under the normalised name. */
  function GetUninstallRequest(d: Data, programName: string): (r: Option<UninstallRequest>)
    requires Valid(d)
    ensures r.Some? <==> Key(programName) in d.requests
    ensures r.Some? ==> r.value == d.requests[Key(programName)]
    ensures r.Some? ==> Key(r.value.programName) == Key(programName) && r.value.count >= 1
    ensures r.None? ==> forall k | k in d.requests :: Key(d.requests[k].programName) != Key(programName)
  {
    var k := Key(programName);
    if k in d.requests then Some(d.requests[k]) else None
  }

  /** `uninstallRequests[k] = e`. */
  function PutRequest(d: Data, k: string, e: UninstallRequest): Data {
    d.(requests := d.requests[k := e], requestOrder := Assign(d.requestOrder, k))
  }

  /** Writing an entry under its own key, with its old id or a fresh one,
      keeps the state valid. */
  lemma PutRequestValid(d: Data, k: string, e: UninstallRequest)
    requires Valid(d) && RequestStoredAt(e, k)
    requires k in d.requests ==> d.requests[k].id == e.id
    requires k !in d.requests ==> e.id !in RequestIds(d.requests)
    ensures Valid(PutRequest(d, k, e))
  {
    var next := PutRequest(d, k, e);
    AppendNewKey(d.requestOrder, k);
    forall k1, k2 | k1 in next.requests && k2 in next.requests && k1 != k2
      ensures next.requests[k1].id != next.requests[k2].id
    {
      if k !in d.requests && k1 == k {
        assert d.requests[k2].id in RequestIds(d.requests);
      } else if k !in d.requests && k2 == k {
        assert d.requests[k1].id in RequestIds(d.requests);
      }
    }
  }

  /** `incrementUninstallCount`. The id is consumed only when the entry is new. */
  function IncrementUninstall(d: Data, programName: string, freshId: string): (r: Step<UninstallRequest>)
    requires Valid(d)
    requires Key(programName) !in d.requests ==> freshId !in RequestIds(d.requests)
    ensures Valid(r.next)
  {
    var k := Key(programName);
    var entry :=
      if k in d.requests then d.requests[k].(count := d.requests[k].count + 1)
      else UninstallRequest(freshId, Trim(programName), 1);
    KeyOfTrimmed(programName);
    TrimIdempotent(programName);
    PutRequestValid(d, k, entry);
    Step(PutRequest(d, k, entry), entry)
  }

  /** A request for a name already counted adds one to its entry, which
      keeps its id, spelling and place; a request for a new name creates an
      entry with a count of one, the trimmed spelling and the fresh id, placed
      last. Either way the entry returned is the one now stored. */
  lemma IncrementUninstallCounts(d: Data, programName: string, freshId: string)
    requires Valid(d)
    requires Key(programName) !in d.requests ==> freshId !in RequestIds(d.requests)
    ensures var r := IncrementUninstall(d, programName, freshId);
            GetUninstallRequest(r.next, programName) == Some(r.out)
            && match GetUninstallRequest(d, programName)
               case None => r.out == UninstallRequest(freshId, Trim(programName), 1)
                            && r.next.requestOrder == d.requestOrder + [Key(programName)]
               case Some(e) => r.out == e.(count := e.count + 1) && r.next.requestOrder == d.requestOrder
  {
    KeyOfTrimmed(programName);
  }

  /** A request touches no entry of another name and no boss. */
  lemma IncrementUninstallKeepsOthers(d: Data, programName: string, freshId: string, n: string)
    requires Valid(d)
    requires Key(programName) !in d.requests ==> freshId !in RequestIds(d.requests)
    requires Key(n) != Key(programName)
    ensures var r := IncrementUninstall(d, programName, freshId);
            GetUninstallRequest(r.next, n) == GetUninstallRequest(d, n)
            && r.next.bosses == d.bosses && r.next.bossOrder == d.bossOrder
  {
  }

  /** `Object.values(uninstallRequests)`, in insertion order. */
  function AllRequests(d: Data): seq<UninstallRequest>
    requires ListsKeys(d.requests, d.requestOrder)
  {
    Values(d.requests, d.requestOrder)
  }

  /** `getAllUninstallRequests`: the stored entries, highest count first. */
  function Leaderboard(d: Data): (r: seq<UninstallRequest>)
    requires ListsKeys(d.requests, d.requestOrder)
    ensures CountDescending(r)
    ensures multiset(r) == multiset(AllRequests(d))
  {
    SortByCount(AllRequests(d))
  }

  /** The leaderboard holds every stored entry once and nothing else. */
  lemma LeaderboardListsEachEntry(d: Data)
    requires ListsKeys(d.requests, d.requestOrder)
    ensures |Leaderboard(d)| == |d.requests|
    ensures forall x :: x in Leaderboard(d) <==> exists k :: k in d.requests && d.requests[k] == x
  {
    var all := AllRequests(d);
    ListedKeysCount(d.requests, d.requestOrder);
    assert |Leaderboard(d)| == |multiset(all)| == |all|;
    forall x ensures x in Leaderboard(d) <==> exists k :: k in d.requests && d.requests[k] == x {
      assert x in Leaderboard(d) <==> x in multiset(all);
      if exists k :: k in d.requests && d.requests[k] == x {
        var k :| k in d.requests && d.requests[k] == x;
        var i :| 0 <= i < |d.requestOrder| && d.requestOrder[i] == k;
        assert all[i] == x;
      }
    }
  }

  /** `resetAllRequests`: an empty uninstall table; the bosses stay. */
  function ResetRequests(d: Data): (r: Data)
    requires Valid(d)
    ensures Valid(r)
    ensures forall n :: GetUninstallRequest(r, n).None?
    ensures Leaderboard(r) == []
    ensures r.bosses == d.bosses && r.bossOrder == d.bossOrder
  {
    d.(requests := map[], requestOrder := [])
  }

  /** `deleteRequest`: removes the entry under the normalised name, if any,
      and reports whether there was one. */
  function DeleteRequest(d: Data, programName: string): (r: Step<bool>)
    requires Valid(d)
    ensures Valid(r.next)
    ensures r.out <==> GetUninstallRequest(d, programName).Some?
    ensures !r.out ==> r.next == d
  {
    var k := Key(programName);
    WithoutRemovesOnlyKey(d.requestOrder, k);
    if k in d.requests then
      Step(d.(requests := d.requests - {k}, requestOrder := Without(d.requestOrder, k)), true)
    else
      Step(d, false)
  }

  /** After a delete the name has no entry, its key has left the key order,
      and every other name and every boss is as before. */
  lemma DeleteRequestRemovesOnlyName(d: Data, programName: string)
    requires Valid(d)
    ensures var r := DeleteRequest(d, programName);
            GetUninstallRequest(r.next, programName).None?
            && (forall n :: Key(n) != Key(programName) ==> GetUninstallRequest(r.next, n) == GetUninstallRequest(d, n))
            && (forall k :: k in r.next.requestOrder <==> k in d.requestOrder && k != Key(programName))
            && (forall i | 0 <= i < |d.requestOrder| && d.requestOrder[i] == Key(programName) ::
                  r.next.requestOrder == d.requestOrder[..i] + d.requestOrder[i + 1..])
            && r.next.bosses == d.bosses && r.next.bossOrder == d.bossOrder
  {
    var k := Key(programName);
    WithoutRemovesOnlyKey(d.requestOrder, k);
    forall i | 0 <= i < |d.requestOrder| && d.requestOrder[i] == k
      ensures DeleteRequest(d, programName).next.requestOrder == d.requestOrder[..i] + d.requestOrder[i + 1..]
    {
      WithoutKeepsOrder(d.requestOrder, k, i);
    }
  }

  /** Deleting a name right after its first request restores the state. */
  lemma DeleteUndoesFirstIncrement(d: Data, programName: string, freshId: string)
    requires Valid(d) && GetUninstallRequest(d, programName).None?
    requires freshId !in RequestIds(d.requests)
    ensures DeleteRequest(IncrementUninstall(d, programName, freshId).next, programName) == Step(d, true)
  {
    var k := Key(programName);
    var next := IncrementUninstall(d, programName, freshId).next;
    WithoutUndoesAppend(d.requestOrder, k);
    assert next.requests - {k} == d.requests;
  }

  /** All names that normalise to the key `k`. */
  predicate AllKeyedTo(names: seq<string>, k: string) {
    names == [] || (Key(names[0]) == k && AllKeyedTo(names[1..], k))
  }

  /** The state after requesting each of `names`, all sharing one key, in
      turn; `freshId` is consumed by the first request if it creates. */
  function IncrementEach(d: Data, names: seq<string>, k: string, freshId: string): (r: Data)
    requires Valid(d) && AllKeyedTo(names, k)
    requires k !in d.requests ==> freshId !in RequestIds(d.requests)
    ensures Valid(r)
    decreases |names|
  {
    if names == [] then d
    else
      var next := IncrementUninstall(d, names[0], freshId).next;
      assert k in next.requests;
      IncrementEach(next, names[1..], k, freshId)
  }

  /** One step of `IncrementEach` on a counted key: the entry's count goes
      up by one. */
  lemma IncrementEachStep(d: Data, names: seq<string>, k: string, freshId: string)
    requires Valid(d) && AllKeyedTo(names, k) && k in d.requests && names != []
    ensures var next := IncrementUninstall(d, names[0], freshId).next;
            && IncrementEach(d, names, k, freshId) == IncrementEach(next, names[1..], k, freshId)
            && k in next.requests && next.requests[k] == d.requests[k].(count := d.requests[k].count + 1)
  {
  }

  lemma {:induction false} IncrementEachAddsOnePerName(d: Data, names: seq<string>, k: string, freshId: string)
    requires Valid(d) && AllKeyedTo(names, k) && k in d.requests
    ensures var e := d.requests[k];
            var r := IncrementEach(d, names, k, freshId);
            k in r.requests && r.requests[k] == e.(count := e.count + |names|)
    decreases |names|
  {
    if names != [] {
      IncrementEachStep(d, names, k, freshId);
      IncrementEachAddsOnePerName(IncrementUninstall(d, names[0], freshId).next, names[1..], k, freshId);
    }
  }

  /** Requests for names that differ only in case or surrounding spaces all
      land in one entry: created by the first, with the first's trimmed
      spelling, and counted once per request. */
  lemma SameKeyRequestsShareOneEntry(d: Data, names: seq<string>, freshId: string)
    requires Valid(d) && names != [] && AllKeyedTo(names, Key(names[0]))
    requires GetUninstallRequest(d, names[0]).None?
    requires freshId !in RequestIds(d.requests)
    ensures GetUninstallRequest(IncrementEach(d, names, Key(names[0]), freshId), names[0])
            == Some(UninstallRequest(freshId, Trim(names[0]), |names|))
  {
    var k := Key(names[0]);
    var next := IncrementUninstall(d, names[0], freshId).next;
    IncrementUninstallCounts(d, names[0], freshId);
    assert IncrementEach(d, names, k, freshId) == IncrementEach(next, names[1..], k, freshId);
    IncrementEachAddsOnePerName(next, names[1..], k, freshId);
    var r := IncrementEach(d, names, k, freshId);
    assert r.requests[k] == UninstallRequest(freshId, Trim(names[0]), |names|);
  }

  // ---------------------------------------------------------------------
  // Bosses

  /** `getBoss`: the boss under the normalised name. */
  function GetBoss(d: Data, name: string): (r: Option<Boss>)
    requires Valid(d)
    ensures r.Some? <==> Key(name) in d.bosses
    ensures r.Some? ==> r.value == d.bosses[Key(name)]
    ensures r.Some? ==> Key(r.value.name) == Key(name)
    ensures r.None? ==> forall k | k in d.bosses :: Key(d.bosses[k].name) != Key(name)
  {
    var k := Key(name);
    if k in d.bosses then Some(d.bosses[k]) else None
  }

  /** `Object.values(bosses)`, in insertion order. */
  function AllBosses(d: Data): seq<Boss>
    requires ListsKeys(d.bosses, d.bossOrder)
  {
    Values(d.bosses, d.bossOrder)
  }

  /** `Array.prototype.find(b => !b.isBeaten)`, as the index it stops at. */
  function FirstUnbeaten(s: seq<Boss>): (r: Option<nat>)
    ensures r.Some? ==> r.value < |s| && !s[r.value].isBeaten
                        && forall j :: 0 <= j < r.value ==> s[j].isBeaten
    ensures r.None? ==> forall j :: 0 <= j < |s| ==> s[j].isBeaten
  {
    if s == [] then None
    else if !s[0].isBeaten then Some(0)
    else match FirstUnbeaten(s[1..])
      case None => None
      case Some(i) => Some(i + 1)
  }

  /** `getActiveBoss`: the first unbeaten boss in key order, if any; it is
      stored under the key of its own name. */
  function ActiveBoss(d: Data): (r: Option<Boss>)
    requires Valid(d)
    ensures r.Some? ==> Key(r.value.name) in d.bosses && d.bosses[Key(r.value.name)] == r.value
                        && !r.value.isBeaten
  {
    var all := AllBosses(d);
    match FirstUnbeaten(all)
    case None => None
    case Some(i) =>
      var k := d.bossOrder[i];
      assert all[i] == d.bosses[k];
      assert Key(all[i].name) == k;
      Some(all[i])
  }

  /** There is no active boss exactly when every boss is beaten; otherwise
      the active boss is the first unbeaten one in key order. */
  lemma ActiveBossIsFirstUnbeaten(d: Data)
    requires Valid(d)
    ensures ActiveBoss(d).None? <==> forall k | k in d.bosses :: d.bosses[k].isBeaten
    ensures ActiveBoss(d).Some? ==>
            exists i :: 0 <= i < |d.bossOrder| && d.bossOrder[i] == Key(ActiveBoss(d).value.name)
                        && forall j :: 0 <= j < i ==> d.bosses[d.bossOrder[j]].isBeaten
  {
    var all := AllBosses(d);
    match FirstUnbeaten(all)
    case None =>
      forall k | k in d.bosses ensures d.bosses[k].isBeaten {
        var i :| 0 <= i < |d.bossOrder| && d.bossOrder[i] == k;
        assert all[i] == d.bosses[k];
      }
    case Some(i) =>
      var k := d.bossOrder[i];
      assert all[i] == d.bosses[k];
      assert Key(all[i].name) == k;
      assert forall j :: 0 <= j < i ==> d.bosses[d.bossOrder[j]] == all[j];
      assert !d.bosses[k].isBeaten;
  }

  /** `bosses[k] = b`. */
  function PutBoss(d: Data, k: string, b: Boss): Data {
    d.(bosses := d.bosses[k := b], bossOrder := Assign(d.bossOrder, k))
  }

  /** Writing a boss under its own key, with its old id or a fresh one,
      keeps the state valid. */
  lemma PutBossValid(d: Data, k: string, b: Boss)
    requires Valid(d) && BossStoredAt(b, k)
    requires k in d.bosses ==> d.bosses[k].id == b.id
    requires k !in d.bosses ==> b.id !in BossIds(d.bosses)
    ensures Valid(PutBoss(d, k, b))
  {
    var next := PutBoss(d, k, b);
    AppendNewKey(d.bossOrder, k);
    forall k1, k2 | k1 in next.bosses && k2 in next.bosses && k1 != k2
      ensures next.bosses[k1].id != next.bosses[k2].id
    {
      if k !in d.bosses && k1 == k {
        assert d.bosses[k2].id in BossIds(d.bosses);
      } else if k !in d.bosses && k2 == k {
        assert d.bosses[k1].id in BossIds(d.bosses);
      }
    }
  }

  /** `upsertBoss`: the boss under the normalised name, created first when
      missing. The id is consumed only when the boss is new. */
  function UpsertBoss(d: Data, name: string, freshId: string): (r: Step<Boss>)
    requires Valid(d)
    requires Key(name) !in d.bosses ==> freshId !in BossIds(d.bosses)
    ensures Valid(r.next)
    ensures Key(r.out.name) == Key(name)
    ensures Key(name) in r.next.bosses && r.next.bosses[Key(name)] == r.out
  {
    var k := Key(name);
    if k in d.bosses then Step(d, d.bosses[k])
    else
      var b := Boss(freshId, Trim(name), false, 0, None);
      KeyOfTrimmed(name);
      TrimIdempotent(name);
      PutBossValid(d, k, b);
      Step(PutBoss(d, k, b), b)
  }

  /** An existing boss is returned as it is and nothing changes; a missing
      one is created unbeaten with no deaths, the trimmed spelling and the
      fresh id, and placed last. */
  lemma UpsertBossFinds(d: Data, name: string, freshId: string)
    requires Valid(d)
    requires Key(name) !in d.bosses ==> freshId !in BossIds(d.bosses)
    ensures var r := UpsertBoss(d, name, freshId);
            GetBoss(r.next, name) == Some(r.out)
            && match GetBoss(d, name)
               case Some(b) => r == Step(d, b)
               case None => r.out == Boss(freshId, Trim(name), false, 0, None)
                            && r.next.bossOrder == d.bossOrder + [Key(name)]
  {
  }

  /** An upsert touches no boss of another name and no uninstall request. */
  lemma UpsertBossKeepsOthers(d: Data, name: string, freshId: string, n: string)
    requires Valid(d)
    requires Key(name) !in d.bosses ==> freshId !in BossIds(d.bosses)
    requires Key(n) != Key(name)
    ensures var r := UpsertBoss(d, name, freshId);
            GetBoss(r.next, n) == GetBoss(d, n)
            && r.next.requests == d.requests && r.next.requestOrder == d.requestOrder
  {
  }

  /** A second upsert under the same normalised name changes nothing. */
  lemma UpsertIsIdempotent(d: Data, a: string, b: string, id1: string, id2: string)
    requires Valid(d) && Key(a) == Key(b)
    requires Key(a) !in d.bosses ==> id1 !in BossIds(d.bosses)
    ensures var first := UpsertBoss(d, a, id1);
            UpsertBoss(first.next, b, id2) == Step(first.next, first.out)
  {
  }

  /** JavaScript truthiness of an optional name: absent and "" are false. */
  predicate Named(bossName: Option<string>) {
    bossName.Some? && bossName.value != ""
  }

  /** The boss `incrementDeaths` acts on and the state after finding it: the
      upserted boss for a name, else the active boss. */
  function DeathTarget(d: Data, bossName: Option<string>, freshId: string): (r: Option<Step<Boss>>)
    requires Valid(d)
    requires Named(bossName) && Key(bossName.value) !in d.bosses ==> freshId !in BossIds(d.bosses)
    ensures r.Some? ==> Valid(r.value.next)
    ensures r.Some? ==> var k := Key(r.value.out.name);
                        k in r.value.next.bosses && r.value.next.bosses[k] == r.value.out
    ensures r.None? <==> !Named(bossName) && ActiveBoss(d).None?
    ensures Named(bossName) ==> r == Some(UpsertBoss(d, bossName.value, freshId))
    ensures !Named(bossName) && ActiveBoss(d).Some? ==> r == Some(Step(d, ActiveBoss(d).value))
  {
    if Named(bossName) then
      Some(UpsertBoss(d, bossName.value, freshId))
    else
      match ActiveBoss(d)
      case None => None
      case Some(b) => Some(Step(d, b))
  }

  /** `boss.deathCount++` followed by the write-back under
      `boss.name.toLowerCase().trim()`. */
  function AddDeath(t: Step<Boss>): (r: Step<Boss>)
    ensures r.out.deathCount == t.out.deathCount + 1
    ensures r.next.bosses == t.next.bosses[Key(t.out.name) := r.out]
  {
    var b := t.out.(deathCount := t.out.deathCount + 1);
    Step(PutBoss(t.next, Key(b.name), b), b)
  }

  /** Adding a death to a boss found stored under its own key keeps the
      state valid, and only the death count changes. */
  lemma AddDeathValid(t: Step<Boss>)
    requires Valid(t.next) && Key(t.out.name) in t.next.bosses && t.next.bosses[Key(t.out.name)] == t.out
    ensures Valid(AddDeath(t).next)
    ensures AddDeath(t).out == t.out.(deathCount := t.out.deathCount + 1)
    ensures AddDeath(t).next.bossOrder == t.next.bossOrder
  {
    var k := Key(t.out.name);
    var b := t.out.(deathCount := t.out.deathCount + 1);
    assert BossStoredAt(t.next.bosses[k], k);
    assert AddDeath(t) == Step(PutBoss(t.next, k, b), b);
    PutBossValid(t.next, k, b);
  }

  /** `incrementDeaths`: one more death for the named boss or, without a
      name, for the active boss; it fails when there is neither. */
  function IncrementDeaths(d: Data, bossName: Option<string>, freshId: string): (r: Result<Step<Boss>>)
    requires Valid(d)
    requires Named(bossName) && Key(bossName.value) !in d.bosses ==> freshId !in BossIds(d.bosses)
    ensures r.Err? <==> !Named(bossName) && ActiveBoss(d).None?
    ensures r.Err? ==> r.error == NoActiveBoss
    ensures r.Ok? ==> Valid(r.value.next)
  {
    match DeathTarget(d, bossName, freshId)
    case None => Err(NoActiveBoss)
    case Some(t) =>
      AddDeathValid(t);
      Ok(AddDeath(t))
  }

  /** A named boss gets one more death, created first when missing and
      counted even when beaten; without a name the active boss does. The boss
      keeps its place in the key order, or is placed last when new. */
  lemma IncrementDeathsCounts(d: Data, bossName: Option<string>, freshId: string)
    requires Valid(d)
    requires Named(bossName) && Key(bossName.value) !in d.bosses ==> freshId !in BossIds(d.bosses)
    requires IncrementDeaths(d, bossName, freshId).Ok?
    ensures var r := IncrementDeaths(d, bossName, freshId).value;
            GetBoss(r.next, r.out.name) == Some(r.out)
            && if Named(bossName) then
                 match GetBoss(d, bossName.value)
                 case Some(b) => r.out == b.(deathCount := b.deathCount + 1) && r.next.bossOrder == d.bossOrder
                 case None => r.out == Boss(freshId, Trim(bossName.value), false, 1, None)
                              && r.next.bossOrder == d.bossOrder + [Key(bossName.value)]
               else
                 var a := ActiveBoss(d).value;
                 r.out == a.(deathCount := a.deathCount + 1) && r.next.bossOrder == d.bossOrder
  {
    var t := DeathTarget(d, bossName, freshId).value;
    assert IncrementDeaths(d, bossName, freshId).value == AddDeath(t);
    AddDeathValid(t);
    assert GetBoss(AddDeath(t).next, t.out.name) == Some(AddDeath(t).out);
    if Named(bossName) {
      UpsertBossFinds(d, bossName.value, freshId);
    } else {
      assert t == Step(d, ActiveBoss(d).value);
    }
  }

  /** `incrementDeaths` touches no other boss and no uninstall request. */
  lemma IncrementDeathsKeepsOthers(d: Data, bossName: Option<string>, freshId: string, n: string)
    requires Valid(d)
    requires Named(bossName) && Key(bossName.value) !in d.bosses ==> freshId !in BossIds(d.bosses)
    requires IncrementDeaths(d, bossName, freshId).Ok?
    requires Key(n) != Key(IncrementDeaths(d, bossName, freshId).value.out.name)
    ensures var r := IncrementDeaths(d, bossName, freshId).value;
            GetBoss(r.next, n) == GetBoss(d, n)
            && r.next.requests == d.requests && r.next.requestOrder == d.requestOrder
  {
    if Named(bossName) {
      UpsertBossKeepsOthers(d, bossName.value, freshId, n);
    }
  }

  /** `setDeaths`: the named boss, created first when missing, gets exactly
      `count` deaths, whatever its sign. */
  function SetDeaths(d: Data, bossName: string, count: int, freshId: string): (r: Step<Boss>)
    requires Valid(d)
    requires Key(bossName) !in d.bosses ==> freshId !in BossIds(d.bosses)
    ensures Valid(r.next)
    ensures r.out.deathCount == count
  {
    var u := UpsertBoss(d, bossName, freshId);
    var b := u.out.(deathCount := count);
    PutBossValid(u.next, Key(b.name), b);
    Step(PutBoss(u.next, Key(b.name), b), b)
  }

  /** Only the death count changes: whether the boss is beaten and its final
      count stay as they were; a missing boss is created and placed last. */
  lemma SetDeathsSets(d: Data, bossName: string, count: int, freshId: string)
    requires Valid(d)
    requires Key(bossName) !in d.bosses ==> freshId !in BossIds(d.bosses)
    ensures var r := SetDeaths(d, bossName, count, freshId);
            GetBoss(r.next, bossName) == Some(r.out)
            && match GetBoss(d, bossName)
               case Some(b) => r.out == b.(deathCount := count) && r.next.bossOrder == d.bossOrder
               case None => r.out == Boss(freshId, Trim(bossName), false, count, None)
                            && r.next.bossOrder == d.bossOrder + [Key(bossName)]
  {
    UpsertBossFinds(d, bossName, freshId);
  }

  /** `setDeaths` touches no other boss and no uninstall request. */
  lemma SetDeathsKeepsOthers(d: Data, bossName: string, count: int, freshId: string, n: string)
    requires Valid(d)
    requires Key(bossName) !in d.bosses ==> freshId !in BossIds(d.bosses)
    requires Key(n) != Key(bossName)
    ensures var r := SetDeaths(d, bossName, count, freshId);
            GetBoss(r.next, n) == GetBoss(d, n)
            && r.next.requests == d.requests && r.next.requestOrder == d.requestOrder
  {
    UpsertBossKeepsOthers(d, bossName, freshId, n);
  }

  /** The boss `markBeaten` acts on: for a name, the existing boss only;
      without one, the active boss. */
  function BeatenTarget(d: Data, bossName: Option<string>): (r: Option<Boss>)
    requires Valid(d)
    ensures r.Some? ==> Key(r.value.name) in d.bosses && d.bosses[Key(r.value.name)] == r.value
    ensures Named(bossName) ==> r == GetBoss(d, bossName.value)
    ensures !Named(bossName) ==> r == ActiveBoss(d)
  {
    if Named(bossName) then GetBoss(d, bossName.value) else ActiveBoss(d)
  }

  /** `markBeaten`: the boss becomes beaten and its final count is set to
      its current death count, again on every call. No boss is created, and
      a missing boss and a missing active boss fail alike. */
  function MarkBeaten(d: Data, bossName: Option<string>): (r: Result<Step<Boss>>)
    requires Valid(d)
    ensures r.Err? <==> (if Named(bossName) then GetBoss(d, bossName.value).None? else ActiveBoss(d).None?)
    ensures r.Err? ==> r.error == BossNotFound
    ensures r.Ok? ==> Valid(r.value.next)
  {
    match BeatenTarget(d, bossName)
    case None => Err(BossNotFound)
    case Some(boss) =>
      var b := boss.(isBeaten := true, finalDeathCount := Some(boss.deathCount));
      PutBossValid(d, Key(b.name), b);
      Ok(Step(PutBoss(d, Key(b.name), b), b))
  }

  /** The target is stored beaten with its final count equal to its death
      count; the set of bosses and their order stay the same. */
  lemma MarkBeatenFreezes(d: Data, bossName: Option<string>)
    requires Valid(d) && MarkBeaten(d, bossName).Ok?
    ensures var r := MarkBeaten(d, bossName).value;
            var t := BeatenTarget(d, bossName).value;
            r.out == t.(isBeaten := true, finalDeathCount := Some(t.deathCount))
            && GetBoss(r.next, r.out.name) == Some(r.out)
            && r.next.bosses.Keys == d.bosses.Keys && r.next.bossOrder == d.bossOrder
  {
  }

  /** `markBeaten` touches no other boss and no uninstall request. */
  lemma MarkBeatenKeepsOthers(d: Data, bossName: Option<string>, n: string)
    requires Valid(d) && MarkBeaten(d, bossName).Ok?
    requires Key(n) != Key(MarkBeaten(d, bossName).value.out.name)
    ensures var r := MarkBeaten(d, bossName).value;
            GetBoss(r.next, n) == GetBoss(d, n)
            && r.next.requests == d.requests && r.next.requestOrder == d.requestOrder
  {
  }

  /** After `markBeaten` succeeds, `getActiveBoss` no longer returns that
      boss. */
  lemma MarkedBossIsNotActive(d: Data, bossName: Option<string>)
    requires Valid(d) && MarkBeaten(d, bossName).Ok?
    ensures var s := MarkBeaten(d, bossName).value;
            ActiveBoss(s.next).Some? ==> Key(ActiveBoss(s.next).value.name) != Key(s.out.name)
  {
    MarkBeatenFreezes(d, bossName);
  }

  /** Counting more deaths on a beaten boss by name neither reopens it nor
      changes its final count. */
  lemma DeathsAfterBeatenKeepFinal(d: Data, bossName: string, freshId: string)
    requires Valid(d) && bossName != ""
    requires GetBoss(d, bossName).Some? && GetBoss(d, bossName).value.isBeaten
    ensures var r := IncrementDeaths(d, Some(bossName), freshId);
            var b := GetBoss(d, bossName).value;
            r.Ok? && r.value.out.isBeaten && r.value.out.finalDeathCount == b.finalDeathCount
            && r.value.out.deathCount == b.deathCount + 1
  {
    IncrementDeathsCounts(d, Some(bossName), freshId);
  }

  /** A repeated `markBeaten` re-freezes the final count to the death count
      at that moment. */
  lemma MarkBeatenAgainRefreezes(d: Data, bossName: string, count: int)
    requires Valid(d) && bossName != ""
    requires GetBoss(d, bossName).Some? && GetBoss(d, bossName).value.isBeaten
    ensures var s := SetDeaths(d, bossName, count, "");
            var m := MarkBeaten(s.next, Some(bossName));
            m.Ok? && m.value.out.finalDeathCount == Some(count) && m.value.out.isBeaten
  {
    SetDeathsSets(d, bossName, count, "");
    var s := SetDeaths(d, bossName, count, "");
    assert BeatenTarget(s.next, Some(bossName)) == Some(s.out);
    MarkBeatenFreezes(s.next, Some(bossName));
  }
}
