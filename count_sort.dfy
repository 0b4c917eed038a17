/** The uninstall leaderboard order: `values.sort((a, b) => b.count - a.count)`.
    `Array.prototype.sort` is stable, so the result is the input with counts
    made non-increasing and entries of equal count left in their input order;
    insertion sort computes exactly that. */
module CountSort {
  import opened Records

  predicate CountDescending(s: seq<UninstallRequest>) {
    forall i, j :: 0 <= i < j < |s| ==> s[i].count >= s[j].count
  }

  /** The entries of `s` whose count is `c`, in the order of `s`. */
  function WithCount(s: seq<UninstallRequest>, c: int): seq<UninstallRequest> {
    if s == [] then []
    else (if s[0].count == c then [s[0]] else []) + WithCount(s[1..], c)
  }

  /** Puts `x` in front of the first entry whose count is not larger. */
  function Insert(x: UninstallRequest, s: seq<UninstallRequest>): (r: seq<UninstallRequest>)
    requires CountDescending(s)
    ensures CountDescending(r)
    ensures multiset(r) == multiset(s) + multiset{x}
    ensures |r| == |s| + 1 && (r[0] == x || (s != [] && r[0] == s[0]))
  {
    if s == [] || s[0].count <= x.count then [x] + s
    else
      var rest := Insert(x, s[1..]);
      assert s == [s[0]] + s[1..];
      [s[0]] + rest
  }

  /** The comparator sort of `getAllUninstallRequests`. */
  function SortByCount(s: seq<UninstallRequest>): (r: seq<UninstallRequest>)
    ensures CountDescending(r)
    ensures multiset(r) == multiset(s)
  {
    if s == [] then []
    else
      assert s == [s[0]] + s[1..];
      Insert(s[0], SortByCount(s[1..]))
  }

  lemma {:induction false} InsertKeepsEqualCountOrder(x: UninstallRequest, s: seq<UninstallRequest>, c: int)
    requires CountDescending(s)
    ensures WithCount(Insert(x, s), c) == (if x.count == c then [x] else []) + WithCount(s, c)
  {
    if s == [] || s[0].count <= x.count {
      assert ([x] + s)[1..] == s;
    } else {
      var rest := Insert(x, s[1..]);
      var head := if s[0].count == c then [s[0]] else [];
      var mine := if x.count == c then [x] else [];
      InsertKeepsEqualCountOrder(x, s[1..], c);
      assert Insert(x, s) == [s[0]] + rest;
      assert ([s[0]] + rest)[1..] == rest;
      assert WithCount(Insert(x, s), c) == head + (mine + WithCount(s[1..], c));
      assert head == [] || mine == [];
    }
  }

  /** The sort is stable: entries of any one count keep their input order. */
  lemma {:induction false} SortIsStable(s: seq<UninstallRequest>, c: int)
    ensures WithCount(SortByCount(s), c) == WithCount(s, c)
  {
    if s != [] {
      SortIsStable(s[1..], c);
      InsertKeepsEqualCountOrder(s[0], SortByCount(s[1..]), c);
    }
  }
}
