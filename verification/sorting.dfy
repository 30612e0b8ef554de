/**
 * The `sort.Slice` call of build.go:117, ordering targets by executable name.
 * Go's `sort.Slice` is not stable, so only the order and the permutation are
 * promised; the model sorts by insertion.
 */
module Sorting {
  import opened GoStrings
  import opened Targets

  /** No target is followed by one whose executable name is smaller. */
  predicate SortedByExe(ts: seq<Target>)
  {
    forall i, j :: 0 <= i < j < |ts| ==> !Less(ts[j].exeName, ts[i].exeName)
  }

  /** In a sorted list, nothing is below a name that is below the first one. */
  lemma NothingBelowSmallerHead(x: Target, s: seq<Target>)
    requires SortedByExe(s) && s != [] && Less(x.exeName, s[0].exeName)
    ensures forall j :: 0 <= j < |s| ==> !Less(s[j].exeName, x.exeName)
  {
    LessAsymmetric(x.exeName, s[0].exeName);
    forall j | 0 < j < |s| ensures !Less(s[j].exeName, x.exeName) {
      if Less(s[j].exeName, x.exeName) {
        LessTransitive(s[j].exeName, x.exeName, s[0].exeName);
      }
    }
  }

  /** `x` placed into the sorted list `s` before the first name above its own. */
  function Insert(x: Target, s: seq<Target>): (r: seq<Target>)
    requires SortedByExe(s)
    ensures SortedByExe(r)
    ensures multiset(r) == multiset(s) + multiset{x}
    ensures forall t :: t in r <==> t == x || t in s
  {
    if s == [] then [x]
    else if Less(x.exeName, s[0].exeName) then
      NothingBelowSmallerHead(x, s);
      [x] + s
    else
      var rest := Insert(x, s[1..]);
      assert s == [s[0]] + s[1..];
      assert forall t :: t in rest ==> !Less(t.exeName, s[0].exeName);
      [s[0]] + rest
  }

  /** The targets in order of executable name: a sorted permutation of the input. */
  function SortByExe(ts: seq<Target>): (r: seq<Target>)
    ensures SortedByExe(r)
    ensures multiset(r) == multiset(ts)
  {
    if ts == [] then []
    else
      assert ts == [ts[0]] + ts[1..];
      Insert(ts[0], SortByExe(ts[1..]))
  }

  /** Inserting an element whose key is new keeps the keys distinct. */
  lemma {:induction false} InsertKeepsDistinctKeys<K>(x: Target, s: seq<Target>, key: Target -> K)
    requires SortedByExe(s) && DistinctKeys(s, key)
    requires forall t :: t in s ==> key(t) != key(x)
    ensures DistinctKeys(Insert(x, s), key)
  {
    if s != [] && !Less(x.exeName, s[0].exeName) {
      InsertKeepsDistinctKeys(x, s[1..], key);
      var rest := Insert(x, s[1..]);
      forall t | t in rest ensures key(t) != key(s[0]) {
        if t != x {
          var j :| 0 <= j < |s[1..]| && s[1..][j] == t;
          assert s[j + 1] == t;
        }
      }
    }
  }

  /** Sorting keeps distinct keys distinct. */
  lemma {:induction false} SortKeepsDistinctKeys<K>(ts: seq<Target>, key: Target -> K)
    requires DistinctKeys(ts, key)
    ensures DistinctKeys(SortByExe(ts), key)
  {
    if ts != [] {
      SortKeepsDistinctKeys(ts[1..], key);
      var sorted := SortByExe(ts[1..]);
      forall t | t in sorted ensures key(t) != key(ts[0]) {
        assert t in multiset(sorted);
        var j :| 0 <= j < |ts[1..]| && ts[1..][j] == t;
        assert ts[j + 1] == t;
      }
      InsertKeepsDistinctKeys(ts[0], sorted, key);
    }
  }
}
