/**
 * Build targets of build.go and the order-preserving de-duplication that
 * `mergeTargets` and `discoverMainPackages` perform with their `seen` maps.
 */
module Targets {

  /** A package to build: its directory, its import path and its executable name. */
  datatype Target = Target(dir: string, importPath: string, exeName: string)

  /** The key `mergeTargets` de-duplicates on. */
  function MergeKey(t: Target): string
  {
    t.importPath + "::" + t.exeName
  }

  /** The key `discoverMainPackages` de-duplicates on. */
  function DirKey(t: Target): string
  {
    t.dir + "::" + t.importPath
  }

  /** The keys occurring in `ts`. */
  function KeysOf<K>(ts: seq<Target>, key: Target -> K): set<K>
  {
    set t | t in ts :: key(t)
  }

  lemma KeysOfAppend<K>(xs: seq<Target>, ys: seq<Target>, key: Target -> K)
    ensures KeysOf(xs + ys, key) == KeysOf(xs, key) + KeysOf(ys, key)
  {
    forall k | k in KeysOf(xs + ys, key) ensures k in KeysOf(xs, key) + KeysOf(ys, key) {
      var t :| t in xs + ys && key(t) == k;
    }
    forall k | k in KeysOf(xs, key) + KeysOf(ys, key) ensures k in KeysOf(xs + ys, key) {
      if k in KeysOf(xs, key) {
        var t :| t in xs && key(t) == k;
        assert t in xs + ys;
      } else {
        var t :| t in ys && key(t) == k;
        assert t in xs + ys;
      }
    }
  }

  /** The keys of a non-empty list: the head's key and the keys of the rest. */
  lemma KeysOfCons<K>(ts: seq<Target>, key: Target -> K)
    requires ts != []
    ensures KeysOf(ts, key) == {key(ts[0])} + KeysOf(ts[1..], key)
  {
    assert ts == [ts[0]] + ts[1..];
    KeysOfAppend([ts[0]], ts[1..], key);
    assert KeysOf([ts[0]], key) == {key(ts[0])};
  }

  /** No two elements of `ts` share a key. */
  predicate DistinctKeys<K(==)>(ts: seq<Target>, key: Target -> K)
  {
    forall i, j :: 0 <= i < j < |ts| ==> key(ts[i]) != key(ts[j])
  }

  /**
   * The `seen`-map loop: walk `ts` in order, keep an element when its key is
   * not in `seen` yet, and add its key to `seen`.
   */
  function Dedup<K(==)>(ts: seq<Target>, key: Target -> K, seen: set<K>): (r: seq<Target>)
    ensures |r| <= |ts|
  {
    if ts == [] then []
    else if key(ts[0]) in seen then Dedup(ts[1..], key, seen)
    else [ts[0]] + Dedup(ts[1..], key, seen + {key(ts[0])})
  }

  /** `Dedup` only keeps elements of its input whose keys were not already seen. */
  lemma {:induction false} DedupFromInput<K>(ts: seq<Target>, key: Target -> K, seen: set<K>)
    ensures forall t :: t in Dedup(ts, key, seen) ==> t in ts && key(t) !in seen
  {
    if ts != [] {
      var k := key(ts[0]);
      assert forall t :: t in ts[1..] ==> t in ts;
      if k in seen {
        DedupFromInput(ts[1..], key, seen);
      } else {
        DedupFromInput(ts[1..], key, seen + {k});
      }
    }
  }

  /**
   * `Dedup` leaves no key twice, and exactly the keys of the input that were
   * not already seen.
   */
  lemma {:induction false} DedupKeys<K>(ts: seq<Target>, key: Target -> K, seen: set<K>)
    ensures DistinctKeys(Dedup(ts, key, seen), key)
    ensures KeysOf(Dedup(ts, key, seen), key) == KeysOf(ts, key) - seen
  {
    if ts != [] {
      var k := key(ts[0]);
      KeysOfCons(ts, key);
      if k in seen {
        DedupKeys(ts[1..], key, seen);
      } else {
        var rest := Dedup(ts[1..], key, seen + {k});
        DedupKeys(ts[1..], key, seen + {k});
        KeysOfCons([ts[0]] + rest, key);
        assert ([ts[0]] + rest)[1..] == rest;
        forall j | 0 <= j < |rest| ensures key(rest[j]) != k {
          assert rest[j] in rest;
        }
      }
    }
  }

  /** De-duplicating a concatenation: the first part, then the second against the first's keys. */
  lemma {:induction false} DedupAppend<K>(xs: seq<Target>, ys: seq<Target>, key: Target -> K, seen: set<K>)
    ensures Dedup(xs + ys, key, seen) == Dedup(xs, key, seen) + Dedup(ys, key, seen + KeysOf(xs, key))
  {
    if xs == [] {
      assert xs + ys == ys;
      assert KeysOf(xs, key) == {};
      assert seen + {} == seen;
    } else {
      var k := key(xs[0]);
      assert (xs + ys)[0] == xs[0];
      assert (xs + ys)[1..] == xs[1..] + ys;
      KeysOfCons(xs, key);
      if k in seen {
        DedupAppend(xs[1..], ys, key, seen);
        assert seen + KeysOf(xs, key) == seen + KeysOf(xs[1..], key);
      } else {
        DedupAppend(xs[1..], ys, key, seen + {k});
        assert seen + KeysOf(xs, key) == seen + {k} + KeysOf(xs[1..], key);
      }
    }
  }

  /** The index of the first element of `ts` with key `k`, or `|ts|` if there is none. */
  function FirstIndex<K(==)>(ts: seq<Target>, key: Target -> K, k: K): (i: nat)
    ensures i <= |ts|
    ensures i < |ts| ==> key(ts[i]) == k
    ensures forall j :: 0 <= j < i ==> key(ts[j]) != k
  {
    if ts == [] then 0
    else if key(ts[0]) == k then 0
    else 1 + FirstIndex(ts[1..], key, k)
  }

  /** Each element `Dedup` keeps is the first element of the input with its key. */
  lemma {:induction false} DedupKeepsFirst<K>(ts: seq<Target>, key: Target -> K, seen: set<K>)
    ensures forall j :: 0 <= j < |Dedup(ts, key, seen)| ==>
      && FirstIndex(ts, key, key(Dedup(ts, key, seen)[j])) < |ts|
      && Dedup(ts, key, seen)[j] == ts[FirstIndex(ts, key, key(Dedup(ts, key, seen)[j]))]
  {
    if ts != [] {
      var k := key(ts[0]);
      var seen' := if k in seen then seen else seen + {k};
      var rest := Dedup(ts[1..], key, seen');
      var r := Dedup(ts, key, seen);
      assert r == if k in seen then rest else [ts[0]] + rest;
      DedupKeepsFirst(ts[1..], key, seen');
      DedupFromInput(ts[1..], key, seen');
      forall j | 0 <= j < |rest|
        ensures FirstIndex(ts, key, key(rest[j])) < |ts|
        ensures rest[j] == ts[FirstIndex(ts, key, key(rest[j]))]
      {
        assert rest[j] in rest;
        assert key(rest[j]) != k;
        var i := FirstIndex(ts[1..], key, key(rest[j]));
        assert i < |ts[1..]| && rest[j] == ts[1..][i];
        assert FirstIndex(ts, key, key(rest[j])) == 1 + i;
      }
      if k !in seen {
        assert r[0] == ts[0];
        assert FirstIndex(ts, key, k) == 0;
        forall j | 1 <= j < |r| ensures r[j] == rest[j - 1] {}
      }
    }
  }

  /** The elements `Dedup` keeps appear in the order of their keys' first occurrences. */
  lemma {:induction false} DedupKeepsOrder<K>(ts: seq<Target>, key: Target -> K, seen: set<K>)
    ensures forall i, j :: 0 <= i < j < |Dedup(ts, key, seen)| ==>
      FirstIndex(ts, key, key(Dedup(ts, key, seen)[i])) < FirstIndex(ts, key, key(Dedup(ts, key, seen)[j]))
  {
    if ts != [] {
      var k := key(ts[0]);
      var seen' := if k in seen then seen else seen + {k};
      var rest := Dedup(ts[1..], key, seen');
      var r := Dedup(ts, key, seen);
      assert r == if k in seen then rest else [ts[0]] + rest;
      DedupKeepsOrder(ts[1..], key, seen');
      DedupFromInput(ts[1..], key, seen');
      forall j | 0 <= j < |rest|
        ensures FirstIndex(ts, key, key(rest[j])) == 1 + FirstIndex(ts[1..], key, key(rest[j]))
      {
        assert rest[j] in rest;
        assert key(rest[j]) != k;
      }
      if k !in seen {
        assert FirstIndex(ts, key, k) == 0;
        forall j | 1 <= j < |r| ensures r[j] == rest[j - 1] {}
      }
    }
  }
}
