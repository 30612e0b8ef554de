/**
 * The pure list processing of build.go: merging target lists, reading the
 * lines of a `.build` file, and turning the output of
 * `go list -f '{{.Dir}}|{{.Name}}|{{.ImportPath}}' ./...` into targets.
 * The process and file I/O around them are the caller's.
 */
module Build {
  import opened Results
  import opened GoStrings
  import opened Targets
  import opened Sorting

  /**
   * The loop both halves of mergeTargets and the loop of discoverMainPackages
   * run: append each target of `ts` whose key is not yet in `seen`, and
   * record its key.
   */
  method AppendFirsts(out: seq<Target>, seen: set<string>, ts: seq<Target>, key: Target -> string)
    returns (acc: seq<Target>, keys: set<string>)
    ensures acc == out + Dedup(ts, key, seen)
    ensures keys == seen + KeysOf(ts, key)
  {
    acc, keys := out, seen;
    for i := 0 to |ts|
      invariant acc + Dedup(ts[i..], key, keys) == out + Dedup(ts, key, seen)
      invariant keys == seen + KeysOf(ts[..i], key)
    {
      var t := ts[i];
      assert ts[i..][0] == t && ts[i..][1..] == ts[i + 1..];
      assert ts[..i + 1] == ts[..i] + [t];
      KeysOfAppend(ts[..i], [t], key);
      assert KeysOf([t], key) == {key(t)};
      var k := key(t);
      if k !in keys {
        keys := keys + {k};
        acc := acc + [t];
      }
    }
    assert ts[..|ts|] == ts;
  }

  /**
   * mergeTargets: the targets of `a`, then those of `b`, keeping only the
   * first target with each `importPath::exeName` key.
   */
  method MergeTargets(a: seq<Target>, b: seq<Target>) returns (out: seq<Target>)
    ensures out == Dedup(a, MergeKey, {}) + Dedup(b, MergeKey, KeysOf(a, MergeKey))
    ensures out == Dedup(a + b, MergeKey, {})
    ensures |out| <= |a| + |b|
    ensures DistinctKeys(out, MergeKey)
    ensures forall t :: t in out ==> t in a + b
    ensures KeysOf(out, MergeKey) == KeysOf(a + b, MergeKey)
  {
    var seen: set<string>;
    out, seen := AppendFirsts([], {}, a, MergeKey);
    assert out == Dedup(a, MergeKey, {});
    assert seen == KeysOf(a, MergeKey);
    out, seen := AppendFirsts(out, seen, b, MergeKey);
    DedupAppend(a, b, MergeKey, {});
    assert {} + KeysOf(a, MergeKey) == KeysOf(a, MergeKey);
    DedupKeys(a + b, MergeKey, {});
    DedupFromInput(a + b, MergeKey, {});
  }

  /** The `(importPath, exeName)` pair `MergeKey` is meant to identify. */
  function PairKey(t: Target): (string, string)
  {
    (t.importPath, t.exeName)
  }

  /**
   * Two targets with different `(importPath, exeName)` pairs share a
   * `MergeKey`, and `MergeTargets` (whose result is this `Dedup` expression)
   * drops the second one.
   */
  lemma MergeKeyCollision()
    ensures var t1, t2 := Target("", "m", "a::m::a"), Target("", "m::a", "m::a");
      && PairKey(t1) != PairKey(t2)
      && MergeKey(t1) == MergeKey(t2)
      && Dedup([t1], MergeKey, {}) + Dedup([t2], MergeKey, KeysOf([t1], MergeKey)) == [t1]
  {
    var t1, t2 := Target("", "m", "a::m::a"), Target("", "m::a", "m::a");
    assert MergeKey(t1) == MergeKey(t2);
    assert KeysOf([t1], MergeKey) == {MergeKey(t1)};
    assert [t1][1..] == [] && [t2][1..] == [];
  }

  /** Keyed on the pair itself, the merge keeps both targets of `MergeKeyCollision`. */
  lemma PairMergeKeepsCollidingTargets()
    ensures var t1, t2 := Target("", "m", "a::m::a"), Target("", "m::a", "m::a");
      MergeTargetsByPair([t1], [t2]) == [t1, t2]
  {
    var t1, t2 := Target("", "m", "a::m::a"), Target("", "m::a", "m::a");
    assert PairKey(t1) != PairKey(t2);
    var ts := [t1] + [t2];
    assert ts == [t1, t2] && ts[0] == t1 && ts[1..] == [t2] && [t2][1..] == [];
    var k1 := PairKey(t1);
    assert {} + {k1} == {k1};
    var tail := Dedup([t2], PairKey, {k1});
    assert tail == [t2] + Dedup([], PairKey, {k1} + {PairKey(t2)});
    assert tail == [t2];
    assert Dedup(ts, PairKey, {}) == [t1] + tail;
  }

  /**
   * The merge keyed on the `(importPath, exeName)` pair itself: no pair is
   * repeated and every pair of `a` or `b` survives.
   */
  function MergeTargetsByPair(a: seq<Target>, b: seq<Target>): (out: seq<Target>)
    ensures DistinctKeys(out, PairKey)
    ensures forall t :: t in out ==> t in a + b
    ensures forall t :: t in a + b ==>
      exists u :: u in out && u.importPath == t.importPath && u.exeName == t.exeName
  {
    var out := Dedup(a + b, PairKey, {});
    DedupKeys(a + b, PairKey, {});
    DedupFromInput(a + b, PairKey, {});
    assert forall t :: t in a + b ==> PairKey(t) in KeysOf(out, PairKey);
    out
  }

  /** A `.build` line that names a target: not blank and not a `#` comment once trimmed. */
  predicate IsTargetLine(line: string)
  {
    var t := TrimSpace(line);
    t != [] && t[0] != '#'
  }

  /** The trimmed target lines, in file order. */
  function TargetLines(lines: seq<string>): (r: seq<string>)
    ensures |r| <= |lines|
  {
    if lines == [] then []
    else
      var init, last := lines[..|lines| - 1], lines[|lines| - 1];
      var prefix := TargetLines(init);
      prefix + LineTarget(last)
  }

  /** The trimmed line if it is a target line, nothing otherwise. */
  function LineTarget(line: string): seq<string>
  {
    if IsTargetLine(line) then [TrimSpace(line)] else []
  }

  /** Nothing is invented and no target line is lost. */
  lemma {:induction false} TargetLinesFromLines(lines: seq<string>)
    ensures forall s :: s in TargetLines(lines) ==>
      exists i :: 0 <= i < |lines| && IsTargetLine(lines[i]) && s == TrimSpace(lines[i])
    ensures forall i :: 0 <= i < |lines| && IsTargetLine(lines[i]) ==> TrimSpace(lines[i]) in TargetLines(lines)
  {
    if lines != [] {
      var init := lines[..|lines| - 1];
      TargetLinesFromLines(init);
      assert forall i :: 0 <= i < |init| ==> lines[i] == init[i];
    }
  }

  /** The positions of the target lines, in increasing order. */
  function TargetIndices(lines: seq<string>): seq<nat>
  {
    if lines == [] then []
    else
      var init := lines[..|lines| - 1];
      TargetIndices(init) + (if IsTargetLine(lines[|lines| - 1]) then [|lines| - 1] else [])
  }

  /** The positions are in range, strictly increasing, and exactly those of the target lines. */
  lemma {:induction false} TargetIndicesSpec(lines: seq<string>)
    ensures forall k :: 0 <= k < |TargetIndices(lines)| ==> TargetIndices(lines)[k] < |lines|
    ensures forall k, m :: 0 <= k < m < |TargetIndices(lines)| ==> TargetIndices(lines)[k] < TargetIndices(lines)[m]
    ensures forall i :: 0 <= i < |lines| ==> (IsTargetLine(lines[i]) <==> i in TargetIndices(lines))
  {
    if lines != [] {
      var n := |lines|;
      var init := lines[..n - 1];
      TargetIndicesSpec(init);
      var idx0 := TargetIndices(init);
      if IsTargetLine(lines[n - 1]) {
        var idx := idx0 + [n - 1];
        assert TargetIndices(lines) == idx;
        forall k | 0 <= k < |idx| ensures idx[k] < n {
          if k < |idx0| {
            assert idx[k] == idx0[k];
          }
        }
        forall k, m | 0 <= k < m < |idx| ensures idx[k] < idx[m] {
          if m < |idx0| {
            assert idx[k] == idx0[k] && idx[m] == idx0[m];
          } else {
            assert idx[k] == idx0[k];
          }
        }
        forall i | 0 <= i < n ensures IsTargetLine(lines[i]) <==> i in idx {
          if i < n - 1 {
            assert lines[i] == init[i];
            assert i in idx <==> i in idx0;
          }
        }
      } else {
        assert TargetIndices(lines) == idx0;
        assert n - 1 !in idx0;
        forall i | 0 <= i < n - 1 ensures IsTargetLine(lines[i]) <==> i in idx0 {
          assert lines[i] == init[i];
        }
      }
    }
  }

  /** Entry k of the target lines is the trimmed line at the k-th target position. */
  lemma {:induction false} TargetLinesAt(lines: seq<string>)
    ensures |TargetIndices(lines)| == |TargetLines(lines)|
    ensures forall k :: 0 <= k < |TargetIndices(lines)| ==>
      TargetIndices(lines)[k] < |lines| && TargetLines(lines)[k] == TrimSpace(lines[TargetIndices(lines)[k]])
  {
    if lines != [] {
      var n := |lines|;
      var init := lines[..n - 1];
      TargetLinesAt(init);
      var idx0, t0 := TargetIndices(init), TargetLines(init);
      if IsTargetLine(lines[n - 1]) {
        var idx, t := idx0 + [n - 1], t0 + [TrimSpace(lines[n - 1])];
        assert TargetIndices(lines) == idx;
        assert TargetLines(lines) == t;
        forall k | 0 <= k < |idx| ensures idx[k] < n && t[k] == TrimSpace(lines[idx[k]]) {
          if k < |idx0| {
            assert idx[k] == idx0[k] && t[k] == t0[k];
            assert lines[idx0[k]] == init[idx0[k]];
          }
        }
      } else {
        assert TargetIndices(lines) == idx0;
        assert TargetLines(lines) == t0;
        forall k | 0 <= k < |idx0| ensures t0[k] == TrimSpace(lines[idx0[k]]) {
          assert lines[idx0[k]] == init[idx0[k]];
        }
      }
    }
  }

  /**
   * One target per target line, in file order: entry k of the target lines is
   * the trimmed line at position `TargetIndices(lines)[k]`, and those positions
   * increase strictly and are exactly the positions of the target lines.
   */
  lemma {:induction false} TargetLinesIndexed(lines: seq<string>)
    ensures |TargetIndices(lines)| == |TargetLines(lines)|
    ensures forall k :: 0 <= k < |TargetIndices(lines)| ==> TargetIndices(lines)[k] < |lines|
    ensures forall k :: 0 <= k < |TargetIndices(lines)| ==>
      TargetLines(lines)[k] == TrimSpace(lines[TargetIndices(lines)[k]])
    ensures forall k, m :: 0 <= k < m < |TargetIndices(lines)| ==> TargetIndices(lines)[k] < TargetIndices(lines)[m]
    ensures forall i :: 0 <= i < |lines| ==> (IsTargetLine(lines[i]) <==> i in TargetIndices(lines))
  {
    TargetIndicesSpec(lines);
    TargetLinesAt(lines);
  }

  /** There are no target lines exactly when no line is a target line. */
  lemma {:induction false} TargetLinesEmpty(lines: seq<string>)
    ensures TargetLines(lines) == [] <==> forall i :: 0 <= i < |lines| ==> !IsTargetLine(lines[i])
  {
    if lines != [] {
      var init := lines[..|lines| - 1];
      TargetLinesEmpty(init);
      assert forall i :: 0 <= i < |init| ==> lines[i] == init[i];
    }
  }

  /** The target named by a trimmed `.build` line. */
  function BuildFileTarget(line: string): Target
  {
    Target("", line, Base(TrimRightChar(line, '/')))
  }

  /**
   * A `.build` line is the import path of its target, and the executable is
   * named after the line's last path element, trailing slashes ignored ("."
   * for a line of slashes only).
   */
  lemma BuildFileTargetNames(line: string)
    requires line != []
    ensures var t := BuildFileTarget(line);
      && t.dir == "" && t.importPath == line
      && (AllChar(line, '/') ==> t.exeName == ".")
      && (!AllChar(line, '/') ==>
            var trimmed := TrimRightChar(line, '/');
            && t.exeName != [] && '/' !in t.exeName
            && |t.exeName| <= |trimmed| && t.exeName == trimmed[|trimmed| - |t.exeName|..]
            && (|t.exeName| == |trimmed| || trimmed[|trimmed| - |t.exeName| - 1] == '/'))
  {
    var trimmed := TrimRightChar(line, '/');
    TrimRightCharEmpty(line, '/');
    if trimmed != [] {
      TrimRightCharSpec(line, '/');
      assert trimmed[|trimmed| - 1] != '/';
      assert TrimRightChar(trimmed, '/') == trimmed;
      assert !AllChar(trimmed, '/');
      BaseSpec(trimmed);
    }
  }

  /** The last line of a prefix contributes its target after the earlier ones. */
  lemma TargetLinesSnoc(lines: seq<string>, i: nat)
    requires i < |lines|
    ensures TargetLines(lines[..i + 1]) == TargetLines(lines[..i]) + LineTarget(lines[i])
  {
    assert lines[..i + 1][..i] == lines[..i];
  }

  /** The targets named by a sequence of trimmed `.build` lines. */
  function BuildFileTargets(ls: seq<string>): seq<Target>
  {
    if ls == [] then [] else BuildFileTargets(ls[..|ls| - 1]) + [BuildFileTarget(ls[|ls| - 1])]
  }

  /** One target per line, each named by its own line. */
  lemma {:induction false} BuildFileTargetsEach(ls: seq<string>)
    ensures |BuildFileTargets(ls)| == |ls|
    ensures forall k :: 0 <= k < |ls| ==> BuildFileTargets(ls)[k] == BuildFileTarget(ls[k])
  {
    if ls != [] {
      BuildFileTargetsEach(ls[..|ls| - 1]);
    }
  }

  /** The scanning loop of readBuildFile: one target per target line, in order. */
  method CollectBuildTargets(lines: seq<string>) returns (res: seq<Target>)
    ensures |res| == |TargetLines(lines)|
    ensures forall k :: 0 <= k < |res| ==> res[k] == BuildFileTarget(TargetLines(lines)[k])
  {
    res := [];
    for i := 0 to |lines|
      invariant res == BuildFileTargets(TargetLines(lines[..i]))
    {
      var line := TrimSpace(lines[i]);
      TargetLinesSnoc(lines, i);
      ghost var before := TargetLines(lines[..i]);
      if line == "" || line[0] == '#' {
        assert !IsTargetLine(lines[i]);
        assert TargetLines(lines[..i + 1]) == before + [];
        assert before + [] == before;
        continue;
      }
      assert IsTargetLine(lines[i]);
      ghost var after := before + [line];
      assert TargetLines(lines[..i + 1]) == after;
      assert after[..|after| - 1] == before && after[|after| - 1] == line;
      assert BuildFileTargets(after) == BuildFileTargets(before) + [BuildFileTarget(line)];
      res := res + [BuildFileTarget(line)];
    }
    assert lines[..|lines|] == lines;
    BuildFileTargetsEach(TargetLines(lines));
  }

  /**
   * readBuildFile on the lines the scanner produced (`scanErr` is the
   * scanner's final error): one target per target line, in order, or
   * "no targets" when there is none.
   */
  method ReadBuildFile(lines: seq<string>, scanErr: Option<string>) returns (r: Result<seq<Target>, string>)
    ensures scanErr.Some? ==> r == Failure(scanErr.value)
    ensures scanErr.None? ==>
      (r.Failure? <==> forall i :: 0 <= i < |lines| ==> !IsTargetLine(lines[i]))
    ensures scanErr.None? && r.Failure? ==> r.error == "no targets"
    ensures r.Success? ==>
      && |r.value| == |TargetLines(lines)|
      && forall k :: 0 <= k < |r.value| ==> r.value[k] == BuildFileTarget(TargetLines(lines)[k])
  {
    var res := CollectBuildTargets(lines);
    if scanErr.Some? {
      return Failure(scanErr.value);
    }
    TargetLinesEmpty(lines);
    if |res| == 0 {
      return Failure("no targets");
    }
    return Success(res);
  }


  /** The lines of the `go list` output. */
  function ListLines(out: string): (lines: seq<string>)
    ensures |lines| >= 1 && forall i :: 0 <= i < |lines| ==> '\n' !in lines[i]
  {
    Split(TrimSpace(out), '\n')
  }

  /**
   * One `go list` line `Dir|Name|ImportPath`: a target when it has exactly
   * three fields and names package `main`. The executable is named after the
   * directory, or after the working directory when the two are the same.
   */
  function ParseListLine(line: string, rootDir: string, sameDir: (string, string) -> bool): (r: Option<Target>)
    ensures r.Some? ==>
      && line == r.value.dir + "|main|" + r.value.importPath
      && '|' !in r.value.dir && '|' !in r.value.importPath
      && r.value.exeName == if sameDir(r.value.dir, rootDir) then Base(rootDir) else Base(r.value.dir)
  {
    if TrimSpace(line) == "" then None
    else
      var parts := Split(line, '|');
      if |parts| != 3 then None
      else
        var dir, name, importPath := parts[0], parts[1], parts[2];
        if name != "main" then None
        else
          SplitThree(line, '|');
          var exe := if sameDir(dir, rootDir) then Base(rootDir) else Base(dir);
          Some(Target(dir, importPath, exe))
  }

  /** Every well-formed line for package `main` is accepted, so `ParseListLine` accepts exactly those. */
  lemma ParseListLineAccepts(dir: string, importPath: string, rootDir: string, sameDir: (string, string) -> bool)
    requires '|' !in dir && '|' !in importPath
    ensures ParseListLine(dir + "|main|" + importPath, rootDir, sameDir) ==
      Some(Target(dir, importPath, if sameDir(dir, rootDir) then Base(rootDir) else Base(dir)))
  {
    var line := dir + "|main|" + importPath;
    var parts := [dir, "main", importPath];
    assert Join(parts[1..], '|') == "main" + "|" + importPath;
    assert Join(parts, '|') == line;
    SplitJoin(parts, '|');
    TrimSpaceEmpty(line);
    assert line[|dir| + 1] == 'm';
  }

  /** Each line's parse, line by line. */
  function ParseLines(lines: seq<string>, rootDir: string, sameDir: (string, string) -> bool): seq<Option<Target>>
  {
    seq(|lines|, i requires 0 <= i < |lines| => ParseListLine(lines[i], rootDir, sameDir))
  }

  /** The present values, in order. */
  function Somes(parsed: seq<Option<Target>>): (r: seq<Target>)
    ensures |r| <= |parsed|
    ensures forall t :: t in r <==> exists i :: 0 <= i < |parsed| && parsed[i] == Some(t)
  {
    if parsed == [] then []
    else
      var init, last := parsed[..|parsed| - 1], parsed[|parsed| - 1];
      assert forall i :: 0 <= i < |init| ==> parsed[i] == init[i];
      match last
      case None => Somes(init)
      case Some(t) => Somes(init) + [t]
  }

  /**
   * discoverMainPackages on the `go list` output `out`: the `main` packages,
   * one per `dir::importPath` key (the first line wins), sorted by executable
   * name. `sameDir` compares directories as the file system resolves them.
   */
  method DiscoverMainPackages(out: string, rootDir: string, sameDir: (string, string) -> bool)
    returns (r: seq<Target>)
    ensures SortedByExe(r)
    ensures DistinctKeys(r, DirKey)
    ensures multiset(r) == multiset(Dedup(Somes(ParseLines(ListLines(out), rootDir, sameDir)), DirKey, {}))
    ensures forall t :: t in r ==>
      exists i :: 0 <= i < |ListLines(out)| && ParseListLine(ListLines(out)[i], rootDir, sameDir) == Some(t)
    ensures forall i :: 0 <= i < |ListLines(out)| && ParseListLine(ListLines(out)[i], rootDir, sameDir).Some? ==>
      DirKey(ParseListLine(ListLines(out)[i], rootDir, sameDir).value) in KeysOf(r, DirKey)
  {
    var lines := ListLines(out);
    var candidates := Somes(ParseLines(lines, rootDir, sameDir));
    AcceptedCandidates(lines, rootDir, sameDir);
    var res, seen := AppendFirsts([], {}, candidates, DirKey);
    assert res == Dedup(candidates, DirKey, {});
    DedupKeys(candidates, DirKey, {});
    DedupFromInput(candidates, DirKey, {});
    r := SortByExe(res);
    SortKeepsDistinctKeys(res, DirKey);
    SameElementsSameKeys(r, res, DirKey);
    forall i | 0 <= i < |lines| && ParseListLine(lines[i], rootDir, sameDir).Some?
      ensures DirKey(ParseListLine(lines[i], rootDir, sameDir).value) in KeysOf(r, DirKey)
    {
      assert ParseListLine(lines[i], rootDir, sameDir).value in candidates;
    }
  }

  /** The candidate targets are exactly the targets of the accepted lines. */
  lemma AcceptedCandidates(lines: seq<string>, rootDir: string, sameDir: (string, string) -> bool)
    ensures forall t :: t in Somes(ParseLines(lines, rootDir, sameDir)) <==>
      exists i :: 0 <= i < |lines| && ParseListLine(lines[i], rootDir, sameDir) == Some(t)
  {
    var parsed := ParseLines(lines, rootDir, sameDir);
    assert |parsed| == |lines|;
    assert forall i :: 0 <= i < |lines| ==> parsed[i] == ParseListLine(lines[i], rootDir, sameDir);
  }

  /** Two lists with the same elements have the same elements and keys. */
  lemma SameElementsSameKeys<K>(xs: seq<Target>, ys: seq<Target>, key: Target -> K)
    requires multiset(xs) == multiset(ys)
    ensures forall t :: t in xs <==> t in ys
    ensures KeysOf(xs, key) == KeysOf(ys, key)
  {
    forall t ensures t in xs <==> t in ys {
      assert t in xs <==> t in multiset(xs);
      assert t in ys <==> t in multiset(ys);
    }
  }
}
