/**
 * The Go standard-library string operations build.go relies on:
 * `strings.TrimSpace`, `strings.TrimRight(s, "/")`, `strings.Split` on a
 * one-character separator, `filepath.Base` (Unix separators) and the
 * ordering `<` on strings. Strings are sequences of Unicode code points.
 */
module GoStrings {

  /** Go's `unicode.IsSpace`: the Latin-1 spaces and the other White_Space code points. */
  predicate IsSpace(c: char)
  {
    || c == ' ' || '\t' <= c <= '\r' || c == '\U{0085}' || c == '\U{00A0}' || c == '\U{1680}'
    || '\U{2000}' <= c <= '\U{200A}' || c == '\U{2028}' || c == '\U{2029}' || c == '\U{202F}'
    || c == '\U{205F}' || c == '\U{3000}'
  }

  predicate AllSpace(s: string)
  {
    forall i :: 0 <= i < |s| ==> IsSpace(s[i])
  }

  predicate AllChar(s: string, c: char)
  {
    forall i :: 0 <= i < |s| ==> s[i] == c
  }

  /** `s` with its leading white space removed. */
  function TrimLeftSpace(s: string): string
  {
    if s == [] || !IsSpace(s[0]) then s else TrimLeftSpace(s[1..])
  }

  /** `s` with its trailing white space removed. */
  function TrimRightSpace(s: string): string
  {
    if s == [] || !IsSpace(s[|s| - 1]) then s else TrimRightSpace(s[..|s| - 1])
  }

  /** `strings.TrimSpace`: `s` without the white space at either end. */
  function TrimSpace(s: string): string
  {
    TrimRightSpace(TrimLeftSpace(s))
  }

  /** `TrimLeftSpace` removes exactly the leading run of white space. */
  lemma {:induction false} TrimLeftSpaceSpec(s: string)
    ensures var r := TrimLeftSpace(s);
      && |r| <= |s| && r == s[|s| - |r|..]
      && AllSpace(s[..|s| - |r|])
      && (r == [] || !IsSpace(r[0]))
  {
    if s != [] && IsSpace(s[0]) {
      TrimLeftSpaceSpec(s[1..]);
      var r := TrimLeftSpace(s[1..]);
      assert s[1..][..|s| - 1 - |r|] == s[1..|s| - |r|];
    }
  }

  /** `TrimRightSpace` removes exactly the trailing run of white space. */
  lemma {:induction false} TrimRightSpaceSpec(s: string)
    ensures var r := TrimRightSpace(s);
      && |r| <= |s| && r == s[..|r|]
      && AllSpace(s[|r|..])
      && (r == [] || !IsSpace(r[|r| - 1]))
  {
    if s != [] && IsSpace(s[|s| - 1]) {
      TrimRightSpaceSpec(s[..|s| - 1]);
      var r := TrimRightSpace(s[..|s| - 1]);
      assert s[..|s| - 1][|r|..] == s[|r|..|s| - 1];
      assert s[|r|..] == s[|r|..|s| - 1] + [s[|s| - 1]];
    }
  }

  /**
   * `TrimSpace` returns the slice of `s` left after removing white space at
   * both ends; it neither starts nor ends with white space.
   */
  lemma TrimSpaceSpec(s: string)
    ensures var r := TrimSpace(s);
      && |r| <= |s|
      && (r == [] || (!IsSpace(r[0]) && !IsSpace(r[|r| - 1])))
      && exists i :: 0 <= i <= |s| - |r| && r == s[i..i + |r|]
                     && AllSpace(s[..i]) && AllSpace(s[i + |r|..])
  {
    var left := TrimLeftSpace(s);
    var r := TrimRightSpace(left);
    TrimLeftSpaceSpec(s);
    TrimRightSpaceSpec(left);
    var i := |s| - |left|;
    assert left == s[i..];
    assert r == s[i..i + |r|];
    assert s[i + |r|..] == left[|r|..];
    assert r != [] ==> r[0] == left[0] && !IsSpace(r[0]) && !IsSpace(r[|r| - 1]);
    assert 0 <= i <= |s| - |r| && r == s[i..i + |r|] && AllSpace(s[..i]) && AllSpace(s[i + |r|..]);
  }

  /** A string trims to nothing exactly when it is all white space. */
  lemma TrimSpaceEmpty(s: string)
    ensures TrimSpace(s) == [] <==> AllSpace(s)
  {
    var left := TrimLeftSpace(s);
    var r := TrimRightSpace(left);
    TrimLeftSpaceSpec(s);
    TrimRightSpaceSpec(left);
    var i := |s| - |left|;
    assert AllSpace(s[..i]);
    assert left == s[i..];
    if r == [] {
      assert left[|r|..] == left;
      assert left == [];
      assert s[..i] == s;
    } else {
      assert r[0] == left[0] == s[i];
      assert !IsSpace(s[i]);
    }
  }

  /** Trimming white space twice is trimming it once. */
  lemma TrimSpaceIdempotent(s: string)
    ensures TrimSpace(TrimSpace(s)) == TrimSpace(s)
  {
    TrimSpaceSpec(s);
    var r := TrimSpace(s);
    assert TrimLeftSpace(r) == r;
  }

  /** `strings.TrimRight(s, [c])`: `s` without its trailing run of `c`. */
  function TrimRightChar(s: string, c: char): string
  {
    if s == [] || s[|s| - 1] != c then s else TrimRightChar(s[..|s| - 1], c)
  }

  /** `TrimRightChar` removes exactly the trailing run of `c`. */
  lemma {:induction false} TrimRightCharSpec(s: string, c: char)
    ensures var r := TrimRightChar(s, c);
      && |r| <= |s| && r == s[..|r|]
      && AllChar(s[|r|..], c)
      && (r == [] || r[|r| - 1] != c)
  {
    if s != [] && s[|s| - 1] == c {
      var r := TrimRightChar(s[..|s| - 1], c);
      TrimRightCharSpec(s[..|s| - 1], c);
      assert s[..|s| - 1][|r|..] == s[|r|..|s| - 1];
      assert s[|r|..] == s[|r|..|s| - 1] + [s[|s| - 1]];
    }
  }

  /** Only a string made of `c` alone loses everything to `TrimRightChar`. */
  lemma TrimRightCharEmpty(s: string, c: char)
    ensures TrimRightChar(s, c) == [] <==> AllChar(s, c)
  {
    TrimRightCharSpec(s, c);
    var r := TrimRightChar(s, c);
    if r == [] {
      assert s[|r|..] == s;
    } else {
      assert s[|r| - 1] == r[|r| - 1];
    }
  }

  /** The part of `s` after its last `/` (all of `s` when it has none). */
  function LastSegment(s: string): string
  {
    if s == [] || s[|s| - 1] == '/' then [] else LastSegment(s[..|s| - 1]) + [s[|s| - 1]]
  }

  /** `LastSegment` is the longest `/`-free suffix. */
  lemma {:induction false} LastSegmentSpec(s: string)
    ensures var r := LastSegment(s);
      && |r| <= |s| && r == s[|s| - |r|..]
      && '/' !in r
      && (|r| == |s| || s[|s| - |r| - 1] == '/')
  {
    if s != [] && s[|s| - 1] != '/' {
      var init, c := s[..|s| - 1], s[|s| - 1];
      var r0 := LastSegment(init);
      LastSegmentSpec(init);
      var r := r0 + [c];
      assert LastSegment(s) == r;
      assert r0 == s[|s| - |r|..|s| - 1] by {
        assert init[|init| - |r0|..] == s[|s| - |r|..|s| - 1];
      }
      assert s[|s| - |r|..] == s[|s| - |r|..|s| - 1] + [c];
      assert |r| == |s| || s[|s| - |r| - 1] == init[|init| - |r0| - 1];
    }
  }

  /** `filepath.Base` with `/` as the separator. */
  function Base(path: string): string
  {
    if path == [] then "."
    else
      var t := TrimRightChar(path, '/');
      var r := LastSegment(t);
      if r == [] then "/" else r
  }

  /**
   * `Base` is "." for the empty path, "/" for a path of slashes only, and
   * otherwise the last element of the path once trailing slashes are removed.
   */
  lemma BaseSpec(path: string)
    ensures Base(path) != []
    ensures path == [] ==> Base(path) == "."
    ensures path != [] && AllChar(path, '/') ==> Base(path) == "/"
    ensures !AllChar(path, '/') ==>
      var t, r := TrimRightChar(path, '/'), Base(path);
      && '/' !in r
      && |r| <= |t| && r == t[|t| - |r|..]
      && (|r| == |t| || t[|t| - |r| - 1] == '/')
  {
    if path != [] {
      TrimRightCharEmpty(path, '/');
      if !AllChar(path, '/') {
        BaseLastElement(path);
      }
    }
  }

  /** The last-element case of `BaseSpec`. */
  lemma BaseLastElement(path: string)
    requires !AllChar(path, '/')
    ensures var t, r := TrimRightChar(path, '/'), Base(path);
      && r != []
      && '/' !in r
      && |r| <= |t| && r == t[|t| - |r|..]
      && (|r| == |t| || t[|t| - |r| - 1] == '/')
  {
    var t := TrimRightChar(path, '/');
    BaseOfTrimmed(path);
    LastSegmentSpec(t);
  }

  /** A path that is not all slashes has a non-empty last element, and `Base` is that element. */
  lemma BaseOfTrimmed(path: string)
    requires !AllChar(path, '/')
    ensures LastSegment(TrimRightChar(path, '/')) != []
    ensures Base(path) == LastSegment(TrimRightChar(path, '/'))
  {
    TrimRightCharSpec(path, '/');
    TrimRightCharEmpty(path, '/');
    var t := TrimRightChar(path, '/');
    assert t != [] && t[|t| - 1] != '/';
    assert LastSegment(t) == LastSegment(t[..|t| - 1]) + [t[|t| - 1]];
  }

  /** `strings.Split(s, [sep])`: the maximal `sep`-free pieces between separators. */
  function Split(s: string, sep: char): (parts: seq<string>)
    ensures |parts| >= 1
    ensures forall i :: 0 <= i < |parts| ==> sep !in parts[i]
  {
    if s == [] then [""]
    else
      var rest := Split(s[1..], sep);
      if s[0] == sep then [""] + rest
      else [[s[0]] + rest[0]] + rest[1..]
  }

  /** `strings.Join(parts, [sep])`, the inverse of `Split`. */
  function Join(parts: seq<string>, sep: char): string
    requires |parts| >= 1
  {
    if |parts| == 1 then parts[0] else parts[0] + [sep] + Join(parts[1..], sep)
  }

  /** Joining the pieces back with the separator gives the original string. */
  lemma {:induction false} JoinSplit(s: string, sep: char)
    ensures Join(Split(s, sep), sep) == s
  {
    if s != [] {
      JoinSplit(s[1..], sep);
      var rest := Split(s[1..], sep);
      if s[0] != sep {
        var parts := Split(s, sep);
        if |rest| == 1 {
          assert parts == [[s[0]] + rest[0]];
        } else {
          assert parts[1..] == rest[1..];
          assert Join(parts, sep) == [s[0]] + rest[0] + [sep] + Join(rest[1..], sep);
        }
      }
    }
  }

  /** A string that splits into three pieces is the pieces joined by the separator. */
  lemma SplitThree(s: string, sep: char)
    requires |Split(s, sep)| == 3
    ensures var parts := Split(s, sep);
      s == parts[0] + [sep] + parts[1] + [sep] + parts[2]
  {
    var parts := Split(s, sep);
    JoinSplit(s, sep);
    assert parts[1..][1..] == [parts[2]];
    assert Join(parts[1..], sep) == parts[1] + [sep] + parts[2];
  }

  /** Splitting a join of separator-free pieces gives the pieces back. */
  lemma {:induction false} SplitJoin(parts: seq<string>, sep: char)
    requires |parts| >= 1
    requires forall i :: 0 <= i < |parts| ==> sep !in parts[i]
    ensures Split(Join(parts, sep), sep) == parts
  {
    if |parts| == 1 {
      SplitPiece(parts[0], sep);
    } else {
      SplitJoin(parts[1..], sep);
      SplitPrefix(parts[0], Join(parts[1..], sep), sep);
      assert Join(parts, sep) == parts[0] + ([sep] + Join(parts[1..], sep));
    }
  }

  /** A separator-free string splits into itself. */
  lemma {:induction false} SplitPiece(p: string, sep: char)
    requires sep !in p
    ensures Split(p, sep) == [p]
  {
    if p != [] {
      assert p[0] in p;
      assert forall c :: c in p[1..] ==> c in p;
      SplitPiece(p[1..], sep);
      assert p == [p[0]] + p[1..];
    }
  }

  /** A separator-free piece before a separator becomes the first element. */
  lemma {:induction false} SplitPrefix(p: string, rest: string, sep: char)
    requires sep !in p
    ensures Split(p + [sep] + rest, sep) == [p] + Split(rest, sep)
  {
    if p == [] {
      assert p + [sep] + rest == [sep] + rest;
      assert ([sep] + rest)[1..] == rest;
    } else {
      assert p[0] in p;
      assert forall c :: c in p[1..] ==> c in p;
      SplitPrefix(p[1..], rest, sep);
      var q := p + [sep] + rest;
      assert q[0] == p[0] && q[0] != sep;
      assert q[1..] == p[1..] + [sep] + rest;
      assert p == [p[0]] + p[1..];
    }
  }

  /** Go's `a < b` on strings: lexicographic order by code point. */
  predicate Less(a: string, b: string)
  {
    if a == [] then b != []
    else if b == [] then false
    else if a[0] != b[0] then a[0] < b[0]
    else Less(a[1..], b[1..])
  }

  lemma {:induction false} LessIrreflexive(a: string)
    ensures !Less(a, a)
  {
    if a != [] {
      LessIrreflexive(a[1..]);
    }
  }

  lemma {:induction false} LessAsymmetric(a: string, b: string)
    requires Less(a, b)
    ensures !Less(b, a)
  {
    if a != [] && b != [] && a[0] == b[0] {
      LessAsymmetric(a[1..], b[1..]);
    }
  }

  lemma {:induction false} LessTransitive(a: string, b: string, c: string)
    requires Less(a, b) && Less(b, c)
    ensures Less(a, c)
  {
    if a != [] && a[0] == b[0] && b[0] == c[0] {
      LessTransitive(a[1..], b[1..], c[1..]);
    }
  }

  /** Any two distinct strings are ordered one way or the other. */
  lemma {:induction false} LessTotal(a: string, b: string)
    requires a != b
    ensures Less(a, b) || Less(b, a)
  {
    if a != [] && b != [] && a[0] == b[0] {
      assert a == [a[0]] + a[1..] && b == [b[0]] + b[1..];
      LessTotal(a[1..], b[1..]);
    }
  }
}
