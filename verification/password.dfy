/**
 * The password generator of internal/password/generator.go.
 *
 * The secure random source (`crypto/rand.Int`) is an oracle: the k-th call
 * either yields an index or fails with an error. Its uniformity is not
 * modelled; only its promise that a successful draw lies in `[0, n)`.
 */
module Password {
  import opened Results

  const Letters: string := "abcdefghijklmnopqrstuvwxyzABCDEFGHIJKLMNOPQRSTUVWXYZ"
  const Numbers: string := "0123456789"
  const Symbols: string := "!@#$%^&*()-_=+[]{}|;:,.<>?/"

  /** The outcome of one call to the random source. */
  datatype Draw = Drawn(index: nat) | DrawError(err: string)

  /** The random source: `source(k)` is the outcome of its k-th call. */
  type Source = nat -> Draw

  /** Every successful draw among the first `count` lies in `[0, n)`. */
  predicate DrawsInRange(source: Source, n: nat, count: nat)
  {
    forall k :: 0 <= k < count ==> source(k).Drawn? ==> source(k).index < n
  }

  /** None of the first `count` draws fails. */
  predicate NoFailureBefore(source: Source, count: nat)
  {
    forall k :: 0 <= k < count ==> source(k).Drawn?
  }

  /** Draw `k` is the first failing one among the first `count`. */
  predicate FirstFailure(source: Source, k: nat, count: nat)
  {
    k < count && source(k).DrawError? && NoFailureBefore(source, k)
  }

  /** The alphabet: letters, then digits if asked for, then symbols if asked for. */
  function Alphabet(includeNumbers: bool, includeSymbols: bool): (r: string)
    ensures |r| == |Letters| + (if includeNumbers then |Numbers| else 0)
                             + (if includeSymbols then |Symbols| else 0)
    ensures |r| in {52, 62, 79, 89}
    ensures r[..|Letters|] == Letters
    ensures includeNumbers ==> r[|Letters|..|Letters| + |Numbers|] == Numbers
    ensures includeSymbols ==> r[|r| - |Symbols|..] == Symbols
    ensures forall c :: c in r <==>
      c in Letters || (includeNumbers && c in Numbers) || (includeSymbols && c in Symbols)
  {
    var withNumbers := if includeNumbers then Letters + Numbers else Letters;
    if includeSymbols then withNumbers + Symbols else withNumbers
  }

  /**
   * What a generation run returns: on success exactly one alphabet character
   * per draw; on failure the empty password and the first failing draw's error.
   */
  ghost predicate Generates(length: nat, alphabet: string, source: Source,
                            password: string, err: Option<string>)
  {
    if NoFailureBefore(source, length) then
      && err == None
      && |password| == length
      && forall k :: 0 <= k < length ==>
           source(k).index < |alphabet| && password[k] == alphabet[source(k).index]
    else
      && password == ""
      && exists k: nat :: FirstFailure(source, k, length) && err == Some(source(k).err)
  }

  /**
   * GeneratePassword: fills `length` positions, drawing one alphabet index per
   * position, and gives up with the draw's error as soon as a draw fails.
   * `used` is the number of calls made to the random source.
   */
  method GeneratePassword(length: int, includeNumbers: bool, includeSymbols: bool, source: Source)
    returns (password: string, err: Option<string>, used: nat)
    requires length >= 0
    requires DrawsInRange(source, |Alphabet(includeNumbers, includeSymbols)|, length)
    ensures Generates(length, Alphabet(includeNumbers, includeSymbols), source, password, err)
    ensures err.None? <==> NoFailureBefore(source, length)
    ensures err.None? ==> |password| == length && used == length
    ensures err.Some? ==> password == "" && used >= 1 && FirstFailure(source, used - 1, length)
                          && err.value == source(used - 1).err
    ensures forall c :: c in password ==> c in Alphabet(includeNumbers, includeSymbols)
    ensures !includeNumbers && !includeSymbols ==> forall c :: c in password ==> c in Letters
    ensures length == 0 ==> password == "" && err == None && used == 0
  {
    var allChars := Alphabet(includeNumbers, includeSymbols);
    var buffer: seq<char> := [];
    var i := 0;
    while i < length
      invariant 0 <= i <= length
      invariant |buffer| == i
      invariant NoFailureBefore(source, i)
      invariant forall k :: 0 <= k < i ==> buffer[k] == allChars[source(k).index]
    {
      match source(i)
      case DrawError(e) =>
        assert FirstFailure(source, i, length);
        return "", Some(e), i + 1;
      case Drawn(index) =>
        buffer := buffer + [allChars[index]];
      i := i + 1;
    }
    password, err, used := buffer, None, length;
  }

  /** The first failing draw is unique. */
  lemma FirstFailureUnique(source: Source, j: nat, k: nat, count: nat)
    requires FirstFailure(source, j, count) && FirstFailure(source, k, count)
    ensures j == k
  {
  }

  /**
   * The result is a function of the draws alone: two sources that agree on
   * the first `length` draws yield the same password and the same error.
   */
  lemma {:induction false} GenerationDeterminedByDraws(
    length: nat, alphabet: string, s1: Source, s2: Source,
    p1: string, e1: Option<string>, p2: string, e2: Option<string>)
    requires forall k :: 0 <= k < length ==> s1(k) == s2(k)
    requires Generates(length, alphabet, s1, p1, e1)
    requires Generates(length, alphabet, s2, p2, e2)
    ensures p1 == p2 && e1 == e2
  {
    if NoFailureBefore(s1, length) {
      assert NoFailureBefore(s2, length);
      assert |p1| == |p2|;
      forall k | 0 <= k < |p1| ensures p1[k] == p2[k] {
        assert s1(k) == s2(k);
      }
    } else {
      assert !NoFailureBefore(s2, length);
      var k1: nat :| FirstFailure(s1, k1, length) && e1 == Some(s1(k1).err);
      var k2: nat :| FirstFailure(s2, k2, length) && e2 == Some(s2(k2).err);
      assert FirstFailure(s2, k1, length) by {
        forall j | 0 <= j < k1 ensures s2(j).Drawn? {
          assert s1(j) == s2(j);
        }
        assert s1(k1) == s2(k1);
      }
      FirstFailureUnique(s2, k1, k2, length);
      assert s1(k1) == s2(k1);
    }
  }

  /** A zero-length request succeeds with "" whatever the source would do. */
  lemma ZeroLengthIgnoresSource(alphabet: string, source: Source, password: string, err: Option<string>)
    requires Generates(0, alphabet, source, password, err)
    ensures password == "" && err == None
  {
  }
}
