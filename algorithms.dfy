/** The four exercises of test/algorithm.test.js. */
module Algorithms {

  // ---------------------------------------------------------------------------
  // matrixDiagonalSubtraction

  /** `m[i][j] || 0`: an entry past the end of its row counts as 0. */
  function Entry(m: seq<seq<int>>, i: nat, j: int): int
    requires i < |m|
  {
    if 0 <= j < |m[i]| then m[i][j] else 0
  }

  /** The sum of the first `k` entries of the main diagonal. */
  function MainDiagonal(m: seq<seq<int>>, k: nat): int
    requires k <= |m|
  {
    if k == 0 then 0 else MainDiagonal(m, k - 1) + Entry(m, k - 1, k - 1)
  }

  /** The sum of the first `k` entries of the anti-diagonal, `m[i][n - 1 - i]`. */
  function AntiDiagonal(m: seq<seq<int>>, k: nat): int
    requires k <= |m|
  {
    if k == 0 then 0 else AntiDiagonal(m, k - 1) + Entry(m, k - 1, |m| - k)
  }

  method MatrixDiagonalSubtraction(m: seq<seq<int>>) returns (r: int)
    ensures r == MainDiagonal(m, |m|) - AntiDiagonal(m, |m|)
  {
    var diagonal1, diagonal2 := 0, 0;
    var i := 0;
    while i < |m|
      invariant 0 <= i <= |m|
      invariant diagonal1 == MainDiagonal(m, i)
      invariant diagonal2 == AntiDiagonal(m, i)
    {
      diagonal1 := diagonal1 + (if i < |m[i]| then m[i][i] else 0);
      var j := |m| - 1 - i;
      diagonal2 := diagonal2 + (if j < |m[i]| then m[i][j] else 0);
      i := i + 1;
    }
    r := diagonal1 - diagonal2;
  }

  predicate Square(m: seq<seq<int>>) {
    forall i :: 0 <= i < |m| ==> |m[i]| == |m|
  }

  /** Every row read right to left. */
  function Mirror(m: seq<seq<int>>): (r: seq<seq<int>>)
    ensures |r| == |m|
    ensures forall i :: 0 <= i < |m| ==> |r[i]| == |m[i]|
    ensures forall i, j :: 0 <= i < |m| && 0 <= j < |m[i]| ==> r[i][j] == m[i][|m[i]| - 1 - j]
  {
    seq(|m|, i requires 0 <= i < |m| => seq(|m[i]|, j requires 0 <= j < |m[i]| => m[i][|m[i]| - 1 - j]))
  }

  /** Mirroring a square matrix swaps its two diagonals. */
  lemma {:induction false} MirrorSwapsDiagonals(m: seq<seq<int>>, k: nat)
    requires Square(m) && k <= |m|
    ensures MainDiagonal(Mirror(m), k) == AntiDiagonal(m, k)
    ensures AntiDiagonal(Mirror(m), k) == MainDiagonal(m, k)
  {
    if k > 0 {
      MirrorSwapsDiagonals(m, k - 1);
    }
  }

  /** So mirroring a square matrix negates the difference of its diagonals. */
  lemma MirrorNegatesDifference(m: seq<seq<int>>)
    requires Square(m)
    ensures MainDiagonal(Mirror(m), |m|) - AntiDiagonal(Mirror(m), |m|)
            == -(MainDiagonal(m, |m|) - AntiDiagonal(m, |m|))
  {
    MirrorSwapsDiagonals(m, |m|);
  }

  // ---------------------------------------------------------------------------
  // countQuery

  /** The number of positions of `s` that hold `x`. */
  function Occurrences(s: seq<string>, x: string): nat {
    if s == [] then 0
    else Occurrences(s[..|s| - 1], x) + (if s[|s| - 1] == x then 1 else 0)
  }

  /** Counting positions agrees with the multiplicity of `x` in `s`. */
  lemma {:induction false} OccurrencesIsMultiplicity(s: seq<string>, x: string)
    ensures Occurrences(s, x) == multiset(s)[x]
  {
    if s != [] {
      var front := s[..|s| - 1];
      OccurrencesIsMultiplicity(front, x);
      assert s == front + [s[|s| - 1]];
      assert multiset(s) == multiset(front) + multiset{s[|s| - 1]};
    }
  }

  method CountQuery(input: seq<string>, query: seq<string>) returns (result: seq<nat>)
    ensures |result| == |query|
    ensures forall i :: 0 <= i < |query| ==> result[i] == Occurrences(input, query[i])
  {
    result := [];
    var i := 0;
    while i < |query|
      invariant 0 <= i <= |query|
      invariant |result| == i
      invariant forall k :: 0 <= k < i ==> result[k] == Occurrences(input, query[k])
    {
      var count := 0;
      var j := 0;
      while j < |input|
        invariant 0 <= j <= |input|
        invariant count == Occurrences(input[..j], query[i])
      {
        assert input[..j + 1][..j] == input[..j];
        if query[i] == input[j] {
          count := count + 1;
        }
        j := j + 1;
      }
      assert input[..|input|] == input;
      result := result + [count];
      i := i + 1;
    }
  }

  // ---------------------------------------------------------------------------
  // findLongestWordLength

  /** `s.split(' ')`: the pieces between single spaces, empty pieces included. */
  function Words(s: string): (ws: seq<string>)
    ensures |ws| >= 1
  {
    if s == [] then [""]
    else
      var rest := Words(s[1..]);
      if s[0] == ' ' then [""] + rest else [[s[0]] + rest[0]] + rest[1..]
  }

  /** `ws.join(' ')`. */
  function Join(ws: seq<string>): string
    requires |ws| >= 1
  {
    if |ws| == 1 then ws[0] else ws[0] + " " + Join(ws[1..])
  }

  /** The pieces hold no space and joining them back with spaces gives `s`. */
  lemma {:induction false} WordsSplitAtSpaces(s: string)
    ensures Join(Words(s)) == s
    ensures forall i :: 0 <= i < |Words(s)| ==> ' ' !in Words(s)[i]
  {
    if s != [] {
      var rest := Words(s[1..]);
      WordsSplitAtSpaces(s[1..]);
      if s[0] == ' ' {
        assert Words(s) == [""] + rest;
        assert Words(s)[1..] == rest;
        assert s == "" + " " + s[1..];
      } else {
        var ws := Words(s);
        assert ws == [[s[0]] + rest[0]] + rest[1..];
        if |rest| == 1 {
          assert s == [s[0]] + s[1..];
        } else {
          assert ws[1..] == rest[1..];
          assert Join(rest) == rest[0] + " " + Join(rest[1..]);
          assert s == [s[0]] + s[1..];
        }
        forall i | 0 <= i < |ws|
          ensures ' ' !in ws[i]
        {
          if i > 0 {
            assert ws[i] == rest[i];
          } else {
            assert ' ' !in rest[0];
          }
        }
      }
    }
  }

  method FindLongestWordLength(s: string) returns (n: nat)
    ensures forall w :: w in Words(s) ==> |w| <= n
    ensures exists w :: w in Words(s) && |w| == n
  {
    var words := Words(s);
    var longest := "";
    var i := 0;
    while i < |words|
      invariant 0 <= i <= |words|
      invariant forall j :: 0 <= j < i ==> |words[j]| <= |longest|
      invariant longest == "" || longest in words[..i]
    {
      if |words[i]| > |longest| {
        longest := words[i];
      }
      i := i + 1;
    }
    assert words[..i] == words;
    if longest == "" {
      assert |words[0]| == 0;
    }
    n := |longest|;
  }

  // ---------------------------------------------------------------------------
  // reverseAlphabet

  /** `/[0-9]/`. */
  predicate IsDigit(c: char) {
    '0' <= c <= '9'
  }

  /** The characters a digit removal keeps of `c`. */
  function Kept(c: char): string {
    if IsDigit(c) then [] else [c]
  }

  /** `str.replace(/[0-9]/g, '')`. */
  function NonDigits(s: string): (r: string)
    ensures |r| <= |s|
  {
    if s == [] then [] else NonDigits(s[..|s| - 1]) + Kept(s[|s| - 1])
  }

  /** `split('').reverse().join('')`. */
  function Reverse(s: string): (r: string)
    ensures |r| == |s|
    ensures forall k :: 0 <= k < |s| ==> r[k] == s[|s| - 1 - k]
  {
    if s == [] then [] else Reverse(s[1..]) + [s[0]]
  }

  lemma ReverseTwice(s: string)
    ensures Reverse(Reverse(s)) == s
  {
  }

  /** Removing the digits one character further along. */
  lemma NonDigitsSnoc(s: string, c: char)
    ensures NonDigits(s + [c]) == NonDigits(s) + Kept(c)
  {
    assert (s + [c])[..|s|] == s;
  }

  /** What the removal keeps holds no digit. */
  lemma {:induction false} NonDigitsHasNoDigit(s: string)
    ensures forall k :: 0 <= k < |NonDigits(s)| ==> !IsDigit(NonDigits(s)[k])
  {
    if s != [] {
      NonDigitsHasNoDigit(s[..|s| - 1]);
    }
  }

  /** A prefix keeps no more characters than the whole string does. */
  lemma {:induction false} NonDigitsPrefixShorter(s: string, i: nat)
    requires i <= |s|
    ensures |NonDigits(s[..i])| <= |NonDigits(s)|
    decreases |s| - i
  {
    if i < |s| {
      var front := s[..|s| - 1];
      assert front[..i] == s[..i];
      NonDigitsPrefixShorter(front, i);
    } else {
      assert s[..i] == s;
    }
  }

  /** Position `i` is a digit in both strings, the same one, or a digit in neither. */
  predicate DigitAgreesAt(s: string, t: string, i: nat)
    requires i < |s| && i < |t|
  {
    (IsDigit(s[i]) <==> IsDigit(t[i])) && (IsDigit(s[i]) ==> s[i] == t[i])
  }

  /** `t` has the digits of `s`, at the same indices, and nothing else that is a digit. */
  predicate SameDigits(s: string, t: string) {
    |s| == |t| && forall i :: 0 <= i < |s| ==> DigitAgreesAt(s, t, i)
  }

  /** `r` is `s` with its digits kept in place and its other characters in reverse order. */
  predicate LettersReversed(s: string, r: string) {
    SameDigits(s, r) && NonDigits(r) == Reverse(NonDigits(s))
  }

  /** Two strings with the same digits at the same places and the same other
      characters in the same order agree at every position. */
  lemma {:induction false} SameShapeAgree(s: string, t: string)
    requires SameDigits(s, t)
    requires NonDigits(s) == NonDigits(t)
    ensures forall i :: 0 <= i < |s| ==> s[i] == t[i]
  {
    if s != [] {
      var n := |s| - 1;
      var s', t' := s[..n], t[..n];
      assert DigitAgreesAt(s, t, n);
      if IsDigit(s[n]) {
        assert NonDigits(s') + Kept(s[n]) == NonDigits(s');
        assert NonDigits(t') + Kept(t[n]) == NonDigits(t');
      } else {
        var ns := NonDigits(s);
        assert ns == NonDigits(s') + [s[n]] == NonDigits(t') + [t[n]];
        assert NonDigits(s') == ns[..|ns| - 1] == NonDigits(t');
        assert s[n] == ns[|ns| - 1] == t[n];
      }
      forall i | 0 <= i < n
        ensures DigitAgreesAt(s', t', i)
      {
        assert DigitAgreesAt(s, t, i);
      }
      SameShapeAgree(s', t');
    }
  }

  /** The result is determined by the input. */
  lemma LettersReversedUnique(s: string, r1: string, r2: string)
    requires LettersReversed(s, r1) && LettersReversed(s, r2)
    ensures r1 == r2
  {
    forall i | 0 <= i < |r1|
      ensures DigitAgreesAt(r1, r2, i)
    {
      assert DigitAgreesAt(s, r1, i) && DigitAgreesAt(s, r2, i);
    }
    SameShapeAgree(r1, r2);
  }

  /** Reversing the letters twice gives back the original string. */
  lemma LettersReversedTwice(s: string, r: string, t: string)
    requires LettersReversed(s, r) && LettersReversed(r, t)
    ensures t == s
  {
    ReverseTwice(NonDigits(s));
    forall i | 0 <= i < |t|
      ensures DigitAgreesAt(t, s, i)
    {
      assert DigitAgreesAt(s, r, i) && DigitAgreesAt(r, t, i);
    }
    SameShapeAgree(t, s);
  }

  /** The removal on a prefix one character longer. */
  lemma NonDigitsStep(s: string, i: nat)
    requires i < |s|
    ensures NonDigits(s[..i + 1]) == NonDigits(s[..i]) + Kept(s[i])
  {
    assert s[..i + 1] == s[..i] + [s[i]];
    NonDigitsSnoc(s[..i], s[i]);
  }

  /** Appending a digit leaves the removal unchanged. */
  lemma NonDigitsSnocDigit(r: string, c: char)
    requires IsDigit(c)
    ensures NonDigits(r + [c]) == NonDigits(r)
  {
    NonDigitsSnoc(r, c);
    assert NonDigits(r) + [] == NonDigits(r);
  }

  /** Appending a non-digit appends it to the removal. */
  lemma NonDigitsSnocLetter(r: string, c: char)
    requires !IsDigit(c)
    ensures NonDigits(r + [c]) == NonDigits(r) + [c]
  {
    NonDigitsSnoc(r, c);
  }

  lemma TakeOneMore(xs: string, n: nat)
    requires n < |xs|
    ensures xs[..n + 1] == xs[..n] + [xs[n]]
  {
  }

  /** Extending both strings by one position that agrees keeps them in agreement. */
  lemma SameDigitsSnoc(s: string, i: nat, prev: string, c: char)
    requires i < |s| && SameDigits(s[..i], prev)
    requires IsDigit(s[i]) <==> IsDigit(c)
    requires IsDigit(s[i]) ==> c == s[i]
    ensures SameDigits(s[..i + 1], prev + [c])
  {
    var s1, t := s[..i + 1], prev + [c];
    forall k | 0 <= k < |t|
      ensures DigitAgreesAt(s1, t, k)
    {
      if k < i {
        assert DigitAgreesAt(s[..i], prev, k);
      }
    }
  }

  /** The removal counts one more kept character exactly after a non-digit,
      and a prefix never keeps more than the whole string. */
  lemma NonDigitsCountStep(s: string, i: nat)
    requires i < |s|
    ensures |NonDigits(s[..i + 1])| == |NonDigits(s[..i])| + (if IsDigit(s[i]) then 0 else 1)
    ensures |NonDigits(s[..i + 1])| <= |NonDigits(s)|
  {
    NonDigitsStep(s, i);
    NonDigitsPrefixShorter(s, i + 1);
  }

  /** One step of the reverseAlphabet loop keeps the removal of what was
      written a prefix of `letters` as long as the removal of what was read. */
  lemma PlaceStep(s: string, letters: string, i: nat, r: string, c: char)
    requires i < |s| && |NonDigits(s[..i])| <= |letters|
    requires NonDigits(r) == letters[..|NonDigits(s[..i])|]
    requires IsDigit(s[i]) ==> IsDigit(c)
    requires !IsDigit(s[i]) ==> !IsDigit(c) && |NonDigits(s[..i])| < |letters| && c == letters[|NonDigits(s[..i])|]
    ensures |NonDigits(s[..i + 1])| <= |letters|
    ensures NonDigits(r + [c]) == letters[..|NonDigits(s[..i + 1])|]
  {
    var index := |NonDigits(s[..i])|;
    NonDigitsStep(s, i);
    if IsDigit(s[i]) {
      NonDigitsSnocDigit(r, c);
      NonDigitsSnocDigit(s[..i], s[i]);
    } else {
      NonDigitsSnocLetter(r, c);
      NonDigitsSnocLetter(s[..i], s[i]);
      TakeOneMore(letters, index);
    }
  }

  lemma WholePrefix(s: string)
    ensures s[..|s|] == s
  {
  }

  /** The loop of reverseAlphabet: walk `s`, copying each digit and taking
      the next character of `letters` for every other position. */
  method PlaceLetters(s: string, letters: string) returns (r: string)
    requires |letters| == |NonDigits(s)|
    requires forall j :: 0 <= j < |letters| ==> !IsDigit(letters[j])
    ensures SameDigits(s, r) && NonDigits(r) == letters
  {
    r := "";
    var index := 0;
    var i := 0;
    while i < |s|
      invariant 0 <= i <= |s|
      invariant index == |NonDigits(s[..i])| <= |letters|
      invariant SameDigits(s[..i], r)
      invariant NonDigits(r) == letters[..index]
    {
      NonDigitsCountStep(s, i);
      if IsDigit(s[i]) {
        SameDigitsSnoc(s, i, r, s[i]);
        PlaceStep(s, letters, i, r, s[i]);
        r := r + [s[i]];
      } else {
        SameDigitsSnoc(s, i, r, letters[index]);
        PlaceStep(s, letters, i, r, letters[index]);
        r := r + [letters[index]];
        index := index + 1;
      }
      i := i + 1;
    }
    WholePrefix(s);
  }

  method ReverseAlphabet(s: string) returns (r: string)
    ensures LettersReversed(s, r)
  {
    var letters := Reverse(NonDigits(s));
    NonDigitsHasNoDigit(s);
    r := PlaceLetters(s, letters);
  }
}
