/** String operations the backend borrows from Python and from the database:
    prefix tests (`startswith`, `istartswith`), code-point ordering of names,
    `str(int)`, and `str.split` / `str.join`. */
module Text {

  import opened Common

  // ---------------------------------------------------------------------------
  // Prefixes and ASCII case folding

  predicate StartsWith(s: string, prefix: string)
  {
    |prefix| <= |s| && s[..|prefix|] == prefix
  }

  function LowerChar(c: char): char
  {
    if 'A' <= c <= 'Z' then (c as int + 32) as char else c
  }

  /** Folds the ASCII capitals of `s` to lower case, one character for one. */
  function Lower(s: string): (r: string)
    ensures |r| == |s|
    ensures forall i :: 0 <= i < |s| ==> r[i] == LowerChar(s[i])
  {
    if |s| == 0 then [] else [LowerChar(s[0])] + Lower(s[1..])
  }

  /** `istartswith`: a prefix test that ignores the case of letters. */
  predicate IStartsWith(s: string, prefix: string)
  {
    StartsWith(Lower(s), Lower(prefix))
  }

  /** A case-sensitive prefix is also a case-insensitive one. */
  lemma StartsWithImpliesIStartsWith(s: string, prefix: string)
    requires StartsWith(s, prefix)
    ensures IStartsWith(s, prefix)
  {
    assert Lower(s)[..|prefix|] == Lower(prefix) by {
      forall i | 0 <= i < |prefix|
        ensures Lower(s)[..|prefix|][i] == Lower(prefix)[i]
      {
        assert s[i] == s[..|prefix|][i];
      }
    }
  }

  lemma EmptyPrefix(s: string)
    ensures StartsWith(s, "") && IStartsWith(s, "")
  {
  }

  // ---------------------------------------------------------------------------
  // Code-point lexicographic order

  /** Strict lexicographic order on strings, comparing code points. */
  predicate Less(a: string, b: string)
    decreases |a|
  {
    if |a| == 0 then |b| > 0
    else if |b| == 0 then false
    else a[0] < b[0] || (a[0] == b[0] && Less(a[1..], b[1..]))
  }

  predicate LessEq(a: string, b: string)
  {
    a == b || Less(a, b)
  }

  lemma LessIrreflexive(a: string)
    ensures !Less(a, a)
    decreases |a|
  {
    if |a| > 0 {
      LessIrreflexive(a[1..]);
    }
  }

  lemma LessTransitive(a: string, b: string, c: string)
    requires Less(a, b) && Less(b, c)
    ensures Less(a, c)
    decreases |a|
  {
    if |a| > 0 && a[0] == b[0] && b[0] == c[0] {
      LessTransitive(a[1..], b[1..], c[1..]);
    }
  }

  lemma LessTrichotomy(a: string, b: string)
    ensures a == b || Less(a, b) || Less(b, a)
    decreases |a|
  {
    if |a| > 0 && |b| > 0 && a[0] == b[0] {
      LessTrichotomy(a[1..], b[1..]);
      if a[1..] == b[1..] {
        assert a == [a[0]] + a[1..] && b == [b[0]] + b[1..];
      }
    }
  }

  lemma LessAsymmetric(a: string, b: string)
    requires Less(a, b)
    ensures !Less(b, a)
  {
    if Less(b, a) {
      LessTransitive(a, b, a);
      LessIrreflexive(a);
    }
  }

  // ---------------------------------------------------------------------------
  // Decimal rendering of natural numbers, as Python's `str(int)` does it

  predicate IsDigit(c: char)
  {
    '0' <= c <= '9'
  }

  function DigitChar(d: nat): (c: char)
    requires d < 10
    ensures IsDigit(c)
  {
    ('0' as int + d) as char
  }

  function DigitValue(c: char): nat
    requires IsDigit(c)
  {
    c as int - '0' as int
  }

  /** The decimal digits of `n`, most significant first, without leading zeros. */
  function NatToString(n: nat): (r: string)
    ensures 1 <= |r|
    ensures forall i :: 0 <= i < |r| ==> IsDigit(r[i])
    ensures r[0] == '0' ==> n == 0
    decreases n
  {
    if n < 10 then [DigitChar(n)] else NatToString(n / 10) + [DigitChar(n % 10)]
  }

  /** The number a string of decimal digits denotes. */
  function DigitsValue(s: string): nat
    requires forall i :: 0 <= i < |s| ==> IsDigit(s[i])
  {
    if |s| == 0 then 0 else 10 * DigitsValue(s[..|s| - 1]) + DigitValue(s[|s| - 1])
  }

  /** Reading the rendered digits back gives the number that was rendered. */
  lemma {:induction false} NatToStringRoundTrip(n: nat)
    ensures DigitsValue(NatToString(n)) == n
    decreases n
  {
    var r := NatToString(n);
    if n >= 10 {
      NatToStringRoundTrip(n / 10);
      assert r[..|r| - 1] == NatToString(n / 10);
    }
  }

  // ---------------------------------------------------------------------------
  // Python's str.split(sep) and sep.join(parts)

  predicate OccursAt(s: string, sep: string, i: int)
  {
    0 <= i && i + |sep| <= |s| && s[i..i + |sep|] == sep
  }

  predicate Contains(s: string, sep: string)
  {
    exists i | 0 <= i <= |s| :: OccursAt(s, sep, i)
  }

  /** The first occurrence of `sep` in `s` at or after index `from`. */
  function FindFrom(s: string, sep: string, from: nat): (r: Option<nat>)
    requires |sep| > 0
    ensures r.Some? ==> from <= r.value && OccursAt(s, sep, r.value)
    ensures r.Some? ==> forall j :: from <= j < r.value ==> !OccursAt(s, sep, j)
    ensures r.None? ==> forall j :: from <= j ==> !OccursAt(s, sep, j)
    decreases |s| - from
  {
    if from + |sep| > |s| then None
    else if s[from..from + |sep|] == sep then Some(from)
    else FindFrom(s, sep, from + 1)
  }

  /** `s` has no character `c`. */
  predicate CharFree(s: string, c: char)
  {
    forall i :: 0 <= i < |s| ==> s[i] != c
  }

  /** A concatenation is free of `c` exactly when both parts are. */
  lemma CharFreeConcat(a: string, b: string, c: char)
    ensures CharFree(a + b, c) <==> CharFree(a, c) && CharFree(b, c)
  {
    forall i | 0 <= i < |a + b|
      ensures (a + b)[i] == if i < |a| then a[i] else b[i - |a|]
    {
    }
    assert forall i :: 0 <= i < |b| ==> (a + b)[|a| + i] == b[i];
  }

  /** A string free of `c` contains no occurrence of the one-character string `c`. */
  lemma CharFreeNotContains(s: string, c: char)
    requires CharFree(s, c)
    ensures !Contains(s, [c])
  {
    forall i | 0 <= i <= |s|
      ensures !OccursAt(s, [c], i)
    {
      if i + 1 <= |s| {
        assert s[i..i + 1][0] == s[i];
      }
    }
  }

  /** `s.split(sep)`: the pieces between the occurrences of `sep`, scanning left to right. */
  function Split(s: string, sep: string): (parts: seq<string>)
    requires |sep| > 0
    ensures 1 <= |parts|
    decreases |s|
  {
    match FindFrom(s, sep, 0)
    case None => [s]
    case Some(i) => [s[..i]] + Split(s[i + |sep|..], sep)
  }

  /** No piece of `s.split(sep)` contains `sep`. */
  lemma {:induction false} SplitPiecesAvoidSeparator(s: string, sep: string)
    requires |sep| > 0
    ensures forall k :: 0 <= k < |Split(s, sep)| ==> !Contains(Split(s, sep)[k], sep)
    decreases |s|
  {
    match FindFrom(s, sep, 0)
    case None =>
    case Some(i) =>
      var head := s[..i];
      var rest := s[i + |sep|..];
      assert !Contains(head, sep) by {
        forall j | 0 <= j <= |head| && OccursAt(head, sep, j)
          ensures false
        {
          assert s[j..j + |sep|] == head[j..j + |sep|];
          assert OccursAt(s, sep, j);
        }
      }
      SplitPiecesAvoidSeparator(rest, sep);
      assert Split(s, sep) == [head] + Split(rest, sep);
  }

  /** A string in which the first character of `sep` never occurs holds no `sep`. */
  lemma NoOccurrenceWithoutFirstChar(s: string, sep: string, j: int)
    requires |sep| > 0 && CharFree(s, sep[0])
    ensures !OccursAt(s, sep, j)
  {
  }

  /** Splitting a string in which `sep` does not occur gives the string alone. */
  lemma SplitWithoutSeparator(s: string, sep: string)
    requires |sep| > 0 && CharFree(s, sep[0])
    ensures Split(s, sep) == [s]
  {
    var f := FindFrom(s, sep, 0);
    if f.Some? {
      NoOccurrenceWithoutFirstChar(s, sep, f.value);
    }
  }

  /** Two pieces free of the separator's first character, joined by the
      separator, split back into those two pieces. */
  lemma SplitTwo(a: string, b: string, sep: string)
    requires |sep| > 0 && CharFree(a, sep[0]) && CharFree(b, sep[0])
    ensures Split(a + sep + b, sep) == [a, b]
  {
    var s := a + sep + b;
    assert OccursAt(s, sep, |a|) by {
      assert s[|a|..|a| + |sep|] == sep;
    }
    assert forall j :: 0 <= j < |a| ==> s[j] == a[j];
    assert FindFrom(s, sep, 0) == Some(|a|);
    assert s[|a| + |sep|..] == b;
    SplitWithoutSeparator(b, sep);
    SplitStep(s, sep, |a|);
    assert s[..|a|] == a;
  }

  /** `sep.join(parts)`. */
  function Join(parts: seq<string>, sep: string): string
  {
    if |parts| == 0 then ""
    else if |parts| == 1 then parts[0]
    else parts[0] + sep + Join(parts[1..], sep)
  }

  /** Joining the pieces of a split with the same separator gives the original string back. */
  lemma {:induction false} JoinSplit(s: string, sep: string)
    requires |sep| > 0
    ensures Join(Split(s, sep), sep) == s
    decreases |s|
  {
    var found := FindFrom(s, sep, 0);
    if found.Some? {
      var i := found.value;
      var rest := s[i + |sep|..];
      var tail := Split(rest, sep);
      JoinSplit(rest, sep);
      assert Split(s, sep) == [s[..i]] + tail;
      assert Join([s[..i]] + tail, sep) == s[..i] + sep + Join(tail, sep);
      assert s == s[..i] + sep + rest;
    }
  }

  /** With a one-character separator that none of the pieces contains,
      splitting the joined string gives the pieces back. */
  lemma {:induction false} SplitJoin(parts: seq<string>, sep: string)
    requires |sep| == 1 && 1 <= |parts|
    requires forall k :: 0 <= k < |parts| ==> !Contains(parts[k], sep)
    ensures Split(Join(parts, sep), sep) == parts
    decreases |parts|
  {
    if |parts| > 1 {
      var p, rest := parts[0], Join(parts[1..], sep);
      assert Join(parts, sep) == p + sep + rest;
      SplitAfterFirst(p, sep, rest);
      SplitJoin(parts[1..], sep);
      assert parts == [p] + parts[1..];
    }
  }

  /** A one-character separator after a piece free of it is the first one, and
      the split goes on with what follows it. */
  lemma SplitAfterFirst(p: string, sep: string, rest: string)
    requires |sep| == 1 && !Contains(p, sep)
    ensures Split(p + sep + rest, sep) == [p] + Split(rest, sep)
  {
    var s := p + sep + rest;
    assert OccursAt(s, sep, |p|) by {
      assert s[|p|..|p| + 1] == sep;
    }
    forall j | 0 <= j < |p|
      ensures !OccursAt(s, sep, j)
    {
      if OccursAt(s, sep, j) {
        assert p[j..j + 1] == s[j..j + 1];
        assert OccursAt(p, sep, j);
      }
    }
    assert FindFrom(s, sep, 0) == Some(|p|);
    SplitStep(s, sep, |p|);
    assert s[|p| + 1..] == rest;
    assert s[..|p|] == p;
  }

  /** The last piece of `s.split(sep)` is what follows the last occurrence of `sep`:
      it ends `s`, it contains no `sep`, and unless it is all of `s` it is
      preceded by an occurrence of `sep`. */
  function LastPiece(s: string, sep: string): (last: string)
    requires |sep| > 0
    ensures |last| <= |s| && s[|s| - |last|..] == last
    ensures !Contains(last, sep)
    ensures |Split(s, sep)| == 1 ==> last == s
    ensures |Split(s, sep)| > 1 ==> OccursAt(s, sep, |s| - |last| - |sep|)
  {
    var parts := Split(s, sep);
    LastPieceLemma(s, sep);
    SplitPiecesAvoidSeparator(s, sep);
    parts[|parts| - 1]
  }

  /** `last`, the final piece of `parts`, ends `s`; it is all of `s` when there is
      one piece, and is preceded by an occurrence of `sep` otherwise. */
  predicate EndsWithLastPiece(s: string, sep: string, parts: seq<string>)
    requires 1 <= |parts|
  {
    var last := parts[|parts| - 1];
    && |last| <= |s| && s[|s| - |last|..] == last
    && (|parts| == 1 ==> last == s)
    && (|parts| > 1 ==> OccursAt(s, sep, |s| - |last| - |sep|))
  }

  lemma {:induction false} LastPieceLemma(s: string, sep: string)
    requires |sep| > 0
    ensures EndsWithLastPiece(s, sep, Split(s, sep))
    decreases |s|
  {
    var found := FindFrom(s, sep, 0);
    if found.Some? {
      var i := found.value;
      var rest := s[i + |sep|..];
      LastPieceLemma(rest, sep);
      SplitStep(s, sep, i);
      LastPieceStep(s, sep, i, Split(rest, sep));
    }
  }

  lemma SplitStep(s: string, sep: string, i: nat)
    requires |sep| > 0 && FindFrom(s, sep, 0) == Some(i)
    ensures Split(s, sep) == [s[..i]] + Split(s[i + |sep|..], sep)
  {
    match FindFrom(s, sep, 0)
    case Some(j) =>
      assert j == i;
  }

  /** One step of LastPieceLemma: the facts about the pieces of what follows the
      first separator carry over to `s`. */
  lemma {:induction false} LastPieceStep(s: string, sep: string, i: nat, tail: seq<string>)
    requires |sep| > 0 && OccursAt(s, sep, i) && 1 <= |tail|
    requires EndsWithLastPiece(s[i + |sep|..], sep, tail)
    ensures EndsWithLastPiece(s, sep, [s[..i]] + tail)
  {
    var rest := s[i + |sep|..];
    var last := tail[|tail| - 1];
    assert ([s[..i]] + tail)[|tail|] == last;
    assert s[|s| - |last|..] == rest[|rest| - |last|..];
    if |tail| > 1 {
      var k := |rest| - |last| - |sep|;
      assert s[i + |sep| + k..i + |sep| + k + |sep|] == rest[k..k + |sep|];
    }
  }

  // ---------------------------------------------------------------------------
  // Whitespace trimming

  /** Python's `str.isspace` on the ASCII range: space, tab, line feed,
      vertical tab, form feed, carriage return and the separators 0x1C to 0x1F. */
  predicate IsSpace(c: char)
  {
    c == ' ' || 9 <= c as int <= 13 || 28 <= c as int <= 31
  }

  predicate AllSpace(s: string)
  {
    forall i :: 0 <= i < |s| ==> IsSpace(s[i])
  }

  /** The number of spaces `str.lstrip()` removes. */
  function SpacesBefore(s: string): (n: nat)
    ensures n <= |s|
    ensures forall i :: 0 <= i < n ==> IsSpace(s[i])
    ensures n < |s| ==> !IsSpace(s[n])
  {
    if |s| > 0 && IsSpace(s[0]) then 1 + SpacesBefore(s[1..]) else 0
  }

  /** The number of spaces `str.rstrip()` removes. */
  function SpacesAfter(s: string): (n: nat)
    ensures n <= |s|
    ensures forall i :: |s| - n <= i < |s| ==> IsSpace(s[i])
    ensures n < |s| ==> !IsSpace(s[|s| - 1 - n])
  {
    if |s| > 0 && IsSpace(s[|s| - 1]) then 1 + SpacesAfter(s[..|s| - 1]) else 0
  }

  /** `str.strip()`, which DRF's `trim_whitespace` applies to character fields:
      the result neither starts nor ends with a space. */
  function Trim(s: string): (r: string)
    ensures |r| <= |s|
    ensures |r| > 0 ==> !IsSpace(r[0]) && !IsSpace(r[|r| - 1])
  {
    var a := SpacesBefore(s);
    s[a..|s| - SpacesAfter(s[a..])]
  }

  /** `s` is a run of spaces, then its trimmed value, then a run of spaces. */
  lemma TrimShape(s: string)
    ensures var a := SpacesBefore(s);
      && a + |Trim(s)| <= |s| && Trim(s) == s[a..a + |Trim(s)|]
      && (forall i :: 0 <= i < a ==> IsSpace(s[i]))
      && (forall i :: a + |Trim(s)| <= i < |s| ==> IsSpace(s[i]))
  {
    var a := SpacesBefore(s);
    var t := s[a..];
    var b := SpacesAfter(t);
    assert Trim(s) == s[a..|s| - b];
    forall i | |s| - b <= i < |s| ensures IsSpace(s[i]) {
      assert s[i] == t[i - a];
    }
  }

  /** A value trims to nothing exactly when it is all spaces. */
  lemma TrimEmptyIffAllSpace(s: string)
    ensures Trim(s) == [] <==> AllSpace(s)
  {
    TrimShape(s);
    if Trim(s) != [] {
      assert s[SpacesBefore(s)] == Trim(s)[0];
    }
  }

  /** Trimming twice trims nothing more. */
  lemma TrimIdempotent(s: string)
    ensures Trim(Trim(s)) == Trim(s)
  {
    var t := Trim(s);
    if |t| > 0 {
      assert SpacesBefore(t) == 0;
      assert t[0..] == t;
    }
  }
}
