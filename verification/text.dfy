/** String helpers with Python's meaning: `str.split` with a non-empty
    separator, and the decimal digits that `int()` reads and `str()` writes. */
module Text {

  /** `sep` occurs in `s` starting at index `i`. */
  predicate OccursAt(s: string, sep: string, i: int) {
    0 <= i && i + |sep| <= |s| && s[i..i + |sep|] == sep
  }

  /** `sep in s`, for a separator string. */
  predicate Contains(s: string, sep: string) {
    exists i :: 0 <= i <= |s| && OccursAt(s, sep, i)
  }

  /** Python's `s.split(sep)` for a non-empty `sep`: the string is scanned from
      the left and cut at every occurrence of `sep` that does not overlap an
      earlier cut. There is always at least one part. */
  function Split(s: string, sep: string): (parts: seq<string>)
    requires |sep| > 0
    ensures |parts| >= 1
    decreases |s|
  {
    if |sep| <= |s| && s[..|sep|] == sep then
      [""] + Split(s[|sep|..], sep)
    else if |s| == 0 then
      [""]
    else
      var rest := Split(s[1..], sep);
      [[s[0]] + rest[0]] + rest[1..]
  }

  /** The first part of a split is a prefix of the text, and the whole text
      when there is no other part. */
  lemma {:induction false} SplitFirstIsPrefix(s: string, sep: string)
    requires |sep| > 0
    ensures var parts := Split(s, sep);
      && |parts[0]| <= |s| && s[..|parts[0]|] == parts[0]
      && (|parts| == 1 ==> parts[0] == s)
    decreases |s|
  {
    if |sep| <= |s| && s[..|sep|] == sep {
    } else if |s| != 0 {
      SplitFirstIsPrefix(s[1..], sep);
      assert [s[0]] + s[1..] == s;
    }
  }

  /** `s[from..to]` is a piece that a split of `s` yields when it resumes at
      `from`: no separator starts inside it, and it stops at the end of `s`
      or at the next separator. */
  predicate PieceAt(s: string, sep: string, from: int, to: int) {
    && 0 <= from <= to <= |s|
    && (forall i :: from <= i < to ==> !OccursAt(s, sep, i))
    && (to == |s| || OccursAt(s, sep, to))
  }

  /** `parts` starts the way a split of `s` does: its first part is the text
      up to the first separator, and that separator follows it when there are
      more parts. */
  predicate FirstPiece(s: string, sep: string, parts: seq<string>) {
    && |parts| >= 1
    && PieceAt(s, sep, 0, |parts[0]|)
    && (|parts| >= 2 ==> OccursAt(s, sep, |parts[0]|))
  }

  /** The first part of a split is the text up to the first separator, or the
      whole text when there is none. */
  lemma SplitFirstPiece(s: string, sep: string, parts: seq<string>)
    requires |sep| > 0 && parts == Split(s, sep)
    ensures PieceAt(s, sep, 0, |parts[0]|)
    ensures |parts| >= 2 ==> OccursAt(s, sep, |parts[0]|)
  {
    SplitFirstPieceFacts(s, sep);
  }

  /** The first-piece facts of `SplitFirstPiece`, by induction on the text. */
  lemma {:induction false} SplitFirstPieceFacts(s: string, sep: string)
    requires |sep| > 0
    ensures FirstPiece(s, sep, Split(s, sep))
    decreases |s|
  {
    if |sep| <= |s| && s[..|sep|] == sep {
      assert Split(s, sep) == [""] + Split(s[|sep|..], sep);
      assert OccursAt(s, sep, 0);
    } else if |s| != 0 {
      var rest := Split(s[1..], sep);
      SplitFirstPieceFacts(s[1..], sep);
      assert Split(s, sep) == [[s[0]] + rest[0]] + rest[1..];
      FirstPieceStep(s, sep, rest);
    }
  }

  /** Putting a character that starts no separator in front of a string
      extends its first piece by that character. */
  lemma FirstPieceStep(s: string, sep: string, rest: seq<string>)
    requires |s| != 0 && !OccursAt(s, sep, 0)
    requires FirstPiece(s[1..], sep, rest)
    ensures FirstPiece(s, sep, [[s[0]] + rest[0]] + rest[1..])
  {
    PieceShift(s, sep, 1, |rest[0]|);
    PieceExtendLeft(s, sep, 0, |rest[0]| + 1);
    if |rest| >= 2 {
      OccursShift(s, sep, 1, |rest[0]|);
    }
  }

  /** When a split has more than one part, splitting what follows the first
      separator yields the remaining parts. */
  lemma {:induction false} SplitAfterFirst(s: string, sep: string)
    requires |sep| > 0
    ensures var parts := Split(s, sep);
      |parts| >= 2 ==> |parts[0]| + |sep| <= |s| && Split(s[|parts[0]| + |sep|..], sep) == parts[1..]
    decreases |s|
  {
    if |sep| <= |s| && s[..|sep|] == sep {
      assert Split(s, sep) == [""] + Split(s[|sep|..], sep);
    } else if |s| != 0 {
      var rest := Split(s[1..], sep);
      var parts := Split(s, sep);
      assert parts == [[s[0]] + rest[0]] + rest[1..];
      if |rest| >= 2 {
        var k := |rest[0]| + |sep|;
        assert k <= |s[1..]| && Split(s[1..][k..], sep) == rest[1..] by {
          SplitAfterFirst(s[1..], sep);
        }
        assert s[1..][k..] == s[k + 1..];
        assert |parts[0]| + |sep| == k + 1 && parts[1..] == rest[1..];
      }
    }
  }

  /** When a split has a second part, that part is the first piece of the
      text that follows the first separator. */
  lemma SplitFirstTwoPieces(s: string, sep: string)
    requires |sep| > 0 && |Split(s, sep)| >= 2
    ensures var parts := Split(s, sep);
      var start := |parts[0]| + |sep|;
      && PieceAt(s, sep, 0, |parts[0]|)
      && OccursAt(s, sep, |parts[0]|)
      && PieceAt(s[start..], sep, 0, |parts[1]|)
      && s[..|parts[0]|] == parts[0]
      && s[start..][..|parts[1]|] == parts[1]
  {
    var parts := Split(s, sep);
    var start := |parts[0]| + |sep|;
    assert PieceAt(s, sep, 0, |parts[0]|) && OccursAt(s, sep, |parts[0]|) && s[..|parts[0]|] == parts[0] by {
      SplitFirstPiece(s, sep, parts);
      SplitFirstIsPrefix(s, sep);
    }
    assert Split(s[start..], sep) == parts[1..] by {
      SplitAfterFirst(s, sep);
    }
    assert PieceAt(s[start..], sep, 0, |parts[1]|) && s[start..][..|parts[1]|] == parts[1] by {
      SplitFirstPiece(s[start..], sep, parts[1..]);
      SplitFirstIsPrefix(s[start..], sep);
    }
  }

  /** An occurrence in a suffix is an occurrence in the whole string, shifted. */
  lemma OccursShift(s: string, sep: string, start: nat, i: nat)
    requires start <= |s|
    ensures OccursAt(s, sep, start + i) <==> OccursAt(s[start..], sep, i)
  {
    if start + i + |sep| <= |s| {
      assert s[start + i..start + i + |sep|] == s[start..][i..i + |sep|];
    }
  }

  /** A piece can start one character earlier when no separator starts there. */
  lemma PieceExtendLeft(s: string, sep: string, from: nat, to: int)
    requires from < to && PieceAt(s, sep, from + 1, to) && !OccursAt(s, sep, from)
    ensures PieceAt(s, sep, from, to)
  {
  }

  /** A piece of a suffix is a piece of the whole string, shifted by the suffix's start. */
  lemma PieceShift(s: string, sep: string, start: nat, len: nat)
    requires start <= |s|
    requires PieceAt(s[start..], sep, 0, len)
    ensures PieceAt(s, sep, start, start + len)
  {
    forall i | start <= i <= start + len
      ensures OccursAt(s, sep, i) <==> OccursAt(s[start..], sep, i - start)
    {
      OccursShift(s, sep, start, i - start);
    }
  }

  /** Python's `sep.join(parts)`. */
  function Join(parts: seq<string>, sep: string): string
    requires |parts| >= 1
  {
    if |parts| == 1 then parts[0] else parts[0] + sep + Join(parts[1..], sep)
  }

  lemma JoinConsHead(c: char, p: string, ps: seq<string>, sep: string)
    ensures Join([[c] + p] + ps, sep) == [c] + Join([p] + ps, sep)
  {
    var a := [[c] + p] + ps;
    var b := [p] + ps;
    if |ps| > 0 {
      assert a[1..] == ps && b[1..] == ps;
    }
  }

  /** Joining the parts of a split with the same separator gives back the
      original string: splitting loses nothing. */
  lemma {:induction false} JoinSplit(s: string, sep: string)
    requires |sep| > 0
    ensures Join(Split(s, sep), sep) == s
    decreases |s|
  {
    if |sep| <= |s| && s[..|sep|] == sep {
      var rest := Split(s[|sep|..], sep);
      JoinSplit(s[|sep|..], sep);
      JoinAfterEmpty(rest, sep);
      assert Split(s, sep) == [""] + rest;
      assert s == s[..|sep|] + s[|sep|..];
    } else if |s| != 0 {
      var rest := Split(s[1..], sep);
      JoinSplit(s[1..], sep);
      JoinConsHead(s[0], rest[0], rest[1..], sep);
      assert Split(s, sep) == [[s[0]] + rest[0]] + rest[1..];
      assert [rest[0]] + rest[1..] == rest;
      assert s == [s[0]] + s[1..];
    }
  }

  lemma JoinAfterEmpty(parts: seq<string>, sep: string)
    requires |parts| >= 1
    ensures Join([""] + parts, sep) == sep + Join(parts, sep)
  {
    assert ([""] + parts)[1..] == parts;
  }

  /** The first part of a join is a prefix of the joined string. */
  lemma FirstPartIsPrefix(parts: seq<string>, sep: string)
    requires |parts| >= 1
    ensures |parts[0]| <= |Join(parts, sep)|
    ensures Join(parts, sep)[..|parts[0]|] == parts[0]
  {
  }

  /** No part of a split contains the separator. */
  lemma {:induction false} SplitPartsSeparatorFree(s: string, sep: string)
    requires |sep| > 0
    ensures forall p :: p in Split(s, sep) ==> !Contains(p, sep)
    decreases |s|
  {
    if |sep| <= |s| && s[..|sep|] == sep {
      SplitPartsSeparatorFree(s[|sep|..], sep);
      assert forall i :: !OccursAt("", sep, i);
    } else if |s| == 0 {
      assert forall i :: !OccursAt("", sep, i);
    } else {
      var rest := Split(s[1..], sep);
      SplitPartsSeparatorFree(s[1..], sep);
      JoinSplit(s[1..], sep);
      FirstPartIsPrefix(rest, sep);
      var head := [s[0]] + rest[0];
      assert s[1..][..|rest[0]|] == rest[0];
      assert head == s[..|head|];
      assert rest[0] in rest;
      forall i | 0 <= i <= |head|
        ensures !OccursAt(head, sep, i)
      {
        if i == 0 {
          if |sep| <= |head| {
            assert head[0..0 + |sep|] == s[..|sep|];
          }
        } else if i + |sep| <= |head| {
          assert head[i..i + |sep|] == rest[0][i - 1..i - 1 + |sep|];
          assert !OccursAt(rest[0], sep, i - 1);
        }
      }
    }
  }

  /** A split yields two or more parts exactly when the separator occurs. */
  lemma SplitHasSecondPart(s: string, sep: string)
    requires |sep| > 0
    ensures |Split(s, sep)| >= 2 <==> Contains(s, sep)
  {
    var parts := Split(s, sep);
    JoinSplit(s, sep);
    SplitPartsSeparatorFree(s, sep);
    if |parts| >= 2 {
      assert s == parts[0] + sep + Join(parts[1..], sep);
      assert OccursAt(s, sep, |parts[0]|);
    } else {
      assert s == parts[0];
      assert parts[0] in parts;
    }
  }

  /** A string without the separator splits into itself alone. */
  lemma {:induction false} SplitSeparatorFree(b: string, sep: string)
    requires |sep| > 0
    requires !Contains(b, sep)
    ensures Split(b, sep) == [b]
    decreases |b|
  {
    if |b| != 0 {
      assert !OccursAt(b, sep, 0);
      forall i | 0 <= i <= |b[1..]|
        ensures !OccursAt(b[1..], sep, i)
      {
        if i + |sep| <= |b[1..]| {
          assert b[1..][i..i + |sep|] == b[i + 1..i + 1 + |sep|];
          assert !OccursAt(b, sep, i + 1);
        }
      }
      SplitSeparatorFree(b[1..], sep);
      assert [b[0]] + b[1..] == b;
    }
  }

  /** Split undoes a join of two blocks, provided the first block cannot lend
      its tail to a separator (`a + sep` minus the last character of `sep` is
      separator-free) and the second block is separator-free. */
  lemma {:induction false} SplitTwoBlocks(a: string, b: string, sep: string)
    requires |sep| > 0
    requires !Contains(a + sep[..|sep| - 1], sep)
    requires !Contains(b, sep)
    ensures Split(a + sep + b, sep) == [a, b]
    decreases |a|
  {
    var s := a + sep + b;
    if |a| == 0 {
      assert s[..|sep|] == sep;
      assert s[|sep|..] == b;
      SplitSeparatorFree(b, sep);
    } else {
      var t := a + sep[..|sep| - 1];
      assert !OccursAt(t, sep, 0);
      assert t[0..0 + |sep|] == s[..|sep|];
      var a' := a[1..];
      var t' := a' + sep[..|sep| - 1];
      assert t' == t[1..];
      forall i | 0 <= i <= |t'|
        ensures !OccursAt(t', sep, i)
      {
        if i + |sep| <= |t'| {
          assert t'[i..i + |sep|] == t[i + 1..i + 1 + |sep|];
          assert !OccursAt(t, sep, i + 1);
        }
      }
      SplitTwoBlocks(a', b, sep);
      assert s[1..] == a' + sep + b;
      assert [s[0]] + a' == a;
    }
  }

  // ---------------------------------------------------------------------
  // Decimal numerals

  predicate IsDigit(c: char) {
    '0' <= c <= '9'
  }

  predicate AllDigits(s: string) {
    forall i :: 0 <= i < |s| ==> IsDigit(s[i])
  }

  function DigitChar(d: nat): (c: char)
    requires d < 10
    ensures IsDigit(c)
  {
    ('0' as int + d) as char
  }

  function DigitValue(c: char): (d: nat)
    requires IsDigit(c)
    ensures d < 10
  {
    (c as int - '0' as int) as nat
  }

  /** Python's `str(n)` for a non-negative integer. */
  function ShowNat(n: nat): (s: string)
    ensures |s| >= 1
    ensures AllDigits(s)
    ensures n > 0 ==> s[0] != '0'
    decreases n
  {
    if n < 10 then [DigitChar(n)] else ShowNat(n / 10) + [DigitChar(n % 10)]
  }

  /** Python's `int(s)` on a string of ASCII decimal digits (leading zeros allowed). */
  function ParseNat(s: string): (v: nat)
    requires AllDigits(s)
    ensures v < Pow10(|s|)
  {
    if |s| == 0 then 0 else 10 * ParseNat(s[..|s| - 1]) + DigitValue(s[|s| - 1])
  }

  /** `10 ** k`. */
  function Pow10(k: nat): (p: nat)
    ensures p >= 1
  {
    if k == 0 then 1 else 10 * Pow10(k - 1)
  }

  /** Reading back a written number gives the number. */
  lemma {:induction false} ParseShowNat(n: nat)
    ensures ParseNat(ShowNat(n)) == n
    decreases n
  {
    var s := ShowNat(n);
    if n >= 10 {
      ParseShowNat(n / 10);
      assert s[..|s| - 1] == ShowNat(n / 10);
    }
  }

  /** A numeral never contains the letter `x`. */
  lemma DigitsHaveNoX(s: string)
    requires AllDigits(s)
    ensures !Contains(s, "x")
  {
    forall i | 0 <= i <= |s|
      ensures !OccursAt(s, "x", i)
    {
      if i + 1 <= |s| {
        assert s[i..i + 1][0] == s[i];
      }
    }
  }
}
