/** Score extraction and cleaning (partidas_padroes.py, `extrair_resultados`
    and the filtering steps of `tratar_arquivo_excel`).

    Each spreadsheet row carries a match label and one result cell whose text
    holds two blocks separated by a blank line: the full-time score first and
    the first-half score second. The table arrives most-recent-first and is
    reversed to oldest-first before anything else looks at it. */
module Extraction {
  import opened Wrappers
  import opened Text

  /** The label of a match (the `Partidas` column); opaque to the analysis. */
  type MatchId = string

  /** The blank line between the two score blocks. */
  const BlockSeparator: string := "\n\n"

  /** The cell text of a match with no result yet. */
  const NoResult: string := "?\n\n?"

  /** The data-entry alias for "other score" in the first-half column, and the label it becomes. */
  const OtherAlias: string := "oth"
  const OtherLabel: string := "9x9"

  /** The unknown-score marker. */
  const Unknown: string := "?"

  /** The two score columns of one row; `None` is pandas' missing value. */
  datatype Cells = Cells(firstHalf: Option<string>, fullTime: Option<string>)

  /** `resultado_split[1]` raises IndexError when the text has no blank line. */
  datatype ExtractError = MissingSecondBlock

  /** `extrair_resultados`: the full-time score is the block before the first
      blank line and the first-half score the block after it; the no-result
      placeholder gives two missing values. Text that is not the placeholder
      and has no blank line is an error. */
  function Extract(text: string): (r: Result<Cells, ExtractError>)
    ensures text == NoResult ==> r == Success(Cells(None, None))
    ensures text != NoResult ==> (r.Success? <==> Contains(text, BlockSeparator))
    ensures text != NoResult && r.Success? ==>
      && r.value.firstHalf.Some? && r.value.fullTime.Some?
      && var fullTime, firstHalf := r.value.fullTime.value, r.value.firstHalf.value;
      var start := |fullTime| + |BlockSeparator|;
      && !Contains(firstHalf, BlockSeparator)
      && !Contains(fullTime, BlockSeparator)
      && fullTime + BlockSeparator + firstHalf <= text
      && PieceAt(text, BlockSeparator, 0, |fullTime|)
      && PieceAt(text[start..], BlockSeparator, 0, |firstHalf|)
  {
    if text == NoResult then
      Success(Cells(None, None))
    else
      var parts := Split(text, BlockSeparator);
      SplitHasSecondPart(text, BlockSeparator);
      if |parts| < 2 then
        Failure(MissingSecondBlock)
      else
        SecondBlock(text);
        Success(Cells(Some(parts[1]), Some(parts[0])))
  }

  /** The first two parts of a text with a blank line: each is separator-free,
      the first runs up to the first blank line, and the second runs from
      there up to the next blank line or the end. */
  lemma SecondBlock(text: string)
    requires |Split(text, BlockSeparator)| >= 2
    ensures var parts := Split(text, BlockSeparator);
      var start := |parts[0]| + |BlockSeparator|;
      && !Contains(parts[0], BlockSeparator) && !Contains(parts[1], BlockSeparator)
      && parts[0] + BlockSeparator + parts[1] <= text
      && PieceAt(text, BlockSeparator, 0, |parts[0]|)
      && PieceAt(text[start..], BlockSeparator, 0, |parts[1]|)
  {
    var parts := Split(text, BlockSeparator);
    SplitPartsSeparatorFree(text, BlockSeparator);
    assert parts[1] in parts && parts[0] in parts;
    SecondBlockPieces(text, parts);
  }

  lemma SecondBlockPieces(text: string, parts: seq<string>)
    requires parts == Split(text, BlockSeparator) && |parts| >= 2
    ensures var start := |parts[0]| + |BlockSeparator|;
      && parts[0] + BlockSeparator + parts[1] <= text
      && PieceAt(text, BlockSeparator, 0, |parts[0]|)
      && PieceAt(text[start..], BlockSeparator, 0, |parts[1]|)
  {
    SplitFirstTwoPieces(text, BlockSeparator);
    TwoBlocksPrefix(text, parts[0], parts[1]);
  }

  lemma TwoBlocksPrefix(text: string, a: string, b: string)
    requires |a| + |BlockSeparator| <= |text|
    requires text[..|a|] == a && OccursAt(text, BlockSeparator, |a|)
    requires |b| <= |text[|a| + |BlockSeparator|..]| && text[|a| + |BlockSeparator|..][..|b|] == b
    ensures a + BlockSeparator + b <= text
  {
    var start := |a| + |BlockSeparator|;
    assert text[..start + |b|] == text[..|a|] + text[|a|..start] + text[start..][..|b|];
  }

  /** Extraction inverts the layout of the cell: full-time block, blank line,
      first-half block. The full-time block must not end in a newline (that
      newline would join the blank line and shift into the first-half block). */
  lemma ExtractTwoBlocks(fullTime: string, firstHalf: string)
    requires !Contains(fullTime + "\n", BlockSeparator)
    requires !Contains(firstHalf, BlockSeparator)
    ensures fullTime == Unknown && firstHalf == Unknown ==>
      Extract(fullTime + BlockSeparator + firstHalf) == Success(Cells(None, None))
    ensures !(fullTime == Unknown && firstHalf == Unknown) ==>
      Extract(fullTime + BlockSeparator + firstHalf) == Success(Cells(Some(firstHalf), Some(fullTime)))
  {
    var text := fullTime + BlockSeparator + firstHalf;
    assert BlockSeparator[..|BlockSeparator| - 1] == "\n";
    SplitTwoBlocks(fullTime, firstHalf, BlockSeparator);
    if text == NoResult {
      var parts := Split(text, BlockSeparator);
      assert parts == [fullTime, firstHalf];
      assert NoResult == Unknown + BlockSeparator + Unknown;
      SplitTwoBlocks(Unknown, Unknown, BlockSeparator);
    }
  }

  /** A full-time block that ends in a newline loses it to the first-half block. */
  lemma ExtractShiftsTrailingNewline()
    ensures Extract("2x1\n" + BlockSeparator + "1x0") == Success(Cells(Some("\n1x0"), Some("2x1")))
  {
    var text := "2x1\n" + BlockSeparator + "1x0";
    assert text == "2x1" + BlockSeparator + "\n1x0";
    assert !Contains("2x1\n", BlockSeparator) by {
      forall i | 0 <= i <= 4
        ensures !OccursAt("2x1\n", BlockSeparator, i)
      {
        if i + 2 <= 4 {
          assert "2x1\n"[i..i + 2][0] == "2x1\n"[i];
        }
      }
    }
    assert !Contains("\n1x0", BlockSeparator) by {
      forall i | 0 <= i <= 4
        ensures !OccursAt("\n1x0", BlockSeparator, i)
      {
        if i + 2 <= 4 {
          assert "\n1x0"[i..i + 2][1] == "\n1x0"[i + 1];
        }
      }
    }
    assert "2x1" + BlockSeparator[..|BlockSeparator| - 1] == "2x1\n";
    SplitTwoBlocks("2x1", "\n1x0", BlockSeparator);
  }

  // ---------------------------------------------------------------------
  // Rows and cleaning

  /** A spreadsheet row as read: the match label and the raw result text. */
  datatype RawRow = RawRow(id: MatchId, text: string)

  /** A row after extraction, before cleaning. */
  datatype Row = Row(id: MatchId, cells: Cells)

  /** A cleaned match record: both scores present. */
  datatype Record = Record(id: MatchId, firstHalf: string, fullTime: string)

  /** `sort_index(ascending=False)` followed by `reset_index`: the row order reversed. */
  function Reverse<T>(s: seq<T>): (r: seq<T>)
    ensures |r| == |s|
    ensures forall i :: 0 <= i < |s| ==> r[i] == s[|s| - 1 - i]
  {
    if s == [] then [] else Reverse(s[1..]) + [s[0]]
  }

  lemma ReverseAppend<T>(xs: seq<T>, ys: seq<T>)
    ensures Reverse(xs + ys) == Reverse(ys) + Reverse(xs)
  {
    var l, r := Reverse(xs + ys), Reverse(ys) + Reverse(xs);
    assert |l| == |r|;
    forall i | 0 <= i < |l|
      ensures l[i] == r[i]
    {
      if i < |ys| {
        assert (xs + ys)[|xs + ys| - 1 - i] == ys[|ys| - 1 - i];
      } else {
        assert (xs + ys)[|xs + ys| - 1 - i] == xs[|xs| - 1 - (i - |ys|)];
      }
    }
  }

  /** Extraction applied to every row (line 23); one malformed text fails the whole table. */
  function ExtractAll(rows: seq<RawRow>): (r: Result<seq<Row>, ExtractError>)
    ensures r.Success? <==> forall i :: 0 <= i < |rows| ==> Extract(rows[i].text).Success?
    ensures r.Success? ==>
      && |r.value| == |rows|
      && forall i :: 0 <= i < |rows| ==> r.value[i] == Row(rows[i].id, Extract(rows[i].text).value)
  {
    if rows == [] then
      Success([])
    else
      match Extract(rows[0].text)
      case Failure(e) => Failure(e)
      case Success(cells) =>
        match ExtractAll(rows[1..])
        case Failure(e) => Failure(e)
        case Success(rest) => Success([Row(rows[0].id, cells)] + rest)
  }

  /** Both halves of a table that extracts extract on their own. */
  lemma ExtractAllParts(xs: seq<RawRow>, ys: seq<RawRow>)
    requires ExtractAll(xs + ys).Success?
    ensures ExtractAll(xs).Success? && ExtractAll(ys).Success?
  {
    forall i | 0 <= i < |xs|
      ensures Extract(xs[i].text).Success?
    {
      assert (xs + ys)[i] == xs[i];
    }
    forall i | 0 <= i < |ys|
      ensures Extract(ys[i].text).Success?
    {
      assert (xs + ys)[|xs| + i] == ys[i];
    }
  }

  /** Extraction works row by row: it distributes over concatenation. */
  lemma ExtractAllAppend(xs: seq<RawRow>, ys: seq<RawRow>)
    requires ExtractAll(xs + ys).Success?
    ensures ExtractAll(xs).Success? && ExtractAll(ys).Success?
    ensures ExtractAll(xs + ys).value == ExtractAll(xs).value + ExtractAll(ys).value
  {
    ExtractAllParts(xs, ys);
    var l, r := ExtractAll(xs + ys).value, ExtractAll(xs).value + ExtractAll(ys).value;
    assert |l| == |r|;
    forall i | 0 <= i < |l|
      ensures l[i] == r[i]
    {
      if i < |xs| {
        assert (xs + ys)[i] == xs[i];
      } else {
        assert (xs + ys)[i] == ys[i - |xs|];
      }
    }
  }

  /** The first-half alias rewrite of line 26 (a whole-value replacement). */
  function Rename(firstHalf: string): (renamed: string)
    ensures renamed != OtherAlias
    ensures firstHalf == OtherAlias ==> renamed == OtherLabel
    ensures firstHalf != OtherAlias ==> renamed == firstHalf
  {
    if firstHalf == OtherAlias then OtherLabel else firstHalf
  }

  /** The row survives cleaning: both scores present (line 24), no `.` in
      either (line 25), and neither is `?` once the alias is rewritten (lines 26-27). */
  predicate Kept(c: Cells) {
    && c.firstHalf.Some? && c.fullTime.Some?
    && '.' !in c.firstHalf.value && '.' !in c.fullTime.value
    && Rename(c.firstHalf.value) != Unknown && c.fullTime.value != Unknown
  }

  /** The record a surviving row becomes: only the first-half score is rewritten. */
  function Normalise(row: Row): Record
    requires Kept(row.cells)
  {
    Record(row.id, Rename(row.cells.firstHalf.value), row.cells.fullTime.value)
  }

  /** What every cleaned record satisfies. */
  predicate Usable(r: Record) {
    && '.' !in r.firstHalf && '.' !in r.fullTime
    && r.firstHalf != Unknown && r.fullTime != Unknown
    && r.firstHalf != OtherAlias
  }

  /** Lines 24-27: drop incomplete, dotted and unknown rows, keep the order of the rest. */
  function Clean(rows: seq<Row>): (recs: seq<Record>)
    ensures |recs| <= |rows|
    ensures forall r :: r in recs ==> Usable(r)
  {
    if rows == [] then
      []
    else
      var head := if Kept(rows[0].cells) then [Normalise(rows[0])] else [];
      head + Clean(rows[1..])
  }

  /** Cleaning is an order-preserving filter: it distributes over concatenation. */
  lemma {:induction false} CleanAppend(xs: seq<Row>, ys: seq<Row>)
    ensures Clean(xs + ys) == Clean(xs) + Clean(ys)
  {
    if xs == [] {
      assert xs + ys == ys;
    } else {
      var h := if Kept(xs[0].cells) then [Normalise(xs[0])] else [];
      assert (xs + ys)[0] == xs[0];
      assert (xs + ys)[1..] == xs[1..] + ys;
      CleanAppend(xs[1..], ys);
      calc {
        Clean(xs + ys);
        h + Clean(xs[1..] + ys);
        h + (Clean(xs[1..]) + Clean(ys));
        (h + Clean(xs[1..])) + Clean(ys);
      }
    }
  }

  /** A record survives cleaning exactly when it is the normalised form of a kept row. */
  lemma {:induction false} CleanMembership(rows: seq<Row>, r: Record)
    ensures r in Clean(rows) <==>
      exists i :: 0 <= i < |rows| && Kept(rows[i].cells) && r == Normalise(rows[i])
  {
    if rows != [] {
      CleanMembership(rows[1..], r);
      if exists i :: 0 <= i < |rows[1..]| && Kept(rows[1..][i].cells) && r == Normalise(rows[1..][i]) {
        var i :| 0 <= i < |rows[1..]| && Kept(rows[1..][i].cells) && r == Normalise(rows[1..][i]);
        assert rows[i + 1] == rows[1..][i];
      }
      if exists i :: 0 <= i < |rows| && Kept(rows[i].cells) && r == Normalise(rows[i]) {
        var i :| 0 <= i < |rows| && Kept(rows[i].cells) && r == Normalise(rows[i]);
        if i > 0 {
          assert rows[1..][i - 1] == rows[i];
        }
      }
    }
  }

  /** The table as the analysis sees it: reversed to oldest-first, extracted and cleaned. */
  function Prepare(raw: seq<RawRow>): (r: Result<seq<Record>, ExtractError>)
    ensures r.Success? <==> forall i :: 0 <= i < |raw| ==> Extract(raw[i].text).Success?
    ensures r.Success? ==> |r.value| <= |raw| && forall x :: x in r.value ==> Usable(x)
  {
    var reversed := Reverse(raw);
    assert forall i :: 0 <= i < |raw| ==> raw[i] == reversed[|raw| - 1 - i];
    match ExtractAll(reversed)
    case Failure(e) => Failure(e)
    case Success(rows) => Success(Clean(rows))
  }

  /** Rows that come later in the input (older matches) come first in the
      prepared table: the input order is reversed, block by block. */
  lemma PrepareAppend(newer: seq<RawRow>, older: seq<RawRow>)
    requires Prepare(newer + older).Success?
    ensures Prepare(newer).Success? && Prepare(older).Success?
    ensures Prepare(newer + older).value == Prepare(older).value + Prepare(newer).value
  {
    ReverseAppend(newer, older);
    ExtractAllAppend(Reverse(older), Reverse(newer));
    CleanAppend(ExtractAll(Reverse(older)).value, ExtractAll(Reverse(newer)).value);
  }

  /** One row on its own: an error, nothing, or its normalised record. */
  lemma PrepareOne(row: RawRow)
    ensures Extract(row.text).Failure? ==> Prepare([row]).Failure?
    ensures Extract(row.text).Success? && Kept(Extract(row.text).value) ==>
      Prepare([row]) == Success([Normalise(Row(row.id, Extract(row.text).value))])
    ensures Extract(row.text).Success? && !Kept(Extract(row.text).value) ==>
      Prepare([row]) == Success([])
  {
    assert Reverse([row]) == [row];
    if Extract(row.text).Success? {
      var cells := Extract(row.text).value;
      assert ExtractAll([row]).value == [Row(row.id, cells)];
      var only := [Row(row.id, cells)];
      assert only[1..] == [];
      assert Clean(only) == (if Kept(cells) then [Normalise(only[0])] else []) + Clean([]);
      assert Prepare([row]) == Success(Clean(only));
      if Kept(cells) {
        assert Clean(only) == [Normalise(Row(row.id, cells))];
      } else {
        assert Clean(only) == [];
      }
    }
  }
}
