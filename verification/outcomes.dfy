/** The per-instance outcome classifier and the per-row fold
    (partidas_padroes.py, the loop body at lines 105-141).

    One instance is an ordered list of full-time scores, one per window
    position. Walking it, the first match where both teams scored counts as
    "AM" (ambas marcam) at its position, and that same match is also put in
    exactly one goal band: Over 1.5, Over 2.5 or Over 3.5. The first match
    where some side scored nothing counts as "AN" at its position. Each
    instance then adds one to each row total whose flag it raised. */
module Outcomes {
  import opened Wrappers
  import opened Text

  /** A full-time score "HxA". */
  datatype Score = Score(home: nat, away: nat)

  /** The text of a score, as the spreadsheet writes it. */
  function ShowScore(s: Score): string {
    ShowNat(s.home) + "x" + ShowNat(s.away)
  }

  /** Lines 113-115: `val.split('x')` must give exactly two parts and `int()`
      must accept both. Only plain ASCII digits are read. */
  function ParseScore(text: string): (r: Option<Score>)
    ensures !Contains(text, "x") ==> r == None
  {
    var parts := Split(text, "x");
    SplitHasSecondPart(text, "x");
    if |parts| == 2 && |parts[0]| > 0 && |parts[1]| > 0 && AllDigits(parts[0]) && AllDigits(parts[1]) then
      Some(Score(ParseNat(parts[0]), ParseNat(parts[1])))
    else
      None
  }

  /** Reading back a written score gives the score. */
  lemma ParseShowScore(s: Score)
    ensures ParseScore(ShowScore(s)) == Some(s)
  {
    var h, a := ShowNat(s.home), ShowNat(s.away);
    DigitsHaveNoX(h);
    DigitsHaveNoX(a);
    assert "x"[..|"x"| - 1] == "";
    assert h + "" == h;
    SplitTwoBlocks(h, a, "x");
    ParseShowNat(s.home);
    ParseShowNat(s.away);
  }

  // ---------------------------------------------------------------------
  // One position

  /** Both teams scored. */
  predicate BothScored(s: Score) {
    s.home >= 1 && s.away >= 1
  }

  /** Some side scored nothing. */
  predicate Blank(s: Score) {
    s.home < 1 || s.away < 1
  }

  function Total(s: Score): nat {
    s.home + s.away
  }

  /** The five flags (or the five per-position firings) of one instance, in
      the report's column order. */
  datatype Marks = Marks(over15: bool, over25: bool, over35: bool, am: bool, an: bool)

  const Unmarked: Marks := Marks(false, false, false, false, false)

  function Either(a: Marks, b: Marks): Marks {
    Marks(a.over15 || b.over15, a.over25 || b.over25, a.over35 || b.over35, a.am || b.am, a.an || b.an)
  }

  /** A goal-band flag is only ever raised together with the AM flag. */
  predicate Consistent(found: Marks) {
    (found.over15 || found.over25 || found.over35) ==> found.am
  }

  /** Lines 117-135: what fires at one position, given the flags raised so far.
      The comparisons with 1.5, 2.5 and 3.5 are written doubled, exactly. */
  function Visit(found: Marks, s: Score): (fired: Marks)
    ensures fired.am <==> !found.am && BothScored(s)
    ensures fired.an <==> !found.an && Blank(s)
    ensures Consistent(found) ==>
      && (fired.over15 <==> fired.am && Total(s) == 2)
      && (fired.over25 <==> fired.am && Total(s) == 3)
      && (fired.over35 <==> fired.am && Total(s) >= 4)
  {
    var total := s.home + s.away;
    var am := !found.am && s.home >= 1 && s.away >= 1;
    var over15 := am && 2 * total > 3 && 2 * total < 5;
    var over25 := am && 2 * total > 5 && !(found.over15 || over15) && 2 * total < 7;
    var over35 := am && 2 * total > 7 && !(found.over15 || over15) && !(found.over25 || over25);
    var an := !found.an && (s.home < 1 || s.away < 1);
    Marks(over15, over25, over35, am, an)
  }

  // ---------------------------------------------------------------------
  // One instance

  /** The per-position firings of an instance and the flags at its end. */
  datatype Walk = Walk(fired: seq<Marks>, found: Marks)

  /** Lines 112-135: the positions visited in order, flags carried along. */
  function WalkFrom(found: Marks, inst: seq<Score>): (w: Walk)
    ensures |w.fired| == |inst|
    decreases |inst|
  {
    if inst == [] then
      Walk([], found)
    else
      var f := Visit(found, inst[0]);
      var rest := WalkFrom(Either(found, f), inst[1..]);
      Walk([f] + rest.fired, rest.found)
  }

  /** Lines 106-135: an instance starts with every flag lowered. At its end
      the AM flag is raised exactly when both teams scored in some match, the
      AN flag exactly when some side failed to score in some match, and a
      goal-band flag only together with AM. */
  function Classify(inst: seq<Score>): (w: Walk)
    ensures |w.fired| == |inst|
    ensures w.found.am <==> HasBoth(inst)
    ensures w.found.an <==> HasBlank(inst)
    ensures Consistent(w.found)
  {
    WalkFiresAm(Unmarked, inst);
    WalkFiresAn(Unmarked, inst);
    WalkFiresOver(Unmarked, inst);
    WalkFrom(Unmarked, inst)
  }

  /** Position `i` holds the first match where both teams scored. */
  predicate FirstBothAt(inst: seq<Score>, i: int) {
    0 <= i < |inst| && BothScored(inst[i]) && forall j :: 0 <= j < i ==> !BothScored(inst[j])
  }

  /** Position `i` holds the first match where some side scored nothing. */
  predicate FirstBlankAt(inst: seq<Score>, i: int) {
    0 <= i < |inst| && Blank(inst[i]) && forall j :: 0 <= j < i ==> !Blank(inst[j])
  }

  lemma FirstShift(inst: seq<Score>, i: int)
    requires 0 < i < |inst|
    ensures FirstBothAt(inst, i) <==> !BothScored(inst[0]) && FirstBothAt(inst[1..], i - 1)
    ensures FirstBlankAt(inst, i) <==> !Blank(inst[0]) && FirstBlankAt(inst[1..], i - 1)
  {
    var tail := inst[1..];
    assert forall j :: 0 <= j < i - 1 ==> tail[j] == inst[j + 1];
    if !BothScored(inst[0]) && FirstBothAt(tail, i - 1) {
      forall j | 0 <= j < i
        ensures !BothScored(inst[j])
      {
        if j > 0 {
          assert inst[j] == tail[j - 1];
        }
      }
    }
    if !Blank(inst[0]) && FirstBlankAt(tail, i - 1) {
      forall j | 0 <= j < i
        ensures !Blank(inst[j])
      {
        if j > 0 {
          assert inst[j] == tail[j - 1];
        }
      }
    }
  }

  /** AM fires at most once: exactly at the first match where both teams
      scored, and only if it had not fired before the walk started. */
  lemma {:induction false} WalkFiresAm(found: Marks, inst: seq<Score>)
    ensures forall i :: 0 <= i < |inst| ==>
      (WalkFrom(found, inst).fired[i].am <==> !found.am && FirstBothAt(inst, i))
    ensures WalkFrom(found, inst).found.am <==>
      found.am || exists i :: 0 <= i < |inst| && BothScored(inst[i])
    decreases |inst|
  {
    if inst != [] {
      var w := WalkFrom(found, inst);
      var f := Visit(found, inst[0]);
      var tail := inst[1..];
      WalkFiresAm(Either(found, f), tail);
      forall i | 0 < i < |inst|
        ensures w.fired[i].am <==> !found.am && FirstBothAt(inst, i)
      {
        FirstShift(inst, i);
        assert w.fired[i] == WalkFrom(Either(found, f), tail).fired[i - 1];
      }
      if exists i :: 0 <= i < |inst| && BothScored(inst[i]) {
        var i :| 0 <= i < |inst| && BothScored(inst[i]);
        if i > 0 {
          assert tail[i - 1] == inst[i];
        }
      }
      if exists i :: 0 <= i < |tail| && BothScored(tail[i]) {
        var i :| 0 <= i < |tail| && BothScored(tail[i]);
        assert inst[i + 1] == tail[i];
      }
    }
  }

  /** AN fires at most once: exactly at the first match where some side
      scored nothing, and only if it had not fired before the walk started. */
  lemma {:induction false} WalkFiresAn(found: Marks, inst: seq<Score>)
    ensures forall i :: 0 <= i < |inst| ==>
      (WalkFrom(found, inst).fired[i].an <==> !found.an && FirstBlankAt(inst, i))
    ensures WalkFrom(found, inst).found.an <==>
      found.an || exists i :: 0 <= i < |inst| && Blank(inst[i])
    decreases |inst|
  {
    if inst != [] {
      var w := WalkFrom(found, inst);
      var f := Visit(found, inst[0]);
      var tail := inst[1..];
      WalkFiresAn(Either(found, f), tail);
      forall i | 0 < i < |inst|
        ensures w.fired[i].an <==> !found.an && FirstBlankAt(inst, i)
      {
        FirstShift(inst, i);
        assert w.fired[i] == WalkFrom(Either(found, f), tail).fired[i - 1];
      }
      if exists i :: 0 <= i < |inst| && Blank(inst[i]) {
        var i :| 0 <= i < |inst| && Blank(inst[i]);
        if i > 0 {
          assert tail[i - 1] == inst[i];
        }
      }
      if exists i :: 0 <= i < |tail| && Blank(tail[i]) {
        var i :| 0 <= i < |tail| && Blank(tail[i]);
        assert inst[i + 1] == tail[i];
      }
    }
  }

  /** A goal band fires only where AM fires, and which one is decided by that
      match's total: 2 goals is Over 1.5, 3 is Over 2.5, 4 or more Over 3.5. */
  lemma {:induction false} WalkFiresOver(found: Marks, inst: seq<Score>)
    requires Consistent(found)
    ensures Consistent(WalkFrom(found, inst).found)
    ensures forall i :: 0 <= i < |inst| ==>
      var f := WalkFrom(found, inst).fired[i];
      && (f.over15 <==> f.am && Total(inst[i]) == 2)
      && (f.over25 <==> f.am && Total(inst[i]) == 3)
      && (f.over35 <==> f.am && Total(inst[i]) >= 4)
    decreases |inst|
  {
    if inst != [] {
      var w := WalkFrom(found, inst);
      var f := Visit(found, inst[0]);
      var tail := inst[1..];
      WalkFiresOver(Either(found, f), tail);
      forall i | 0 < i < |inst|
        ensures w.fired[i] == WalkFrom(Either(found, f), tail).fired[i - 1]
        ensures inst[i] == tail[i - 1]
      {
      }
    }
  }

  /** The first match of a non-empty instance always fires exactly one of AM and AN. */
  lemma ClassifyFirstPosition(inst: seq<Score>)
    requires |inst| > 0
    ensures Classify(inst).fired[0].am != Classify(inst).fired[0].an
  {
  }

  // ---------------------------------------------------------------------
  // Counters

  /** Five counters in the report's column order. */
  datatype Counts = Counts(over15: nat, over25: nat, over35: nat, am: nat, an: nat)

  const NoCounts: Counts := Counts(0, 0, 0, 0, 0)

  function Bit(b: bool): nat {
    if b then 1 else 0
  }

  /** `int(flag)` for each of the five flags. */
  function Tick(m: Marks): Counts {
    Counts(Bit(m.over15), Bit(m.over25), Bit(m.over35), Bit(m.am), Bit(m.an))
  }

  function Plus(a: Counts, b: Counts): Counts {
    Counts(a.over15 + b.over15, a.over25 + b.over25, a.over35 + b.over35, a.am + b.am, a.an + b.an)
  }

  /** The counts of firings along a walk. */
  function SumMarks(ms: seq<Marks>): Counts {
    if ms == [] then NoCounts else Plus(Tick(ms[0]), SumMarks(ms[1..]))
  }

  /** Python's `sum` of each counter list: the five column sums over positions. */
  function ColumnSums(cs: seq<Counts>): Counts {
    if cs == [] then NoCounts else Plus(cs[0], ColumnSums(cs[1..]))
  }

  /** The goal-band counts add up to the AM count. */
  predicate BandsSplitAm(c: Counts) {
    c.over15 + c.over25 + c.over35 == c.am
  }

  /** A firing only raises flags that were still lowered. */
  lemma VisitRaisesLoweredFlags(found: Marks, s: Score)
    requires Consistent(found)
    ensures Consistent(Either(found, Visit(found, s)))
    ensures Plus(Tick(found), Tick(Visit(found, s))) == Tick(Either(found, Visit(found, s)))
  {
    var f := Visit(found, s);
    assert f.over15 || f.over25 || f.over35 ==> f.am;
    assert f.am ==> !found.am && !found.over15 && !found.over25 && !found.over35;
    assert f.an ==> !found.an;
    TickEither(found, f);
  }

  /** Two sets of marks share no raised flag. */
  predicate Disjoint(a: Marks, b: Marks) {
    && !(a.over15 && b.over15) && !(a.over25 && b.over25) && !(a.over35 && b.over35)
    && !(a.am && b.am) && !(a.an && b.an)
  }

  lemma TickEither(a: Marks, b: Marks)
    requires Disjoint(a, b)
    ensures Plus(Tick(a), Tick(b)) == Tick(Either(a, b))
  {
    BitOr(a.over15, b.over15);
    BitOr(a.over25, b.over25);
    BitOr(a.over35, b.over35);
    BitOr(a.am, b.am);
    BitOr(a.an, b.an);
  }

  lemma PlusAssociates(a: Counts, b: Counts, c: Counts)
    ensures Plus(a, Plus(b, c)) == Plus(Plus(a, b), c)
  {
  }

  lemma PlusZero(a: Counts)
    ensures Plus(a, NoCounts) == a
  {
  }

  lemma BitOr(x: bool, y: bool)
    requires !(x && y)
    ensures Bit(x) + Bit(y) == Bit(x || y)
  {
  }

  /** Each flag is raised by exactly one firing, so the flags at the end of a
      walk are the flags at its start plus the firings along it. */
  lemma {:induction false} WalkTicks(found: Marks, inst: seq<Score>)
    requires Consistent(found)
    ensures Plus(Tick(found), SumMarks(WalkFrom(found, inst).fired)) == Tick(WalkFrom(found, inst).found)
    decreases |inst|
  {
    var w := WalkFrom(found, inst);
    if inst != [] {
      var f := Visit(found, inst[0]);
      var rest := WalkFrom(Either(found, f), inst[1..]);
      assert w == Walk([f] + rest.fired, rest.found);
      VisitRaisesLoweredFlags(found, inst[0]);
      WalkTicks(Either(found, f), inst[1..]);
      TicksStep(Tick(found), f, rest.fired, Tick(Either(found, f)), Tick(rest.found));
    } else {
      assert w == Walk([], found);
      PlusZero(Tick(found));
    }
  }

  /** Prepending a firing to a walk adds its ticks in front. */
  lemma TicksStep(a: Counts, f: Marks, fired: seq<Marks>, af: Counts, last: Counts)
    requires Plus(a, Tick(f)) == af
    requires Plus(af, SumMarks(fired)) == last
    ensures Plus(a, SumMarks([f] + fired)) == last
  {
    assert ([f] + fired)[1..] == fired;
    assert SumMarks([f] + fired) == Plus(Tick(f), SumMarks(fired));
    PlusChain(a, Tick(f), SumMarks(fired), af, last);
  }

  lemma PlusChain(a: Counts, b: Counts, c: Counts, ab: Counts, abc: Counts)
    requires Plus(a, b) == ab && Plus(ab, c) == abc
    ensures Plus(a, Plus(b, c)) == abc
  {
  }

  /** A firing whose goal band is decided by the total of a match where both
      teams scored raises exactly one band with AM. */
  lemma MarksBands(f: Marks, s: Score)
    requires f.am ==> BothScored(s)
    requires f.over15 <==> f.am && Total(s) == 2
    requires f.over25 <==> f.am && Total(s) == 3
    requires f.over35 <==> f.am && Total(s) >= 4
    ensures BandsSplitAm(Tick(f))
  {
  }

  /** The goal-band counts of firings that each split their AM count split it too. */
  lemma {:induction false} SumMarksBands(ms: seq<Marks>)
    requires forall i :: 0 <= i < |ms| ==> BandsSplitAm(Tick(ms[i]))
    ensures BandsSplitAm(SumMarks(ms))
  {
    if ms != [] {
      SumMarksBands(ms[1..]);
      PlusKeepsBands(Tick(ms[0]), SumMarks(ms[1..]));
    }
  }

  /** Every firing that raises AM raises exactly one goal band with it. */
  lemma WalkBandsSplitAm(found: Marks, inst: seq<Score>)
    requires Consistent(found)
    ensures BandsSplitAm(SumMarks(WalkFrom(found, inst).fired))
    ensures forall i :: 0 <= i < |inst| ==> BandsSplitAm(Tick(WalkFrom(found, inst).fired[i]))
  {
    var w := WalkFrom(found, inst);
    WalkFiresOver(found, inst);
    WalkFiresAm(found, inst);
    forall i | 0 <= i < |inst|
      ensures BandsSplitAm(Tick(w.fired[i]))
    {
      MarksBands(w.fired[i], inst[i]);
    }
    SumMarksBands(w.fired);
  }

  /** Per instance at most one goal-band flag ends up raised, and one is
      raised exactly when AM is. */
  lemma ClassifyBandsExclusive(inst: seq<Score>)
    ensures var found := Classify(inst).found;
      Bit(found.over15) + Bit(found.over25) + Bit(found.over35) == Bit(found.am)
  {
    WalkTicks(Unmarked, inst);
    WalkBandsSplitAm(Unmarked, inst);
  }

  /** What position `i` of an instance records, stated without the walk:
      AM and the goal band of its total at the first match where both teams
      scored, AN at the first match where some side scored nothing, and
      nothing anywhere else (in particular past the end of the instance). */
  function FiredAt(inst: seq<Score>, i: int): Marks {
    var both := FirstBothAt(inst, i);
    Marks(both && Total(inst[i]) == 2, both && Total(inst[i]) == 3, both && Total(inst[i]) >= 4,
          both, FirstBlankAt(inst, i))
  }

  /** The flags an instance ends with, stated without the walk: the goal band
      of its first match where both teams scored, AM if there is such a
      match, AN if some side failed to score in some match. */
  function Raised(inst: seq<Score>): Marks {
    Marks(exists i :: 0 <= i < |inst| && FirstBothAt(inst, i) && Total(inst[i]) == 2,
          exists i :: 0 <= i < |inst| && FirstBothAt(inst, i) && Total(inst[i]) == 3,
          exists i :: 0 <= i < |inst| && FirstBothAt(inst, i) && Total(inst[i]) >= 4,
          HasBoth(inst), HasBlank(inst))
  }

  /** The flags raised by any of the firings. */
  function AnyFired(ms: seq<Marks>): Marks {
    if ms == [] then Unmarked else Either(ms[0], AnyFired(ms[1..]))
  }

  /** A flag is raised by some firing exactly when one of them raises it. */
  lemma {:induction false} AnyFiredAt(ms: seq<Marks>)
    ensures AnyFired(ms).over15 <==> exists i :: 0 <= i < |ms| && ms[i].over15
    ensures AnyFired(ms).over25 <==> exists i :: 0 <= i < |ms| && ms[i].over25
    ensures AnyFired(ms).over35 <==> exists i :: 0 <= i < |ms| && ms[i].over35
  {
    if ms != [] {
      var tail := ms[1..];
      AnyFiredAt(tail);
      assert forall i :: 0 < i < |ms| ==> ms[i] == tail[i - 1];
      if exists i :: 0 <= i < |ms| && ms[i].over15 {
        var i :| 0 <= i < |ms| && ms[i].over15;
        assert i > 0 ==> tail[i - 1].over15;
      }
      if exists i :: 0 <= i < |ms| && ms[i].over25 {
        var i :| 0 <= i < |ms| && ms[i].over25;
        assert i > 0 ==> tail[i - 1].over25;
      }
      if exists i :: 0 <= i < |ms| && ms[i].over35 {
        var i :| 0 <= i < |ms| && ms[i].over35;
        assert i > 0 ==> tail[i - 1].over35;
      }
    }
  }

  /** A flag ends up raised exactly when it was raised at the start or fired
      somewhere along the walk. */
  lemma {:induction false} WalkFoundAny(found: Marks, inst: seq<Score>)
    ensures WalkFrom(found, inst).found == Either(found, AnyFired(WalkFrom(found, inst).fired))
    decreases |inst|
  {
    if inst != [] {
      var f := Visit(found, inst[0]);
      var rest := WalkFrom(Either(found, f), inst[1..]);
      WalkFoundAny(Either(found, f), inst[1..]);
      assert ([f] + rest.fired)[1..] == rest.fired;
    }
  }

  /** The walk records exactly what `FiredAt` and `Raised` describe. */
  lemma ClassifyMeaning(inst: seq<Score>)
    ensures forall i :: 0 <= i < |inst| ==> Classify(inst).fired[i] == FiredAt(inst, i)
    ensures Classify(inst).found == Raised(inst)
  {
    ClassifyFiredAt(inst);
    ClassifyRaised(inst);
  }

  lemma ClassifyFiredAt(inst: seq<Score>)
    ensures forall i :: 0 <= i < |inst| ==> Classify(inst).fired[i] == FiredAt(inst, i)
  {
    WalkFiresAm(Unmarked, inst);
    WalkFiresAn(Unmarked, inst);
    WalkFiresOver(Unmarked, inst);
  }

  lemma ClassifyRaised(inst: seq<Score>)
    ensures Classify(inst).found == Raised(inst)
  {
    var w := Classify(inst);
    ClassifyFiredAt(inst);
    WalkFoundAny(Unmarked, inst);
    AnyFiredAt(w.fired);
    assert w.found.over15 == Raised(inst).over15 by {
      if exists i :: 0 <= i < |inst| && FirstBothAt(inst, i) && Total(inst[i]) == 2 {
        var i :| 0 <= i < |inst| && FirstBothAt(inst, i) && Total(inst[i]) == 2;
        assert w.fired[i].over15;
      }
    }
    assert w.found.over25 == Raised(inst).over25 by {
      if exists i :: 0 <= i < |inst| && FirstBothAt(inst, i) && Total(inst[i]) == 3 {
        var i :| 0 <= i < |inst| && FirstBothAt(inst, i) && Total(inst[i]) == 3;
        assert w.fired[i].over25;
      }
    }
    assert w.found.over35 == Raised(inst).over35 by {
      if exists i :: 0 <= i < |inst| && FirstBothAt(inst, i) && Total(inst[i]) >= 4 {
        var i :| 0 <= i < |inst| && FirstBothAt(inst, i) && Total(inst[i]) >= 4;
        assert w.fired[i].over35;
      }
    }
  }

  // ---------------------------------------------------------------------
  // One row: all instances of a retained window

  /** `n` zeroed counters (`[0] * num_conjuntos`, five times). */
  function Zeros(n: nat): (cs: seq<Counts>)
    ensures |cs| == n
    ensures forall i :: 0 <= i < n ==> cs[i] == NoCounts
  {
    if n == 0 then [] else [NoCounts] + Zeros(n - 1)
  }

  /** Nothing fires at position `n` or later. */
  predicate QuietFrom(fired: seq<Marks>, n: nat) {
    forall i :: n <= i < |fired| ==> fired[i] == Unmarked
  }

  /** `X_counts[i] += 1` for every category that fired at position `i`.
      A position at or past the end of the counters is only harmless when
      nothing fires there; otherwise lines 118-134 raise IndexError. */
  function AddMarks(cs: seq<Counts>, fired: seq<Marks>): (r: seq<Counts>)
    requires QuietFrom(fired, |cs|)
    ensures |r| == |cs|
    ensures forall i :: 0 <= i < |fired| && i < |cs| ==> r[i] == Plus(cs[i], Tick(fired[i]))
    ensures forall i :: |fired| <= i < |cs| ==> r[i] == cs[i]
  {
    if fired == [] || cs == [] then cs
    else
      assert QuietFrom(fired[1..], |cs| - 1) by {
        forall i | |cs| - 1 <= i < |fired| - 1
          ensures fired[1..][i] == Unmarked
        {
          assert fired[1..][i] == fired[i + 1];
        }
      }
      [Plus(cs[0], Tick(fired[0]))] + AddMarks(cs[1..], fired[1..])
  }

  /** Firings that raise nothing count nothing. */
  lemma {:induction false} QuietSum(fired: seq<Marks>)
    requires QuietFrom(fired, 0)
    ensures SumMarks(fired) == NoCounts
  {
    if fired != [] {
      var rest := fired[1..];
      assert QuietFrom(rest, 0) by {
        forall i | 0 <= i < |rest|
          ensures rest[i] == Unmarked
        {
          assert rest[i] == fired[i + 1];
        }
      }
      QuietSum(rest);
      assert Tick(fired[0]) == NoCounts;
      PlusZero(Tick(fired[0]));
    }
  }

  lemma {:induction false} ColumnSumsAddMarks(cs: seq<Counts>, fired: seq<Marks>)
    requires QuietFrom(fired, |cs|)
    ensures ColumnSums(AddMarks(cs, fired)) == Plus(ColumnSums(cs), SumMarks(fired))
  {
    if fired == [] {
      assert SumMarks(fired) == NoCounts;
    } else if cs == [] {
      QuietSum(fired);
      ZeroPlus(NoCounts);
    } else {
      var r := AddMarks(cs, fired);
      assert QuietFrom(fired[1..], |cs| - 1) by {
        forall i | |cs| - 1 <= i < |fired| - 1
          ensures fired[1..][i] == Unmarked
        {
          assert fired[1..][i] == fired[i + 1];
        }
      }
      ColumnSumsAddMarks(cs[1..], fired[1..]);
      assert r[1..] == AddMarks(cs[1..], fired[1..]);
    }
  }

  lemma PlusKeepsBands(a: Counts, b: Counts)
    requires BandsSplitAm(a) && BandsSplitAm(b)
    ensures BandsSplitAm(Plus(a, b))
  {
  }

  /** The per-position counters and the five instance totals of one row. */
  datatype Accum = Accum(positions: seq<Counts>, totals: Counts)

  /** The instance's classification touches no counter at position `n` or
      later, so counter lists of length `n` are never indexed out of range. */
  predicate InBounds(n: nat, inst: seq<Score>) {
    QuietFrom(Classify(inst).fired, n)
  }

  /** Lines 105-141 for one more instance. Each position's counters gain what
      the instance records there (lines 117-134), the row totals gain the
      instance's final flags (lines 137-141), and so the totals keep agreeing
      with the column sums of the counters (lines 148-152). */
  function Absorb(acc: Accum, inst: seq<Score>): (next: Accum)
    requires InBounds(|acc.positions|, inst)
    ensures |next.positions| == |acc.positions|
    ensures forall i :: 0 <= i < |acc.positions| ==>
      next.positions[i] == Plus(acc.positions[i], Tick(FiredAt(inst, i)))
    ensures next.totals == Plus(acc.totals, Tick(Raised(inst)))
    ensures acc.totals == ColumnSums(acc.positions) ==> next.totals == ColumnSums(next.positions)
  {
    var w := Classify(inst);
    AddFiredAt(acc.positions, inst);
    ClassifyRaised(inst);
    ClassifyTicks(inst);
    ColumnSumsAddMarks(acc.positions, w.fired);
    Accum(AddMarks(acc.positions, w.fired), Plus(acc.totals, Tick(w.found)))
  }

  /** Adding an instance's firings adds, at each position of the counters,
      what the instance records there. */
  lemma AddFiredAt(cs: seq<Counts>, inst: seq<Score>)
    requires InBounds(|cs|, inst)
    ensures forall i :: 0 <= i < |cs| ==>
      AddMarks(cs, Classify(inst).fired)[i] == Plus(cs[i], Tick(FiredAt(inst, i)))
  {
    var fired := Classify(inst).fired;
    var r := AddMarks(cs, fired);
    ClassifyFiredAt(inst);
    forall i | 0 <= i < |cs|
      ensures r[i] == Plus(cs[i], Tick(FiredAt(inst, i)))
    {
      if i >= |inst| {
        assert Tick(FiredAt(inst, i)) == NoCounts;
        PlusZero(cs[i]);
      }
    }
  }

  /** No instance touches a counter past the window. */
  predicate Fits(n: nat, instances: seq<seq<Score>>) {
    forall i :: 0 <= i < |instances| ==> InBounds(n, instances[i])
  }

  /** An instance stays in bounds exactly when its first match where both
      teams scored and its first match where a side failed to score (if
      any) lie inside the window. */
  lemma InBoundsIff(n: nat, inst: seq<Score>)
    ensures InBounds(n, inst) <==>
      forall i :: n <= i < |inst| ==> !FirstBothAt(inst, i) && !FirstBlankAt(inst, i)
  {
    var w := Classify(inst);
    WalkFiresAm(Unmarked, inst);
    WalkFiresAn(Unmarked, inst);
    WalkFiresOver(Unmarked, inst);
    forall i | n <= i < |inst|
      ensures w.fired[i] == Unmarked <==> !FirstBothAt(inst, i) && !FirstBlankAt(inst, i)
    {
      var f := w.fired[i];
      assert f.over15 || f.over25 || f.over35 ==> f.am;
    }
  }

  /** An instance no longer than the window is in bounds; a longer one can
      be too: with a window of 2, the instance 1x1, 0x0, 5x5 fires AM at
      the first position and AN at the second, and nothing at the third. */
  lemma InBoundsShort(n: nat, inst: seq<Score>)
    requires |inst| <= n
    ensures InBounds(n, inst)
  {
  }

  lemma InBoundsLonger()
    ensures InBounds(2, [Score(1, 1), Score(0, 0), Score(5, 5)])
    ensures !InBounds(1, [Score(1, 1), Score(0, 0), Score(5, 5)])
  {
    var inst := [Score(1, 1), Score(0, 0), Score(5, 5)];
    InBoundsIff(2, inst);
    InBoundsIff(1, inst);
    assert FirstBlankAt(inst, 1);
  }

  /** How many of the instances record each category at position `i`: in
      how many the first match where both teams scored is at `i` (AM), and of
      those how many total 2, 3, and 4 or more goals (Over 1.5, 2.5, 3.5);
      in how many the first match where some side scored nothing is at `i` (AN). */
  function AtPosition(instances: seq<seq<Score>>, i: int): Counts {
    if instances == [] then NoCounts
    else Plus(AtPosition(instances[..|instances| - 1], i), Tick(FiredAt(instances[|instances| - 1], i)))
  }

  /** How many of the instances end with each flag raised. */
  function Flagged(instances: seq<seq<Score>>): Counts {
    if instances == [] then NoCounts
    else Plus(Flagged(instances[..|instances| - 1]), Tick(Raised(instances[|instances| - 1])))
  }

  /** Lines 94-141: all instances of one row folded in order. The counters
      at each position count the instances recording each category there,
      the row totals count the instances ending with each flag raised, and
      the totals equal the column sums of the per-position counters. */
  function Aggregate(n: nat, instances: seq<seq<Score>>): (acc: Accum)
    requires Fits(n, instances)
    ensures |acc.positions| == n
    ensures forall i :: 0 <= i < n ==> acc.positions[i] == AtPosition(instances, i)
    ensures acc.totals == Flagged(instances)
    ensures acc.totals == ColumnSums(acc.positions)
  {
    if instances == [] then
      ZerosSum(n);
      Accum(Zeros(n), NoCounts)
    else
      FitsPrefix(n, instances);
      Absorb(Aggregate(n, instances[..|instances| - 1]), instances[|instances| - 1])
  }

  /** Some match of the instance had both teams scoring. */
  predicate HasBoth(inst: seq<Score>) {
    exists i :: 0 <= i < |inst| && BothScored(inst[i])
  }

  /** Some match of the instance had a side failing to score. */
  predicate HasBlank(inst: seq<Score>) {
    exists i :: 0 <= i < |inst| && Blank(inst[i])
  }

  /** The number of instances in which both teams scored in some match. */
  function CountWithBoth(instances: seq<seq<Score>>): nat {
    if instances == [] then 0
    else CountWithBoth(instances[..|instances| - 1]) + Bit(HasBoth(instances[|instances| - 1]))
  }

  /** The number of instances in which some side failed to score in some match. */
  function CountWithBlank(instances: seq<seq<Score>>): nat {
    if instances == [] then 0
    else CountWithBlank(instances[..|instances| - 1]) + Bit(HasBlank(instances[|instances| - 1]))
  }

  lemma FitsPrefix(n: nat, instances: seq<seq<Score>>)
    requires Fits(n, instances) && instances != []
    ensures Fits(n, instances[..|instances| - 1])
  {
    var prefix := instances[..|instances| - 1];
    forall i | 0 <= i < |prefix|
      ensures InBounds(n, prefix[i])
    {
      assert prefix[i] == instances[i];
    }
  }

  /** The firings of a walk from lowered flags count up to its final flags. */
  lemma ClassifyTicks(inst: seq<Score>)
    ensures SumMarks(Classify(inst).fired) == Tick(Classify(inst).found)
  {
    var w := Classify(inst);
    WalkTicks(Unmarked, inst);
    assert Tick(Unmarked) == NoCounts;
    ZeroPlus(SumMarks(w.fired));
  }

  lemma ZeroPlus(a: Counts)
    ensures Plus(NoCounts, a) == a
  {
  }

  /** At every position the goal-band counters add up to the AM counter. */
  lemma {:induction false} AggregateBands(n: nat, instances: seq<seq<Score>>)
    requires Fits(n, instances)
    ensures forall i :: 0 <= i < n ==> BandsSplitAm(Aggregate(n, instances).positions[i])
  {
    if instances != [] {
      var prefix := instances[..|instances| - 1];
      var inst := instances[|instances| - 1];
      FitsPrefix(n, instances);
      var prev := Aggregate(n, prefix);
      var acc := Aggregate(n, instances);
      AggregateBands(n, prefix);
      var w := Classify(inst);
      WalkBandsSplitAm(Unmarked, inst);
      forall i | 0 <= i < |w.fired| && i < n
        ensures BandsSplitAm(acc.positions[i])
      {
        PlusKeepsBands(prev.positions[i], Tick(w.fired[i]));
      }
    }
  }

  /** The AM total counts the instances that had a match where both teams scored. */
  lemma {:induction false} AggregateAm(n: nat, instances: seq<seq<Score>>)
    requires Fits(n, instances)
    ensures Aggregate(n, instances).totals.am == CountWithBoth(instances)
  {
    if instances != [] {
      var prefix := instances[..|instances| - 1];
      FitsPrefix(n, instances);
      AggregateAm(n, prefix);
      WalkFiresAm(Unmarked, instances[|instances| - 1]);
    }
  }

  /** The AN total counts the instances that had a match where a side failed to score. */
  lemma {:induction false} AggregateAn(n: nat, instances: seq<seq<Score>>)
    requires Fits(n, instances)
    ensures Aggregate(n, instances).totals.an == CountWithBlank(instances)
  {
    if instances != [] {
      var prefix := instances[..|instances| - 1];
      FitsPrefix(n, instances);
      AggregateAn(n, prefix);
      WalkFiresAn(Unmarked, instances[|instances| - 1]);
    }
  }

  /** An instance such as 0x0, 1x1 (a side on zero, then both teams scoring
      two goals in all) records AN at its first position and AM with
      Over 1.5 at its second, and ends with AM, AN and Over 1.5 raised. */
  lemma ExampleRecords(a: Score, b: Score)
    requires Blank(a) && BothScored(b) && Total(b) == 2
    ensures FiredAt([a, b], 0) == Marks(false, false, false, false, true)
    ensures FiredAt([a, b], 1) == Marks(true, false, false, true, false)
    ensures Raised([a, b]) == Marks(true, false, false, true, true)
  {
    var inst := [a, b];
    assert FirstBlankAt(inst, 0) && !FirstBothAt(inst, 0);
    assert FirstBothAt(inst, 1) && !FirstBlankAt(inst, 1);
    assert forall i :: 0 <= i < |inst| && FirstBothAt(inst, i) ==> i == 1;
  }

  /** A single instance counts exactly what it records. */
  lemma CountsOfOne(inst: seq<Score>, i: int)
    ensures AtPosition([inst], i) == Tick(FiredAt(inst, i))
    ensures Flagged([inst]) == Tick(Raised(inst))
  {
    var insts := [inst];
    assert insts[..|insts| - 1] == [] && insts[|insts| - 1] == inst;
    var f, r := Tick(FiredAt(inst, i)), Tick(Raised(inst));
    assert AtPosition(insts, i) == Plus(NoCounts, f);
    assert Flagged(insts) == Plus(NoCounts, r);
    ZeroPlus(f);
    ZeroPlus(r);
  }

  /** Such an instance alone counts AN at the first position, AM and
      Over 1.5 at the second, and one each of AM, AN and Over 1.5 in total. */
  lemma ExampleCounts(a: Score, b: Score)
    requires Blank(a) && BothScored(b) && Total(b) == 2
    ensures AtPosition([[a, b]], 0) == Counts(0, 0, 0, 0, 1)
    ensures AtPosition([[a, b]], 1) == Counts(1, 0, 0, 1, 0)
    ensures Flagged([[a, b]]) == Counts(1, 0, 0, 1, 1)
  {
    ExampleRecords(a, b);
    CountsOfOne([a, b], 0);
    CountsOfOne([a, b], 1);
  }

  /** With a window of 2 such an instance alone makes the row: AN counted at
      the first position, AM and Over 1.5 at the second. */
  lemma AggregateExample(a: Score, b: Score)
    requires Blank(a) && BothScored(b) && Total(b) == 2
    ensures Fits(2, [[a, b]])
    ensures Aggregate(2, [[a, b]]).positions == [Counts(0, 0, 0, 0, 1), Counts(1, 0, 0, 1, 0)]
    ensures Aggregate(2, [[a, b]]).totals == Counts(1, 0, 0, 1, 1)
  {
    InBoundsShort(2, [a, b]);
    assert Fits(2, [[a, b]]);
    ExampleCounts(a, b);
  }

  lemma ZerosSum(n: nat)
    ensures ColumnSums(Zeros(n)) == NoCounts
  {
    AllZeroSum(Zeros(n));
  }

  lemma {:induction false} AllZeroSum(cs: seq<Counts>)
    requires forall i :: 0 <= i < |cs| ==> cs[i] == NoCounts
    ensures ColumnSums(cs) == NoCounts
  {
    if cs != [] {
      AllZeroSum(cs[1..]);
      PlusZero(cs[0]);
    }
  }
}
