/** The pattern-occurrence scanner (partidas_padroes.py, `analisar_partidas`
    and `criar_novo_dicionario`).

    The cleaned, oldest-first records are narrowed to those whose scores equal
    the anchor pair. A window of `n` consecutive labels then slides over that
    narrowed sequence itself, one step at a time, and every distinct window is
    counted. Windows repeated often enough are retained. */
module Scanner {
  import opened Wrappers
  import opened Extraction

  /** A window key: `n` consecutive match labels, order and repeats significant. */
  type Key = seq<MatchId>

  /** A window tally: how many start positions produce each key. */
  type Tally = map<Key, nat>

  // ---------------------------------------------------------------------
  // Anchor filter (line 33)

  predicate IsAnchor(r: Record, firstHalf: string, fullTime: string) {
    r.firstHalf == firstHalf && r.fullTime == fullTime
  }

  /** The labels of the records whose two scores equal the anchor pair, in table order. */
  function AnchorIds(recs: seq<Record>, firstHalf: string, fullTime: string): (ids: seq<MatchId>)
    ensures |ids| <= |recs|
  {
    if recs == [] then
      []
    else
      (if IsAnchor(recs[0], firstHalf, fullTime) then [recs[0].id] else [])
      + AnchorIds(recs[1..], firstHalf, fullTime)
  }

  /** The anchor filter keeps table order: it distributes over concatenation. */
  lemma {:induction false} AnchorIdsAppend(xs: seq<Record>, ys: seq<Record>, firstHalf: string, fullTime: string)
    ensures AnchorIds(xs + ys, firstHalf, fullTime) == AnchorIds(xs, firstHalf, fullTime) + AnchorIds(ys, firstHalf, fullTime)
  {
    if xs == [] {
      assert xs + ys == ys;
    } else {
      var h := if IsAnchor(xs[0], firstHalf, fullTime) then [xs[0].id] else [];
      assert (xs + ys)[0] == xs[0];
      assert (xs + ys)[1..] == xs[1..] + ys;
      AnchorIdsAppend(xs[1..], ys, firstHalf, fullTime);
      calc {
        AnchorIds(xs + ys, firstHalf, fullTime);
        h + AnchorIds(xs[1..] + ys, firstHalf, fullTime);
        h + (AnchorIds(xs[1..], firstHalf, fullTime) + AnchorIds(ys, firstHalf, fullTime));
        (h + AnchorIds(xs[1..], firstHalf, fullTime)) + AnchorIds(ys, firstHalf, fullTime);
      }
    }
  }

  /** A label is kept exactly when some record with that label matches the anchor pair. */
  lemma {:induction false} AnchorIdsMembership(recs: seq<Record>, firstHalf: string, fullTime: string, id: MatchId)
    ensures id in AnchorIds(recs, firstHalf, fullTime) <==>
      exists i :: 0 <= i < |recs| && recs[i].id == id && IsAnchor(recs[i], firstHalf, fullTime)
  {
    if recs != [] {
      AnchorIdsMembership(recs[1..], firstHalf, fullTime, id);
      if exists i :: 0 <= i < |recs[1..]| && recs[1..][i].id == id && IsAnchor(recs[1..][i], firstHalf, fullTime) {
        var i :| 0 <= i < |recs[1..]| && recs[1..][i].id == id && IsAnchor(recs[1..][i], firstHalf, fullTime);
        assert recs[i + 1] == recs[1..][i];
      }
      if exists i :: 0 <= i < |recs| && recs[i].id == id && IsAnchor(recs[i], firstHalf, fullTime) {
        var i :| 0 <= i < |recs| && recs[i].id == id && IsAnchor(recs[i], firstHalf, fullTime);
        if i > 0 {
          assert recs[1..][i - 1] == recs[i];
        }
      }
    }
  }

  // ---------------------------------------------------------------------
  // Window tally (lines 40-46)

  /** `len(range(L - n + 1))`: the number of start positions. */
  function NumWindows(len: nat, n: nat): nat {
    if len >= n then len - n + 1 else 0
  }

  /** `tuple(df_filtrado.iloc[i:i+n]['Partidas'])`. */
  function Window(ids: seq<MatchId>, n: nat, i: nat): (w: Key)
    requires i + n <= |ids|
  {
    ids[i..i + n]
  }

  /** The number of start positions among the first `j` whose window equals `key`. */
  function CountStarts(ids: seq<MatchId>, n: nat, key: Key, j: nat): (c: nat)
    requires j <= NumWindows(|ids|, n)
    ensures c <= j
  {
    if j == 0 then 0
    else CountStarts(ids, n, key, j - 1) + (if Window(ids, n, j - 1) == key then 1 else 0)
  }

  /** Lines 43-46: count one more occurrence of `w`. */
  function Bump(m: Tally, w: Key): Tally {
    if w in m then m[w := m[w] + 1] else m[w := 1]
  }

  /** The keys of `m` are exactly the first `j` windows. */
  ghost predicate KeysAreWindows(m: Tally, ids: seq<MatchId>, n: nat, j: nat)
    requires j <= NumWindows(|ids|, n)
  {
    forall k :: k in m <==> exists i :: 0 <= i < j && Window(ids, n, i) == k
  }

  /** Each key of `m` is counted once per start position among the first `j`. */
  ghost predicate CountsAreStarts(m: Tally, ids: seq<MatchId>, n: nat, j: nat)
    requires j <= NumWindows(|ids|, n)
  {
    forall k :: k in m ==> |k| == n && m[k] >= 1 && m[k] == CountStarts(ids, n, k, j)
  }

  /** A window missing from `m` starts nowhere among the first `j` positions. */
  ghost predicate AbsentNeverStarts(m: Tally, ids: seq<MatchId>, n: nat, j: nat)
    requires j <= NumWindows(|ids|, n)
  {
    forall k :: k !in m ==> CountStarts(ids, n, k, j) == 0
  }

  /** `m` is the tally of the first `j` windows: its keys are exactly the
      windows seen, each counted once per start position. */
  ghost predicate IsTallyOf(m: Tally, ids: seq<MatchId>, n: nat, j: nat)
    requires j <= NumWindows(|ids|, n)
  {
    KeysAreWindows(m, ids, n, j) && CountsAreStarts(m, ids, n, j) && AbsentNeverStarts(m, ids, n, j)
  }

  /** The tally after the first `j` iterations of the loop at line 41: every
      key is an `n`-label window counted at least once. */
  function TallyWindows(ids: seq<MatchId>, n: nat, j: nat): (m: Tally)
    requires j <= NumWindows(|ids|, n)
    ensures forall k :: k in m ==> |k| == n && m[k] >= 1
  {
    if j == 0 then
      map[]
    else
      Bump(TallyWindows(ids, n, j - 1), Window(ids, n, j - 1))
  }

  /** For one window `k`, the count in the tally after `j` iterations is the
      number of those windows equal to `k`, and `k` is missing exactly when
      none is. */
  lemma {:induction false} TallyCountAt(ids: seq<MatchId>, n: nat, j: nat, k: Key)
    requires j <= NumWindows(|ids|, n)
    ensures k in TallyWindows(ids, n, j) ==> TallyWindows(ids, n, j)[k] == CountStarts(ids, n, k, j)
    ensures k !in TallyWindows(ids, n, j) ==> CountStarts(ids, n, k, j) == 0
  {
    if j > 0 {
      var m, w := TallyWindows(ids, n, j - 1), Window(ids, n, j - 1);
      var t := TallyWindows(ids, n, j);
      TallyCountAt(ids, n, j - 1, k);
      BumpAt(m, w, k);
      assert t == Bump(m, w);
      if w == k {
        assert CountStarts(ids, n, k, j) == CountStarts(ids, n, k, j - 1) + 1;
      } else {
        assert CountStarts(ids, n, k, j) == CountStarts(ids, n, k, j - 1);
      }
    }
  }

  /** For one window `k`, `k` is a key of the tally after `j` iterations
      exactly when one of the first `j` windows is `k`. */
  lemma {:induction false} TallyKeyAt(ids: seq<MatchId>, n: nat, j: nat, k: Key)
    requires j <= NumWindows(|ids|, n)
    ensures k in TallyWindows(ids, n, j) <==> exists i :: 0 <= i < j && Window(ids, n, i) == k
  {
    if j > 0 {
      var m, w := TallyWindows(ids, n, j - 1), Window(ids, n, j - 1);
      TallyKeyAt(ids, n, j - 1, k);
      BumpAt(m, w, k);
      SeenExtend(ids, n, j, k);
      assert TallyWindows(ids, n, j) == Bump(m, w);
    }
  }

  /** The first `j` windows are the first `j - 1` and the window at `j - 1`. */
  lemma SeenExtend(ids: seq<MatchId>, n: nat, j: nat, k: Key)
    requires 0 < j <= NumWindows(|ids|, n)
    ensures (exists i :: 0 <= i < j && Window(ids, n, i) == k) <==>
      (exists i :: 0 <= i < j - 1 && Window(ids, n, i) == k) || Window(ids, n, j - 1) == k
  {
    if exists i :: 0 <= i < j && Window(ids, n, i) == k {
      var i :| 0 <= i < j && Window(ids, n, i) == k;
      if i < j - 1 {
        assert exists i :: 0 <= i < j - 1 && Window(ids, n, i) == k;
      }
    }
  }

  /** Counting `w` once more adds `w` with one more count and leaves every other key as it was. */
  lemma BumpAt(m: Tally, w: Key, k: Key)
    ensures k == w ==> k in Bump(m, w) && Bump(m, w)[k] == (if k in m then m[k] else 0) + 1
    ensures k != w ==> (k in Bump(m, w) <==> k in m)
    ensures k != w && k in m ==> Bump(m, w)[k] == m[k]
  {
  }

  /** The loop's tally is exact: its keys are the windows seen and each count
      is the number of start positions producing that window. */
  lemma TallyWindowsExact(ids: seq<MatchId>, n: nat, j: nat)
    requires j <= NumWindows(|ids|, n)
    ensures IsTallyOf(TallyWindows(ids, n, j), ids, n, j)
  {
    var m := TallyWindows(ids, n, j);
    forall k
      ensures k in m <==> exists i :: 0 <= i < j && Window(ids, n, i) == k
      ensures k in m ==> m[k] == CountStarts(ids, n, k, j)
      ensures k !in m ==> CountStarts(ids, n, k, j) == 0
    {
      TallyKeyAt(ids, n, j, k);
      TallyCountAt(ids, n, j, k);
    }
  }

  // ---------------------------------------------------------------------
  // Sum of the counts

  ghost function SumOver<K>(m: map<K, nat>, keys: set<K>): nat
    requires keys <= m.Keys
    decreases keys
  {
    if keys == {} then 0 else var k :| k in keys; m[k] + SumOver(m, keys - {k})
  }

  /** The sum of all counts of a tally. */
  ghost function SumValues<K>(m: map<K, nat>): nat {
    SumOver(m, m.Keys)
  }

  /** Any key may be taken out first. */
  lemma SumOverRemove<K>(m: map<K, nat>, keys: set<K>, k: K)
    requires keys <= m.Keys
    requires k in keys
    ensures SumOver(m, keys) == m[k] + SumOver(m, keys - {k})
    decreases keys
  {
    var k' :| k' in keys && SumOver(m, keys) == m[k'] + SumOver(m, keys - {k'});
    if k' != k {
      SumOverRemove(m, keys - {k'}, k);
      SumOverRemove(m, keys - {k}, k');
      assert keys - {k'} - {k} == keys - {k} - {k'};
    }
  }

  /** The sum only depends on the counts of the keys summed. */
  lemma SumOverAgree<K>(m1: map<K, nat>, m2: map<K, nat>, keys: set<K>)
    requires keys <= m1.Keys && keys <= m2.Keys
    requires forall k :: k in keys ==> m1[k] == m2[k]
    ensures SumOver(m1, keys) == SumOver(m2, keys)
    decreases keys
  {
    if keys != {} {
      var k :| k in keys;
      SumOverRemove(m1, keys, k);
      SumOverRemove(m2, keys, k);
      SumOverAgree(m1, m2, keys - {k});
    }
  }

  /** Counting one more occurrence adds one to the sum. */
  lemma SumAfterBump(m: Tally, w: Key)
    ensures SumValues(Bump(m, w)) == SumValues(m) + 1
  {
    var m' := Bump(m, w);
    if w in m {
      assert m'.Keys == m.Keys;
      SumOverRemove(m', m.Keys, w);
      SumOverRemove(m, m.Keys, w);
      SumOverAgree(m, m', m.Keys - {w});
    } else {
      assert m'.Keys == m.Keys + {w};
      SumOverRemove(m', m'.Keys, w);
      assert m'.Keys - {w} == m.Keys;
      SumOverAgree(m, m', m.Keys);
    }
  }

  /** After `j` iterations the counts add up to `j`. */
  lemma {:induction false} TallySum(ids: seq<MatchId>, n: nat, j: nat)
    requires j <= NumWindows(|ids|, n)
    ensures SumValues(TallyWindows(ids, n, j)) == j
  {
    if j > 0 {
      var m := TallyWindows(ids, n, j - 1);
      var w := Window(ids, n, j - 1);
      assert TallyWindows(ids, n, j) == Bump(m, w);
      TallySum(ids, n, j - 1);
      SumAfterBump(m, w);
    }
  }

  // ---------------------------------------------------------------------
  // analisar_partidas (lines 31-49)

  /** The outcome of `analisar_partidas`: the insufficient-data message, or the full tally. */
  datatype Scan = TooFewAnchors | Occurrences(tally: Tally)

  /** Too few anchor matches is reported; otherwise every window over the
      anchor labels is tallied. */
  function Analyse(recs: seq<Record>, firstHalf: string, fullTime: string, minMatches: int, n: nat): (r: Scan)
    ensures r.TooFewAnchors? <==> |AnchorIds(recs, firstHalf, fullTime)| < minMatches
    ensures r.Occurrences? ==>
      var ids := AnchorIds(recs, firstHalf, fullTime);
      && (forall k :: k in r.tally <==> exists i :: 0 <= i < NumWindows(|ids|, n) && Window(ids, n, i) == k)
      && (forall k :: k in r.tally ==> |k| == n && r.tally[k] >= 1)
      && (forall k :: k in r.tally ==> r.tally[k] == CountStarts(ids, n, k, NumWindows(|ids|, n)))
  {
    var ids := AnchorIds(recs, firstHalf, fullTime);
    if |ids| < minMatches then
      TooFewAnchors
    else
      TallyWindowsExact(ids, n, NumWindows(|ids|, n));
      Occurrences(TallyWindows(ids, n, NumWindows(|ids|, n)))
  }

  /** The counts of a tally add up to the number of windows: `L - n + 1`
      when the anchor sequence has length `L >= n`, and the tally is empty when `L < n`. */
  lemma AnalyseCountsAllWindows(recs: seq<Record>, firstHalf: string, fullTime: string, minMatches: int, n: nat)
    requires Analyse(recs, firstHalf, fullTime, minMatches, n).Occurrences?
    ensures var L := |AnchorIds(recs, firstHalf, fullTime)|;
      var tally := Analyse(recs, firstHalf, fullTime, minMatches, n).tally;
      && (L >= n ==> SumValues(tally) == L - n + 1)
      && (L < n ==> tally == map[])
  {
    var ids := AnchorIds(recs, firstHalf, fullTime);
    TallySum(ids, n, NumWindows(|ids|, n));
  }

  // ---------------------------------------------------------------------
  // criar_novo_dicionario (lines 52-57)

  /** The entries whose count reaches the threshold, counts unchanged. */
  function Retain(tally: Tally, threshold: int): (kept: Tally)
    ensures forall k :: k in kept <==> k in tally && tally[k] >= threshold
    ensures forall k :: k in kept ==> kept[k] == tally[k]
  {
    map k | k in tally && tally[k] >= threshold :: tally[k]
  }

  /** The retained tally is a sub-map of the tally, and no larger. */
  lemma RetainSubMap(tally: Tally, threshold: int)
    ensures Retain(tally, threshold).Keys <= tally.Keys
    ensures |Retain(tally, threshold)| <= |tally|
  {
    var kept := Retain(tally, threshold);
    assert kept.Keys <= tally.Keys;
    assert |kept.Keys| <= |tally.Keys| by {
      SubsetCardinality(kept.Keys, tally.Keys);
    }
  }

  lemma SubsetCardinality<K>(a: set<K>, b: set<K>)
    requires a <= b
    ensures |a| <= |b|
  {
    assert b == a + (b - a);
  }

  /** Filtering twice by thresholds `a` then `b` is filtering once by the larger;
      in particular the filter is idempotent. */
  lemma RetainTwice(tally: Tally, a: int, b: int)
    ensures Retain(Retain(tally, a), b) == Retain(tally, if a >= b then a else b)
    ensures Retain(Retain(tally, a), a) == Retain(tally, a)
  {
  }

  // ---------------------------------------------------------------------
  // Key order: Python dicts iterate in insertion order

  /** `x` occurs in `xs` at an earlier index than `y`. With `x == y`, `x` occurs twice. */
  predicate Precedes<T(==)>(xs: seq<T>, x: T, y: T) {
    exists a, b :: 0 <= a < b < |xs| && xs[a] == x && xs[b] == y
  }

  /** The keys of the tally after `j` iterations in the order the dict holds
      them: line 46 inserts a key at its first window, and line 44 only
      updates a key already present. */
  function FirstSeen(ids: seq<MatchId>, n: nat, j: nat): (ks: seq<Key>)
    requires j <= NumWindows(|ids|, n)
    ensures |ks| <= j
  {
    if j == 0 then
      []
    else
      var ks := FirstSeen(ids, n, j - 1);
      var w := Window(ids, n, j - 1);
      if w in ks then ks else ks + [w]
  }

  /** A key is listed exactly when one of the first `j` windows is that key. */
  lemma {:induction false} FirstSeenKeyAt(ids: seq<MatchId>, n: nat, j: nat, k: Key)
    requires j <= NumWindows(|ids|, n)
    ensures k in FirstSeen(ids, n, j) <==> exists i :: 0 <= i < j && Window(ids, n, i) == k
  {
    if j > 0 {
      FirstSeenKeyAt(ids, n, j - 1, k);
      SeenExtend(ids, n, j, k);
    }
  }

  /** The listed keys are exactly the keys of the tally. */
  lemma FirstSeenKeys(ids: seq<MatchId>, n: nat, j: nat)
    requires j <= NumWindows(|ids|, n)
    ensures forall k :: k in FirstSeen(ids, n, j) <==> k in TallyWindows(ids, n, j)
  {
    forall k
      ensures k in FirstSeen(ids, n, j) <==> k in TallyWindows(ids, n, j)
    {
      FirstSeenKeyAt(ids, n, j, k);
      TallyKeyAt(ids, n, j, k);
    }
  }

  /** No key is listed twice. */
  lemma {:induction false} FirstSeenOnce(ids: seq<MatchId>, n: nat, j: nat, x: Key)
    requires j <= NumWindows(|ids|, n)
    ensures !Precedes(FirstSeen(ids, n, j), x, x)
  {
    if j > 0 {
      var ks := FirstSeen(ids, n, j - 1);
      var w := Window(ids, n, j - 1);
      FirstSeenOnce(ids, n, j - 1, x);
      if w !in ks {
        var ks' := ks + [w];
        forall a, b | 0 <= a < b < |ks'| && ks'[a] == x
          ensures ks'[b] != x
        {
          assert ks[a] == x;
          if b == |ks| {
            assert x in ks;
          }
        }
      }
    }
  }

  /** Some window equal to `x` starts before every window equal to `y`:
      `x` was inserted into the dict before `y`. */
  ghost predicate SeenBefore(ids: seq<MatchId>, n: nat, x: Key, y: Key) {
    forall s :: 0 <= s < NumWindows(|ids|, n) && Window(ids, n, s) == y ==>
      exists s' :: 0 <= s' < s && Window(ids, n, s') == x
  }

  /** A key listed before another was first seen before it. */
  lemma {:induction false} FirstSeenOrderAt(ids: seq<MatchId>, n: nat, j: nat, x: Key, y: Key, s: nat)
    requires j <= NumWindows(|ids|, n)
    requires Precedes(FirstSeen(ids, n, j), x, y)
    requires s < NumWindows(|ids|, n) && Window(ids, n, s) == y
    ensures exists s' :: 0 <= s' < s && Window(ids, n, s') == x
  {
    var ks := FirstSeen(ids, n, j - 1);
    var w := Window(ids, n, j - 1);
    if w in ks {
      FirstSeenOrderAt(ids, n, j - 1, x, y, s);
    } else {
      var a, b :| 0 <= a < b < |ks| + 1 && (ks + [w])[a] == x && (ks + [w])[b] == y;
      if b < |ks| {
        assert ks[a] == x && ks[b] == y;
        FirstSeenOrderAt(ids, n, j - 1, x, y, s);
      } else {
        assert ks[a] == x && y == w;
        FirstSeenKeyAt(ids, n, j - 1, x);
        FirstSeenKeyAt(ids, n, j - 1, y);
        var t :| 0 <= t < j - 1 && Window(ids, n, t) == x;
        assert t < s;
      }
    }
  }

  /** Lines 54-56: the tally is walked in its order and the keys whose count
      reaches the threshold are inserted, so the retained dict keeps that order. */
  function RetainOrder(ks: seq<Key>, tally: Tally, threshold: int): (kept: seq<Key>)
    ensures forall k :: k in kept <==> k in ks && k in tally && tally[k] >= threshold
  {
    if ks == [] then
      []
    else
      var rest := RetainOrder(ks[1..], tally, threshold);
      assert forall k :: k in ks <==> k == ks[0] || k in ks[1..];
      (if ks[0] in tally && tally[ks[0]] >= threshold then [ks[0]] else []) + rest
  }

  /** The threshold filter keeps the relative order of the keys it keeps. */
  lemma {:induction false} RetainOrderPrecedes(ks: seq<Key>, tally: Tally, threshold: int, x: Key, y: Key)
    requires Precedes(RetainOrder(ks, tally, threshold), x, y)
    ensures Precedes(ks, x, y)
  {
    var kept := RetainOrder(ks, tally, threshold);
    var rest := RetainOrder(ks[1..], tally, threshold);
    var h := if ks[0] in tally && tally[ks[0]] >= threshold then [ks[0]] else [];
    assert kept == h + rest;
    var a, b :| 0 <= a < b < |kept| && kept[a] == x && kept[b] == y;
    if a >= |h| {
      assert rest[a - |h|] == x && rest[b - |h|] == y;
      RetainOrderPrecedes(ks[1..], tally, threshold, x, y);
      var a', b' :| 0 <= a' < b' < |ks[1..]| && ks[1..][a'] == x && ks[1..][b'] == y;
      assert ks[a' + 1] == x && ks[b' + 1] == y;
    } else {
      assert x == ks[0];
      assert y in rest by {
        assert rest[b - 1] == y;
      }
      var b' :| 0 <= b' < |ks[1..]| && ks[1..][b'] == y;
      assert ks[b' + 1] == y;
    }
  }

  // ---------------------------------------------------------------------
  // The scan as the report uses it (lines 80-87)

  /** The two insufficient-data conditions the report must surface. */
  datatype AnalysisError = TooFewAnchorMatches | NoRepeatedWindow

  /** The dict returned by `criar_novo_dicionario`: its counts and its key order. */
  datatype Retained = Retained(counts: Tally, order: seq<Key>)

  /** No window is retained exactly when every window over the anchor labels
      starts fewer than `minMatches` times. */
  lemma RetainEmptyIff(ids: seq<MatchId>, n: nat, minMatches: int)
    ensures var nw := NumWindows(|ids|, n);
      Retain(TallyWindows(ids, n, nw), minMatches) == map[] <==>
        forall i :: 0 <= i < nw ==> CountStarts(ids, n, Window(ids, n, i), nw) < minMatches
  {
    var nw := NumWindows(|ids|, n);
    var tally := TallyWindows(ids, n, nw);
    var kept := Retain(tally, minMatches);
    if kept == map[] {
      forall i | 0 <= i < nw
        ensures CountStarts(ids, n, Window(ids, n, i), nw) < minMatches
      {
        var w := Window(ids, n, i);
        TallyKeyAt(ids, n, nw, w);
        TallyCountAt(ids, n, nw, w);
        assert w !in kept;
      }
    } else {
      var k :| k in kept;
      TallyKeyAt(ids, n, nw, k);
      TallyCountAt(ids, n, nw, k);
      var i :| 0 <= i < nw && Window(ids, n, i) == k;
    }
  }

  /** `analisar_partidas` followed by `criar_novo_dicionario` with the same
      threshold: too few anchor matches, no window repeated often enough, or
      the retained windows with their counts, in dict order. */
  function RetainedWindows(recs: seq<Record>, firstHalf: string, fullTime: string, minMatches: int, n: nat)
    : (r: Result<Retained, AnalysisError>)
    ensures var ids := AnchorIds(recs, firstHalf, fullTime);
      r == Failure(TooFewAnchorMatches) <==> |ids| < minMatches
    ensures var ids := AnchorIds(recs, firstHalf, fullTime);
      var nw := NumWindows(|ids|, n);
      r == Failure(NoRepeatedWindow) <==>
        |ids| >= minMatches && forall i :: 0 <= i < nw ==> CountStarts(ids, n, Window(ids, n, i), nw) < minMatches
    ensures r.Success? ==> r.value.counts == Retain(Analyse(recs, firstHalf, fullTime, minMatches, n).tally, minMatches)
    ensures r.Success? ==> r.value.counts != map[]
    ensures r.Success? ==> forall k :: k in r.value.counts ==> |k| == n && r.value.counts[k] >= minMatches
  {
    var ids := AnchorIds(recs, firstHalf, fullTime);
    var nw := NumWindows(|ids|, n);
    match Analyse(recs, firstHalf, fullTime, minMatches, n)
    case TooFewAnchors => Failure(TooFewAnchorMatches)
    case Occurrences(tally) =>
      var kept := Retain(tally, minMatches);
      RetainEmptyIff(ids, n, minMatches);
      if kept == map[] then Failure(NoRepeatedWindow)
      else Success(Retained(kept, RetainOrder(FirstSeen(ids, n, nw), tally, minMatches)))
  }

  /** The key order of a successful scan: the tally's first-seen order,
      filtered by the threshold. */
  lemma RetainedOrderIs(recs: seq<Record>, firstHalf: string, fullTime: string, minMatches: int, n: nat)
    ensures var ids := AnchorIds(recs, firstHalf, fullTime);
      var nw := NumWindows(|ids|, n);
      var r := RetainedWindows(recs, firstHalf, fullTime, minMatches, n);
      r.Success? ==>
        && r.value.order == RetainOrder(FirstSeen(ids, n, nw), TallyWindows(ids, n, nw), minMatches)
        && r.value.counts == Retain(TallyWindows(ids, n, nw), minMatches)
  {
  }

  /** The retained dict lists each retained window once, and a window listed
      before another was first seen, over the anchor labels, before it. */
  lemma RetainedOrder(recs: seq<Record>, firstHalf: string, fullTime: string, minMatches: int, n: nat, x: Key, y: Key)
    ensures var r := RetainedWindows(recs, firstHalf, fullTime, minMatches, n);
      r.Success? ==> forall k :: k in r.value.order <==> k in r.value.counts
    ensures var r := RetainedWindows(recs, firstHalf, fullTime, minMatches, n);
      r.Success? ==> !Precedes(r.value.order, x, x)
    ensures var r := RetainedWindows(recs, firstHalf, fullTime, minMatches, n);
      r.Success? && Precedes(r.value.order, x, y) ==> SeenBefore(AnchorIds(recs, firstHalf, fullTime), n, x, y)
  {
    var ids := AnchorIds(recs, firstHalf, fullTime);
    var r := RetainedWindows(recs, firstHalf, fullTime, minMatches, n);
    if r.Success? {
      RetainedOrderIs(recs, firstHalf, fullTime, minMatches, n);
      RetainOrderFacts(ids, n, minMatches, r.value.order, r.value.counts, x, y);
    }
  }

  lemma RetainOrderFacts(ids: seq<MatchId>, n: nat, minMatches: int, order: seq<Key>, counts: Tally, x: Key, y: Key)
    requires var nw := NumWindows(|ids|, n);
      && order == RetainOrder(FirstSeen(ids, n, nw), TallyWindows(ids, n, nw), minMatches)
      && counts == Retain(TallyWindows(ids, n, nw), minMatches)
    ensures forall k :: k in order <==> k in counts
    ensures !Precedes(order, x, x)
    ensures Precedes(order, x, y) ==> SeenBefore(ids, n, x, y)
  {
    var nw := NumWindows(|ids|, n);
    var tally := TallyWindows(ids, n, nw);
    var ks := FirstSeen(ids, n, nw);
    FirstSeenKeys(ids, n, nw);
    FirstSeenOnce(ids, n, nw, x);
    if Precedes(order, x, x) {
      RetainOrderPrecedes(ks, tally, minMatches, x, x);
    }
    if Precedes(order, x, y) {
      RetainOrderPrecedes(ks, tally, minMatches, x, y);
      FirstSeenBefore(ids, n, x, y);
    }
  }

  /** Keys listed in first-seen order in that order were seen in that order. */
  lemma FirstSeenBefore(ids: seq<MatchId>, n: nat, x: Key, y: Key)
    requires Precedes(FirstSeen(ids, n, NumWindows(|ids|, n)), x, y)
    ensures SeenBefore(ids, n, x, y)
  {
    var nw := NumWindows(|ids|, n);
    forall s | 0 <= s < nw && Window(ids, n, s) == y
      ensures exists s' :: 0 <= s' < s && Window(ids, n, s') == x
    {
      FirstSeenOrderAt(ids, n, nw, x, y, s);
    }
  }

  /** A window can only repeat `minMatches` times if there are at least that
      many start positions over the anchor labels. */
  lemma RetainedNeedsEnoughWindows(recs: seq<Record>, firstHalf: string, fullTime: string, minMatches: int, n: nat)
    ensures RetainedWindows(recs, firstHalf, fullTime, minMatches, n).Success? ==>
      NumWindows(|AnchorIds(recs, firstHalf, fullTime)|, n) >= minMatches
  {
    var ids := AnchorIds(recs, firstHalf, fullTime);
    var r := RetainedWindows(recs, firstHalf, fullTime, minMatches, n);
    if r.Success? {
      var kept := r.value.counts;
      var k :| k in kept;
      assert kept[k] == CountStarts(ids, n, k, NumWindows(|ids|, n));
    }
  }
}
