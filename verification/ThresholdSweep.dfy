/**
 Choosing a detection threshold from labelled scores: the sweep tries only the observed scores and
 one threshold above them all, yet its choice is optimal over every real threshold.

 Scores and thresholds are reals; a pair is predicted a clone when its score reaches the threshold.
 */
module ThresholdSweep {

  datatype Pair = Pair(score: real, clone: bool)

  datatype Operating = Operating(threshold: real, precision: real, recall: real, f1: real)

  const HAIR := 0.000000001

  // ---------------------------------------------------------------- one threshold

  /** Pairs with this label whose prediction at threshold `t` is `fired`. */
  ghost function Count(pairs: seq<Pair>, t: real, fired: bool, clone: bool): nat {
    if pairs == [] then 0
    else
      var last := pairs[|pairs| - 1];
      Count(pairs[..|pairs| - 1], t, fired, clone) + if (last.score >= t) == fired && last.clone == clone then 1 else 0
  }

  function Ratio(part: nat, rest: nat, empty: real): real {
    if part + rest == 0 then empty else part as real / (part + rest) as real
  }

  function Harmonic(p: real, r: real): real {
    if p + r == 0.0 then 0.0 else 2.0 * p * r / (p + r)
  }

  ghost function OperatingAt(pairs: seq<Pair>, t: real): Operating {
    var tp, fp, fn := Count(pairs, t, true, true), Count(pairs, t, true, false), Count(pairs, t, false, true);
    Operating(t, Ratio(tp, fp, 1.0), Ratio(tp, fn, 0.0), Harmonic(Ratio(tp, fp, 1.0), Ratio(tp, fn, 0.0)))
  }

  method Operate(pairs: seq<Pair>, threshold: real) returns (o: Operating)
    ensures o == OperatingAt(pairs, threshold)
  {
    var tp, fp, fn := 0, 0, 0;
    for i := 0 to |pairs|
      invariant tp == Count(pairs[..i], threshold, true, true)
      invariant fp == Count(pairs[..i], threshold, true, false)
      invariant fn == Count(pairs[..i], threshold, false, true)
    {
      assert pairs[..i + 1][..i] == pairs[..i];
      var fired := pairs[i].score >= threshold;
      if fired && pairs[i].clone {
        tp := tp + 1;
      } else if fired && !pairs[i].clone {
        fp := fp + 1;
      } else if !fired && pairs[i].clone {
        fn := fn + 1;
      }
    }
    assert pairs[..|pairs|] == pairs;
    var precision, recall := Ratio(tp, fp, 1.0), Ratio(tp, fn, 0.0);
    o := Operating(threshold, precision, recall, Harmonic(precision, recall));
  }

  // ---------------------------------------------------------------- what the figures mean

  /** The places of the pairs with this label and this prediction. */
  ghost function Places(pairs: seq<Pair>, t: real, fired: bool, clone: bool): set<int> {
    set i | 0 <= i < |pairs| && (pairs[i].score >= t <==> fired) && pairs[i].clone == clone
  }

  lemma OnePlaceMore(pairs: seq<Pair>, p: Pair, t: real, fired: bool, clone: bool)
    ensures Places(pairs + [p], t, fired, clone) ==
      Places(pairs, t, fired, clone) + if (p.score >= t <==> fired) && p.clone == clone then {|pairs|} else {}
  {
    var longer := pairs + [p];
    assert longer[|pairs|] == p && forall i :: 0 <= i < |pairs| ==> longer[i] == pairs[i];
  }

  lemma {:induction false} CountIsNumber(pairs: seq<Pair>, t: real, fired: bool, clone: bool)
    ensures Count(pairs, t, fired, clone) == |Places(pairs, t, fired, clone)|
  {
    if pairs == [] {
      assert Places(pairs, t, fired, clone) == {};
    } else {
      var front, last := pairs[..|pairs| - 1], pairs[|pairs| - 1];
      CountIsNumber(front, t, fired, clone);
      OnePlaceMore(front, last, t, fired, clone);
      assert pairs == front + [last];
    }
  }

  lemma RatioMeans(part: nat, rest: nat, empty: real)
    ensures part + rest > 0 ==> Ratio(part, rest, empty) * (part + rest) as real == part as real
    ensures part + rest == 0 ==> Ratio(part, rest, empty) == empty
  {
  }

  /** The harmonic mean of precision and recall, in terms of the counts themselves. */
  lemma HarmonicMeans(tp: nat, fp: nat, fn: nat)
    ensures var f1 := Harmonic(Ratio(tp, fp, 1.0), Ratio(tp, fn, 0.0));
      && (tp > 0 ==> f1 * (2 * tp + fp + fn) as real == 2.0 * tp as real)
      && (tp == 0 ==> f1 == 0.0)
  {
    if tp > 0 {
      var a, x, y := tp as real, (tp + fp) as real, (tp + fn) as real;
      HarmonicOfRatios(a, x, y);
      assert (2 * tp + fp + fn) as real == x + y;
    } else {
      RatioMeans(tp, fp, 1.0);
      RatioMeans(tp, fn, 0.0);
      assert Ratio(tp, fn, 0.0) == 0.0;
    }
  }

  lemma HarmonicOfRatios(a: real, x: real, y: real)
    requires a > 0.0 && x > 0.0 && y > 0.0
    ensures Harmonic(a / x, a / y) * (x + y) == 2.0 * a
  {
    var p, r := a / x, a / y;
    assert p * x == a && r * y == a && p > 0.0 && r > 0.0;
    var h := Harmonic(p, r);
    assert h * (p + r) == 2.0 * p * r;
    CrossMultiply(h, p, r, a, x, y);
  }

  lemma CrossMultiply(h: real, p: real, r: real, a: real, x: real, y: real)
    requires p * x == a && r * y == a && h * (p + r) == 2.0 * p * r && a > 0.0 && x > 0.0 && y > 0.0
    ensures h * (x + y) == 2.0 * a
  {
    assert p == a / x && r == a / y;
    assert p * (x * y) == a * y && r * (x * y) == a * x && p * r * (x * y) == a * a;
    assert h * (p + r) * (x * y) == h * (a * (x + y));
    assert 2.0 * p * r * (x * y) == 2.0 * (a * a);
    assert a * (h * (x + y)) == a * (2.0 * a);
  }

  /** The figures of `o`, for so many true positives, false positives and missed clones. */
  ghost predicate Figures(o: Operating, tp: nat, fp: nat, fn: nat) {
    && (if tp + fp == 0 then o.precision == 1.0 else o.precision * (tp + fp) as real == tp as real)
    && (if tp + fn == 0 then o.recall == 0.0 else o.recall * (tp + fn) as real == tp as real)
    && (if tp == 0 then o.f1 == 0.0 else o.f1 * (2 * tp + fp + fn) as real == 2.0 * tp as real)
  }

  lemma FiguresOf(t: real, tp: nat, fp: nat, fn: nat)
    ensures Figures(
      Operating(t, Ratio(tp, fp, 1.0), Ratio(tp, fn, 0.0), Harmonic(Ratio(tp, fp, 1.0), Ratio(tp, fn, 0.0))), tp, fp, fn)
  {
    RatioMeans(tp, fp, 1.0);
    RatioMeans(tp, fn, 0.0);
    HarmonicMeans(tp, fp, fn);
  }

  /** Precision and recall are shares of the pairs that fired and of the clones, f1 their balance. */
  lemma {:induction false} OperatingMeans(pairs: seq<Pair>, t: real)
    ensures OperatingAt(pairs, t).threshold == t
    ensures Figures(OperatingAt(pairs, t), |Places(pairs, t, true, true)|, |Places(pairs, t, true, false)|,
                    |Places(pairs, t, false, true)|)
  {
    CountIsNumber(pairs, t, true, true);
    CountIsNumber(pairs, t, true, false);
    CountIsNumber(pairs, t, false, true);
    FiguresOf(t, Count(pairs, t, true, true), Count(pairs, t, true, false), Count(pairs, t, false, true));
  }

  // ---------------------------------------------------------------- counting

  /** Thresholds that fire on the same pairs count the same. */
  lemma {:induction false} SamePredictionsSameCounts(pairs: seq<Pair>, t: real, u: real, fired: bool, clone: bool)
    requires forall p <- pairs :: p.score >= t <==> p.score >= u
    ensures Count(pairs, t, fired, clone) == Count(pairs, u, fired, clone)
  {
    if pairs != [] {
      assert pairs[|pairs| - 1] in pairs;
      SamePredictionsSameCounts(pairs[..|pairs| - 1], t, u, fired, clone);
    }
  }

  /** Raising the threshold only loses predictions; the labels do not change. */
  lemma {:induction false} RaisingFiresLess(pairs: seq<Pair>, t: real, u: real, clone: bool)
    requires t <= u
    ensures Count(pairs, u, true, clone) <= Count(pairs, t, true, clone)
    ensures Count(pairs, t, true, clone) + Count(pairs, t, false, clone) ==
            Count(pairs, u, true, clone) + Count(pairs, u, false, clone)
  {
    if pairs != [] {
      RaisingFiresLess(pairs[..|pairs| - 1], t, u, clone);
    }
  }

  lemma {:induction false} NothingFiresAbove(pairs: seq<Pair>, t: real, clone: bool)
    requires forall p <- pairs :: p.score < t
    ensures Count(pairs, t, true, clone) == 0
  {
    if pairs != [] {
      assert pairs[|pairs| - 1] in pairs;
      NothingFiresAbove(pairs[..|pairs| - 1], t, clone);
    }
  }

  lemma RatioBounds(part: nat, rest: nat, empty: real)
    requires 0.0 <= empty <= 1.0
    ensures 0.0 <= Ratio(part, rest, empty) <= 1.0
    ensures part + rest > 0 ==> (Ratio(part, rest, empty) > 0.0 <==> part > 0)
  {
    if part + rest > 0 {
      var n, d := part as real, (part + rest) as real;
      assert n <= d;
      DivideLeq(n, d, d);
      assert d / d == 1.0;
    }
  }

  lemma DivideLeq(a: real, b: real, d: real)
    requires a <= b && d > 0.0
    ensures a / d <= b / d
  {
  }

  /** Same denominator: the larger part has the larger ratio, and equal ratios have equal parts. */
  lemma SameTotal(a: nat, ra: nat, b: nat, rb: nat)
    requires a + ra == b + rb > 0
    ensures a <= b <==> Ratio(a, ra, 0.0) <= Ratio(b, rb, 0.0)
  {
    var d := (a + ra) as real;
    if a <= b {
      DivideLeq(a as real, b as real, d);
    } else {
      assert (a as real - b as real) / d > 0.0;
      assert (a as real) / d - (b as real) / d == (a as real - b as real) / d;
    }
  }

  /** Same part: fewer strays, larger ratio. */
  lemma FewerStrays(part: nat, few: nat, many: nat)
    requires part > 0 && few <= many
    ensures Ratio(part, many, 1.0) <= Ratio(part, few, 1.0)
  {
    var n, x, y := part as real, (part + few) as real, (part + many) as real;
    assert n / x - n / y == n * (y - x) / (x * y) by {
      CrossDifference(n, x, y);
    }
    assert n * (y - x) >= 0.0 && x * y > 0.0;
    DivideLeq(0.0, n * (y - x), x * y);
  }

  lemma CrossDifference(n: real, x: real, y: real)
    requires x > 0.0 && y > 0.0
    ensures x * y > 0.0 && n / x - n / y == n * (y - x) / (x * y)
  {
    assert n / x == n * y / (x * y);
    assert n / y == n * x / (x * y);
  }

  // ---------------------------------------------------------------- the sweep

  ghost predicate Ascending(ts: seq<real>) {
    forall i, j :: 0 <= i < j < |ts| ==> ts[i] < ts[j]
  }

  /** A set of scores kept sorted and without repeats. */
  function Include(ts: seq<real>, x: real): seq<real> {
    if ts == [] || x < ts[0] then [x] + ts
    else if x == ts[0] then ts
    else [ts[0]] + Include(ts[1..], x)
  }

  lemma {:induction false} IncludeFacts(ts: seq<real>, x: real)
    requires Ascending(ts)
    ensures Ascending(Include(ts, x))
    ensures forall y :: y in Include(ts, x) <==> y == x || y in ts
  {
    if ts != [] && x > ts[0] {
      IncludeFacts(ts[1..], x);
      assert ts == [ts[0]] + ts[1..];
      var r := Include(ts[1..], x);
      forall k | 0 <= k < |r|
        ensures ts[0] < r[k]
      {
        assert r[k] in r;
        if r[k] != x {
          var m :| 0 <= m < |ts[1..]| && ts[1..][m] == r[k];
          assert ts[m + 1] == r[k];
        }
      }
    }
  }

  ghost predicate TopScore(pairs: seq<Pair>, top: real) {
    if pairs == [] then top == 0.0 else (forall p <- pairs :: p.score <= top) && exists p <- pairs :: p.score == top
  }

  /** The distinct observed scores in ascending order, then one threshold nothing reaches. */
  ghost predicate Candidates(pairs: seq<Pair>, ts: seq<real>) {
    && ts != [] && Ascending(ts)
    && (forall p <- pairs :: p.score in ts[..|ts| - 1])
    && (forall i :: 0 <= i < |ts| - 1 ==> exists p <- pairs :: p.score == ts[i])
    && exists top :: TopScore(pairs, top) && ts[|ts| - 1] == top + 0.000000001
  }

  method CandidateThresholds(pairs: seq<Pair>) returns (ts: seq<real>)
    ensures Candidates(pairs, ts)
  {
    ts := [];
    var top := 0.0;
    for i := 0 to |pairs|
      invariant Ascending(ts) && TopScore(pairs[..i], top)
      invariant forall p <- pairs[..i] :: p.score in ts
      invariant forall t <- ts :: exists p <- pairs[..i] :: p.score == t
    {
      ghost var before := ts;
      IncludeFacts(ts, pairs[i].score);
      ts := Include(ts, pairs[i].score);
      assert pairs[..i + 1] == pairs[..i] + [pairs[i]];
      assert pairs[i] in pairs[..i + 1];
      forall t | t in ts
        ensures exists p <- pairs[..i + 1] :: p.score == t
      {
        if t != pairs[i].score {
          var p :| p in pairs[..i] && p.score == t;
          assert p in pairs[..i + 1];
        }
      }
      TopStep(pairs, i, top);
      top := if i == 0 || top < pairs[i].score then pairs[i].score else top;
    }
    assert pairs[..|pairs|] == pairs;
    AppendTop(pairs, ts, top);
    ts := ts + [top + HAIR];
  }

  lemma AppendTop(pairs: seq<Pair>, ts: seq<real>, top: real)
    requires Ascending(ts) && TopScore(pairs, top)
    requires forall p <- pairs :: p.score in ts
    requires forall t <- ts :: exists p <- pairs :: p.score == t
    ensures Candidates(pairs, ts + [top + HAIR])
  {
    var all := ts + [top + HAIR];
    assert all[..|all| - 1] == ts;
    forall i | 0 <= i < |ts|
      ensures all[i] == ts[i] && ts[i] <= top
      ensures exists p <- pairs :: p.score == all[i]
    {
      assert ts[i] in ts;
      var p :| p in pairs && p.score == ts[i];
    }
    assert all[|all| - 1] == top + HAIR && HAIR > 0.0;
    forall i, j | 0 <= i < j < |all|
      ensures all[i] < all[j]
    {
      assert j < |ts| ==> ts[i] < ts[j];
    }
    forall p | p in pairs
      ensures p.score in all[..|all| - 1]
    {
      assert p.score in ts;
    }
    assert Ascending(all);
    assert forall i :: 0 <= i < |all| - 1 ==> exists p <- pairs :: p.score == all[i];
    assert exists t :: TopScore(pairs, t) && all[|all| - 1] == t + HAIR;
    assert forall p <- pairs :: p.score in all[..|all| - 1];
    assert Candidates(pairs, all);
  }

  lemma TopStep(pairs: seq<Pair>, i: nat, top: real)
    requires i < |pairs| && TopScore(pairs[..i], top)
    ensures TopScore(pairs[..i + 1], if i == 0 || top < pairs[i].score then pairs[i].score else top)
  {
    assert pairs[..i + 1] == pairs[..i] + [pairs[i]];
    assert pairs[i] in pairs[..i + 1];
    if i > 0 && top >= pairs[i].score {
      var p :| p in pairs[..i] && p.score == top;
      assert p in pairs[..i + 1];
    }
  }

  /** Every real threshold makes the same predictions as some candidate. */
  lemma CandidatesRealiseAll(pairs: seq<Pair>, ts: seq<real>, t: real) returns (i: nat)
    requires Candidates(pairs, ts)
    ensures i < |ts| && forall p <- pairs :: p.score >= t <==> p.score >= ts[i]
  {
    i := 0;
    while i < |ts| - 1 && ts[i] < t
      invariant i < |ts| && forall k :: 0 <= k < i ==> ts[k] < t
    {
      i := i + 1;
    }
    forall p | p in pairs
      ensures p.score >= t <==> p.score >= ts[i]
    {
      assert p.score in ts[..|ts| - 1];
      var k :| 0 <= k < |ts| - 1 && ts[k] == p.score;
    }
  }

  // ---------------------------------------------------------------- the choice

  ghost predicate IsSweep(pairs: seq<Pair>, ts: seq<real>, sweep: seq<Operating>) {
    |sweep| == |ts| && forall i :: 0 <= i < |ts| ==> sweep[i] == OperatingAt(pairs, ts[i])
  }

  predicate Qualifies(o: Operating, floor: real) {
    o.precision >= floor && o.recall > 0.0
  }

  /** Lexicographic (recall, threshold). */
  predicate RecallBelow(a: Operating, b: Operating) {
    a.recall < b.recall || (a.recall == b.recall && a.threshold < b.threshold)
  }

  /** Lexicographic (precision, recall, threshold). */
  predicate PrecisionBelow(a: Operating, b: Operating) {
    a.precision < b.precision || (a.precision == b.precision && RecallBelow(a, b))
  }

  method Sweep(pairs: seq<Pair>, ts: seq<real>) returns (sweep: seq<Operating>)
    ensures IsSweep(pairs, ts, sweep)
  {
    sweep := [];
    for i := 0 to |ts|
      invariant |sweep| == i && forall k :: 0 <= k < i ==> sweep[k] == OperatingAt(pairs, ts[k])
    {
      var o := Operate(pairs, ts[i]);
      sweep := sweep + [o];
    }
  }

  method Qualifying(sweep: seq<Operating>, floor: real) returns (eligible: seq<Operating>)
    ensures forall o :: o in eligible <==> o in sweep && Qualifies(o, floor)
  {
    eligible := [];
    for i := 0 to |sweep|
      invariant forall o :: o in eligible <==> o in sweep[..i] && Qualifies(o, floor)
    {
      assert sweep[..i + 1] == sweep[..i] + [sweep[i]];
      if Qualifies(sweep[i], floor) {
        eligible := eligible + [sweep[i]];
      }
    }
    assert sweep[..|sweep|] == sweep;
  }

  method BestRecall(points: seq<Operating>) returns (best: Operating)
    requires points != []
    ensures best in points && forall o <- points :: !RecallBelow(best, o)
  {
    best := points[0];
    for i := 1 to |points|
      invariant best in points && forall k :: 0 <= k < i ==> !RecallBelow(best, points[k])
    {
      if RecallBelow(best, points[i]) {
        best := points[i];
      }
    }
  }

  method BestPrecision(points: seq<Operating>) returns (best: Operating)
    requires points != []
    ensures best in points && forall o <- points :: !PrecisionBelow(best, o)
  {
    best := points[0];
    for i := 1 to |points|
      invariant best in points && forall k :: 0 <= k < i ==> !PrecisionBelow(best, points[k])
    {
      if PrecisionBelow(best, points[i]) {
        best := points[i];
      }
    }
  }

  /** The point the sweep settles on. */
  ghost predicate Chosen(sweep: seq<Operating>, floor: real, best: Operating) {
    && best in sweep
    && ((exists o <- sweep :: Qualifies(o, floor)) ==>
          Qualifies(best, floor) && forall o <- sweep :: Qualifies(o, floor) ==> !RecallBelow(best, o))
    && ((forall o <- sweep :: !Qualifies(o, floor)) ==> forall o <- sweep :: !PrecisionBelow(best, o))
  }

  // ---------------------------------------------------------------- why it is optimal

  lemma OperatingBounds(pairs: seq<Pair>, t: real)
    ensures 0.0 <= OperatingAt(pairs, t).precision <= 1.0
    ensures OperatingAt(pairs, t).recall > 0.0 <==> Count(pairs, t, true, true) > 0
  {
    RatioBounds(Count(pairs, t, true, true), Count(pairs, t, true, false), 1.0);
    RatioBounds(Count(pairs, t, true, true), Count(pairs, t, false, true), 0.0);
  }

  /** The last candidate predicts nothing. */
  lemma LastNeverFires(pairs: seq<Pair>, ts: seq<real>)
    requires Candidates(pairs, ts)
    ensures OperatingAt(pairs, ts[|ts| - 1]).precision == 1.0
    ensures OperatingAt(pairs, ts[|ts| - 1]).recall == 0.0
  {
    var t := ts[|ts| - 1];
    forall p | p in pairs
      ensures p.score < t
    {
      var k :| 0 <= k < |ts| - 1 && ts[k] == p.score;
    }
    NothingFiresAbove(pairs, t, true);
    NothingFiresAbove(pairs, t, false);
    assert Count(pairs, t, true, true) == 0;
  }

  /** The sweep contains the operating point of every real threshold, up to the threshold's own value. */
  lemma SweepRealisesAll(pairs: seq<Pair>, ts: seq<real>, sweep: seq<Operating>, t: real) returns (o: Operating)
    requires Candidates(pairs, ts) && IsSweep(pairs, ts, sweep)
    ensures o in sweep && o.(threshold := t) == OperatingAt(pairs, t)
  {
    var i := CandidatesRealiseAll(pairs, ts, t);
    o := sweep[i];
    SamePredictionsSameCounts(pairs, t, ts[i], true, true);
    SamePredictionsSameCounts(pairs, t, ts[i], true, false);
    SamePredictionsSameCounts(pairs, t, ts[i], false, true);
  }

  /** Over all real thresholds: if any meets the floor with some recall, the choice meets it with the most. */
  lemma {:induction false} ChoiceIsOptimal(pairs: seq<Pair>, ts: seq<real>, sweep: seq<Operating>, floor: real, best: Operating, t: real)
    requires Candidates(pairs, ts) && IsSweep(pairs, ts, sweep) && Chosen(sweep, floor, best)
    requires Qualifies(OperatingAt(pairs, t), floor)
    ensures Qualifies(best, floor) && best.recall >= OperatingAt(pairs, t).recall
  {
    var o := SweepRealisesAll(pairs, ts, sweep, t);
    assert Qualifies(o, floor);
  }

  /** Equal recall above zero means the same true positives. */
  lemma {:induction false} EqualRecall(pairs: seq<Pair>, t: real, u: real)
    requires OperatingAt(pairs, t).recall == OperatingAt(pairs, u).recall > 0.0
    ensures Count(pairs, t, true, true) == Count(pairs, u, true, true) > 0
  {
    OperatingBounds(pairs, t);
    OperatingBounds(pairs, u);
    if t <= u {
      RaisingFiresLess(pairs, t, u, true);
    } else {
      RaisingFiresLess(pairs, u, t, true);
    }
    SameTotal(Count(pairs, t, true, true), Count(pairs, t, false, true),
              Count(pairs, u, true, true), Count(pairs, u, false, true));
    SameTotal(Count(pairs, u, true, true), Count(pairs, u, false, true),
              Count(pairs, t, true, true), Count(pairs, t, false, true));
  }

  /** At equal recall a higher threshold is at least as precise. */
  lemma {:induction false} HigherIsMorePrecise(pairs: seq<Pair>, t: real, u: real)
    requires t <= u && OperatingAt(pairs, t).recall == OperatingAt(pairs, u).recall > 0.0
    ensures OperatingAt(pairs, t).precision <= OperatingAt(pairs, u).precision
  {
    EqualRecall(pairs, t, u);
    RaisingFiresLess(pairs, t, u, false);
    FewerStrays(Count(pairs, t, true, true), Count(pairs, u, true, false), Count(pairs, t, true, false));
  }

  /** Among all thresholds of the same recall, the choice is the most precise. */
  lemma {:induction false} ChoiceIsMostPrecise(pairs: seq<Pair>, ts: seq<real>, sweep: seq<Operating>, floor: real, best: Operating, t: real)
    requires Candidates(pairs, ts) && IsSweep(pairs, ts, sweep) && Chosen(sweep, floor, best)
    requires Qualifies(best, floor) && OperatingAt(pairs, t).recall == best.recall
    ensures OperatingAt(pairs, t).precision <= best.precision
  {
    var o := SweepRealisesAll(pairs, ts, sweep, t);
    var i :| 0 <= i < |sweep| && sweep[i] == best;
    var j :| 0 <= j < |sweep| && sweep[j] == o;
    assert best == OperatingAt(pairs, ts[i]) && o == OperatingAt(pairs, ts[j]);
    if o.threshold <= best.threshold {
      HigherIsMorePrecise(pairs, o.threshold, best.threshold);
    } else {
      HigherIsMorePrecise(pairs, best.threshold, o.threshold);
      assert Qualifies(o, floor);
    }
  }

  lemma {:induction false} FiresWhenOneQualifies(pairs: seq<Pair>, ts: seq<real>, sweep: seq<Operating>, floor: real, best: Operating, t: real)
    requires Candidates(pairs, ts) && IsSweep(pairs, ts, sweep) && Chosen(sweep, floor, best)
    requires Qualifies(OperatingAt(pairs, t), floor)
    ensures best.threshold != ts[|ts| - 1]
  {
    ChoiceIsOptimal(pairs, ts, sweep, floor, best, t);
    LastNeverFires(pairs, ts);
    var i :| 0 <= i < |sweep| && sweep[i] == best;
    assert best == OperatingAt(pairs, ts[i]);
  }

  lemma {:induction false} QuietWhenNoneQualifies(pairs: seq<Pair>, ts: seq<real>, sweep: seq<Operating>, floor: real, best: Operating)
    requires Candidates(pairs, ts) && IsSweep(pairs, ts, sweep) && Chosen(sweep, floor, best) && floor <= 1.0
    requires forall o <- sweep :: !Qualifies(o, floor)
    ensures best.threshold == ts[|ts| - 1]
  {
    var i :| 0 <= i < |sweep| && sweep[i] == best;
    assert i < |ts| - 1 ==> ts[i] < ts[|ts| - 1];
    var never := sweep[|sweep| - 1];
    assert never in sweep && !PrecisionBelow(best, never) && !Qualifies(best, floor);
    assert never.precision == 1.0 && never.recall == 0.0 && never.threshold == ts[|ts| - 1] by {
      LastNeverFires(pairs, ts);
    }
    assert best.precision <= 1.0 && best.threshold <= never.threshold by {
      OperatingBounds(pairs, ts[i]);
    }
  }

  /** For a floor of at most 1 the choice is "never fire" exactly when no real threshold qualifies. */
  lemma {:induction false} NeverFiresIffNoneQualifies(pairs: seq<Pair>, ts: seq<real>, sweep: seq<Operating>, floor: real, best: Operating)
    requires Candidates(pairs, ts) && IsSweep(pairs, ts, sweep) && Chosen(sweep, floor, best) && floor <= 1.0
    ensures best.threshold == ts[|ts| - 1] <==> forall t: real :: !Qualifies(OperatingAt(pairs, t), floor)
  {
    if t: real :| Qualifies(OperatingAt(pairs, t), floor) {
      FiresWhenOneQualifies(pairs, ts, sweep, floor, best, t);
    } else {
      forall o | o in sweep
        ensures !Qualifies(o, floor)
      {
        var k :| 0 <= k < |sweep| && sweep[k] == o;
        assert o == OperatingAt(pairs, ts[k]);
      }
      QuietWhenNoneQualifies(pairs, ts, sweep, floor, best);
    }
  }

  /**
   Score one signal: the best qualifying point of the sweep, or the most precise when none qualifies.
   Over every real threshold: the choice meets the floor whenever any does with some recall, then with
   the most recall and the best precision at that recall; otherwise it never fires.
   */
  method Evaluate(pairs: seq<Pair>, floor: real) returns (best: Operating, sweep: seq<Operating>, ts: seq<real>)
    ensures Candidates(pairs, ts) && IsSweep(pairs, ts, sweep) && Chosen(sweep, floor, best)
    ensures forall t: real :: Qualifies(OperatingAt(pairs, t), floor) ==>
      Qualifies(best, floor) && OperatingAt(pairs, t).recall <= best.recall
    ensures forall t: real :: Qualifies(best, floor) && OperatingAt(pairs, t).recall == best.recall ==>
      OperatingAt(pairs, t).precision <= best.precision
    ensures floor <= 1.0 ==>
      (best.threshold == ts[|ts| - 1] <==> forall t: real :: !Qualifies(OperatingAt(pairs, t), floor))
    ensures !Qualifies(best, floor) ==> forall t: real ::
      var o := OperatingAt(pairs, t); o.precision < best.precision || (o.precision == best.precision && o.recall <= best.recall)
  {
    ts := CandidateThresholds(pairs);
    sweep := Sweep(pairs, ts);
    var eligible := Qualifying(sweep, floor);
    if eligible != [] {
      best := BestRecall(eligible);
      assert best in eligible;
    } else {
      best := BestPrecision(sweep);
    }
    ChoiceContract(pairs, ts, sweep, floor, best);
  }

  lemma {:induction false} ChoiceContract(pairs: seq<Pair>, ts: seq<real>, sweep: seq<Operating>, floor: real, best: Operating)
    requires Candidates(pairs, ts) && IsSweep(pairs, ts, sweep) && Chosen(sweep, floor, best)
    ensures forall t: real :: Qualifies(OperatingAt(pairs, t), floor) ==>
      Qualifies(best, floor) && OperatingAt(pairs, t).recall <= best.recall
    ensures forall t: real :: Qualifies(best, floor) && OperatingAt(pairs, t).recall == best.recall ==>
      OperatingAt(pairs, t).precision <= best.precision
    ensures floor <= 1.0 ==>
      (best.threshold == ts[|ts| - 1] <==> forall t: real :: !Qualifies(OperatingAt(pairs, t), floor))
    ensures !Qualifies(best, floor) ==> forall t: real ::
      var o := OperatingAt(pairs, t); o.precision < best.precision || (o.precision == best.precision && o.recall <= best.recall)
  {
    forall t: real | Qualifies(OperatingAt(pairs, t), floor)
      ensures Qualifies(best, floor) && OperatingAt(pairs, t).recall <= best.recall
    {
      ChoiceIsOptimal(pairs, ts, sweep, floor, best, t);
    }
    forall t: real | Qualifies(best, floor) && OperatingAt(pairs, t).recall == best.recall
      ensures OperatingAt(pairs, t).precision <= best.precision
    {
      ChoiceIsMostPrecise(pairs, ts, sweep, floor, best, t);
    }
    if floor <= 1.0 {
      NeverFiresIffNoneQualifies(pairs, ts, sweep, floor, best);
    }
    if !Qualifies(best, floor) {
      forall t: real
        ensures var o := OperatingAt(pairs, t);
          o.precision < best.precision || (o.precision == best.precision && o.recall <= best.recall)
      {
        FallbackIsMostPrecise(pairs, ts, sweep, floor, best, t);
      }
    }
  }

  /** When nothing qualifies the choice is as precise as any threshold can be, and of those has the most recall. */
  lemma {:induction false} FallbackIsMostPrecise(pairs: seq<Pair>, ts: seq<real>, sweep: seq<Operating>, floor: real, best: Operating, t: real)
    requires Candidates(pairs, ts) && IsSweep(pairs, ts, sweep) && Chosen(sweep, floor, best) && !Qualifies(best, floor)
    ensures var o := OperatingAt(pairs, t);
      o.precision < best.precision || (o.precision == best.precision && o.recall <= best.recall)
  {
    var o := SweepRealisesAll(pairs, ts, sweep, t);
    assert !PrecisionBelow(best, o);
  }

  // ---------------------------------------------------------------- not the best-F1 point

  // Two clones with an innocent pair between them.
  const INTERLEAVED := [Pair(0.9, true), Pair(0.8, false), Pair(0.7, true)]

  function Hit(p: Pair, t: real, fired: bool, clone: bool): nat {
    if (p.score >= t) == fired && p.clone == clone then 1 else 0
  }

  lemma InterleavedCount(t: real, fired: bool, clone: bool)
    ensures Count(INTERLEAVED, t, fired, clone) ==
      Hit(INTERLEAVED[0], t, fired, clone) + Hit(INTERLEAVED[1], t, fired, clone) + Hit(INTERLEAVED[2], t, fired, clone)
  {
    var three, two, one := INTERLEAVED, INTERLEAVED[..2], INTERLEAVED[..1];
    assert three[..|three| - 1] == two && two[..|two| - 1] == one && one[..|one| - 1] == [];
    assert Count(one, t, fired, clone) == Hit(INTERLEAVED[0], t, fired, clone);
    assert Count(two, t, fired, clone) == Count(one, t, fired, clone) + Hit(INTERLEAVED[1], t, fired, clone);
  }

  lemma InterleavedPoint(t: real, tp: nat, fp: nat, fn: nat)
    requires (t, tp, fp, fn) in {(0.9, 1, 0, 1), (0.8, 1, 1, 1), (0.7, 2, 1, 0)}
    ensures OperatingAt(INTERLEAVED, t) ==
      Operating(t, Ratio(tp, fp, 1.0), Ratio(tp, fn, 0.0), Harmonic(Ratio(tp, fp, 1.0), Ratio(tp, fn, 0.0)))
  {
    InterleavedCount(t, true, true);
    InterleavedCount(t, true, false);
    InterleavedCount(t, false, true);
  }

  lemma HarmonicValues()
    ensures Ratio(1, 0, 1.0) == 1.0 && Ratio(1, 1, 0.0) == Ratio(1, 1, 1.0) == 0.5 && Ratio(2, 1, 1.0) < 0.99 && Ratio(2, 0, 0.0) == 1.0
    ensures Harmonic(Ratio(1, 0, 1.0), Ratio(1, 1, 0.0)) < Harmonic(Ratio(2, 1, 1.0), Ratio(2, 0, 0.0))
  {
    assert Harmonic(1.0, 0.5) == 1.0 / 1.5;
    assert Harmonic(2.0 / 3.0, 1.0) == (4.0 / 3.0) / (5.0 / 3.0);
  }

  lemma InterleavedCandidate(ts: seq<real>, i: nat)
    requires Candidates(INTERLEAVED, ts) && i < |ts| - 1
    ensures ts[i] == 0.9 || ts[i] == 0.8 || ts[i] == 0.7
  {
    var p :| p in INTERLEAVED && p.score == ts[i];
  }

  /** The choice may have a worse F1 than another threshold: here 2/3 at 0.9 against 4/5 at 0.7. */
  lemma {:induction false} ChoiceIsNotBestF1(ts: seq<real>, sweep: seq<Operating>, best: Operating)
    requires Candidates(INTERLEAVED, ts) && IsSweep(INTERLEAVED, ts, sweep) && Chosen(sweep, 0.99, best)
    ensures best.threshold == 0.9 && best.f1 < OperatingAt(INTERLEAVED, 0.7).f1
  {
    InterleavedPoint(0.9, 1, 0, 1);
    InterleavedPoint(0.8, 1, 1, 1);
    InterleavedPoint(0.7, 2, 1, 0);
    HarmonicValues();
    assert Qualifies(OperatingAt(INTERLEAVED, 0.9), 0.99);
    assert Qualifies(best, 0.99) by {
      ChoiceIsOptimal(INTERLEAVED, ts, sweep, 0.99, best, 0.9);
    }
    var i :| 0 <= i < |sweep| && sweep[i] == best;
    if i == |ts| - 1 {
      LastNeverFires(INTERLEAVED, ts);
      assert false;
    }
    InterleavedCandidate(ts, i);
  }
}
