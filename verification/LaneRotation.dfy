/**
 The validator queue's lane rotation: each validator takes its next job from the fresh-submission
 lane when its completed-job count, modulo the cycle, is one of the fresh slots.
 */
module LaneRotation {
  import opened Options
  import opened Sequences

  const MIN_COHORT := 5
  const MAX_COHORT := 25
  const MIN_CYCLE := 2
  const MAX_CYCLE := 12

  datatype Policy = Policy(rescoreCohort: int, priorityCohort: int, cycle: int, slots: seq<int>)

  datatype Fault =
    | FieldRange
    | PriorityExceedsRescore
    | RepeatedSlots
    | NoFreshSlots
    | SlotsOutside(slots: seq<int>)
    | NoCohortSlots

  // ---------------------------------------------------------------- validation

  predicate FieldsInRange(p: Policy) {
    && MIN_COHORT <= p.rescoreCohort <= MAX_COHORT
    && MIN_COHORT <= p.priorityCohort <= MAX_COHORT
    && MIN_CYCLE <= p.cycle <= MAX_CYCLE
  }

  /** What a policy must be for neither lane to starve and no rollout to wait forever. */
  ghost predicate Coherent(p: Policy) {
    && 5 <= p.priorityCohort <= p.rescoreCohort <= 25 && 2 <= p.cycle <= 12
    && NoRepeats(p.slots)
    && (forall s <- p.slots :: 0 <= s < p.cycle)
    && 0 < |p.slots| < p.cycle
  }

  function Outside(slots: seq<int>, cycle: int): seq<int> {
    if slots == [] then []
    else if 0 <= slots[0] < cycle then Outside(slots[1..], cycle)
    else [slots[0]] + Outside(slots[1..], cycle)
  }

  lemma {:induction false} OutsideFacts(slots: seq<int>, cycle: int)
    ensures forall s :: s in Outside(slots, cycle) <==> s in slots && !(0 <= s < cycle)
    ensures Outside(slots, cycle) == [] <==> forall s <- slots :: 0 <= s < cycle
    ensures NoRepeats(slots) ==> NoRepeats(Outside(slots, cycle))
  {
    if slots != [] {
      OutsideFacts(slots[1..], cycle);
      assert slots == [slots[0]] + slots[1..];
      assert slots[0] in slots && forall s <- slots[1..] :: s in slots;
      assert forall s <- slots :: s == slots[0] || s in slots[1..];
      assert NoRepeats(slots) ==> slots[0] !in slots[1..] && NoRepeats(slots[1..]);
    }
  }

  /** The checks in the order the model runs them; None accepts. */
  function CheckCoherent(p: Policy): (fault: Option<Fault>)
    ensures fault.None? <==> Coherent(p)
    ensures fault == Some(FieldRange) <==> !FieldsInRange(p)
    ensures fault == Some(PriorityExceedsRescore) ==> p.priorityCohort > p.rescoreCohort
    ensures fault == Some(RepeatedSlots) ==> !NoRepeats(p.slots)
    ensures fault == Some(NoFreshSlots) ==> |p.slots| == 0
    ensures fault.Some? && fault.value.SlotsOutside? ==>
      NoRepeats(fault.value.slots) && forall s :: s in fault.value.slots <==> s in p.slots && !(0 <= s < p.cycle)
    ensures fault == Some(NoCohortSlots) ==> (forall s <- p.slots :: 0 <= s < p.cycle) && |p.slots| >= p.cycle
  {
    OutsideFacts(p.slots, p.cycle);
    ElementsSize(p.slots);
    var outside := Outside(p.slots, p.cycle);
    if !FieldsInRange(p) then Some(FieldRange)
    else if p.priorityCohort > p.rescoreCohort then Some(PriorityExceedsRescore)
    else if |Elements(p.slots)| != |p.slots| then Some(RepeatedSlots)
    else if p.slots == [] then Some(NoFreshSlots)
    else if outside != [] then Some(SlotsOutside(outside))
    else if |p.slots| >= p.cycle then Some(NoCohortSlots)
    else None
  }

  // ---------------------------------------------------------------- fairness

  predicate FreshDue(p: Policy, completed: nat)
    requires p.cycle > 0
  {
    completed % p.cycle in p.slots
  }

  /** Fresh jobs among the `n` that follow `start` completed ones. */
  ghost function Fresh(p: Policy, start: nat, n: nat): nat
    requires p.cycle > 0
  {
    if n == 0 then 0 else Fresh(p, start, n - 1) + if FreshDue(p, start + n - 1) then 1 else 0
  }

  lemma {:induction false} FreshSplits(p: Policy, start: nat, a: nat, b: nat)
    requires p.cycle > 0
    ensures Fresh(p, start, a + b) == Fresh(p, start, a) + Fresh(p, start + a, b)
    ensures Fresh(p, start, a) <= a
  {
    if b > 0 {
      FreshSplits(p, start, a, b - 1);
    } else if a > 0 {
      FreshSplits(p, start, a - 1, 0);
    }
  }

  lemma AtLeastOnce(k: int, c: int)
    requires k >= 1 && c > 0
    ensures k * c >= c
  {
  }

  lemma {:induction false} RemainderUnique(x: int, c: int, q: int, r: int)
    requires c > 0 && 0 <= r < c && x == q * c + r
    ensures x % c == r
  {
    var q', r' := x / c, x % c;
    assert x == q' * c + r';
    assert (q - q') * c == q * c - q' * c && (q' - q) * c == q' * c - q * c;
    if q > q' {
      AtLeastOnce(q - q', c);
    } else if q < q' {
      AtLeastOnce(q' - q, c);
    }
  }

  lemma {:induction false} DueRepeats(p: Policy, completed: nat)
    requires p.cycle > 0
    ensures FreshDue(p, completed + p.cycle) == FreshDue(p, completed)
  {
    var c := p.cycle;
    var q, r := completed / c, completed % c;
    assert completed == q * c + r;
    assert (q + 1) * c == q * c + c;
    RemainderUnique(completed + c, c, q + 1, r);
  }

  lemma {:induction false} FirstSlots(p: Policy, n: nat)
    requires p.cycle > 0 && n <= p.cycle
    ensures Fresh(p, 0, n) == |set s | s in p.slots && 0 <= s < n|
  {
    if n > 0 {
      FirstSlots(p, n - 1);
      var below := set s | s in p.slots && 0 <= s < n - 1;
      var upto := set s | s in p.slots && 0 <= s < n;
      RemainderUnique(n - 1, p.cycle, 0, n - 1);
      assert upto == if n - 1 in p.slots then below + {n - 1} else below;
    } else {
      assert (set s | s in p.slots && 0 <= s < 0) == {};
    }
  }

  /** Wherever it starts, one whole cycle has exactly as many fresh jobs as there are fresh slots. */
  lemma {:induction false} WholeCycle(p: Policy, start: nat)
    requires Coherent(p)
    ensures Fresh(p, start, p.cycle) == |p.slots|
  {
    if start == 0 {
      FirstSlots(p, p.cycle);
      ElementsSize(p.slots);
      assert (set s | s in p.slots && 0 <= s < p.cycle) == Elements(p.slots);
    } else {
      WholeCycle(p, start - 1);
      FreshSplits(p, start - 1, 1, p.cycle);
      FreshSplits(p, start - 1, p.cycle, 1);
      DueRepeats(p, start - 1);
      assert Fresh(p, start - 1, 1) == if FreshDue(p, start - 1) then 1 else 0;
      assert Fresh(p, start - 1 + p.cycle, 1) == if FreshDue(p, start - 1 + p.cycle) then 1 else 0;
    }
  }

  lemma {:induction false} WholeCycles(p: Policy, start: nat, rounds: nat)
    requires Coherent(p)
    ensures Fresh(p, start, rounds * p.cycle) == rounds * |p.slots|
  {
    if rounds > 0 {
      WholeCycles(p, start, rounds - 1);
      OneMoreRound(rounds, p.cycle);
      OneMoreRound(rounds, |p.slots|);
      var done := (rounds - 1) * p.cycle;
      WholeCycle(p, start + done);
      FreshSplits(p, start, done, p.cycle);
    }
  }

  lemma OneMoreRound(rounds: nat, n: nat)
    requires rounds > 0
    ensures (rounds - 1) * n >= 0 && rounds * n == (rounds - 1) * n + n
  {
  }

  /** Part of a cycle has no more fresh jobs than its length, or than a whole cycle. */
  lemma PartCycle(p: Policy, start: nat, n: nat)
    requires Coherent(p) && n <= p.cycle
    ensures Fresh(p, start, n) <= |p.slots| && Fresh(p, start, n) <= n
    ensures Fresh(p, start, n) >= |p.slots| - (p.cycle - n)
  {
    WholeCycle(p, start);
    FreshSplits(p, start, n, p.cycle - n);
    FreshSplits(p, start + n, p.cycle - n, 0);
  }

  /** The share of the fresh lane in any stretch of consecutive jobs. */
  lemma {:induction false} FreshShare(p: Policy, start: nat, n: nat)
    requires Coherent(p)
    ensures var k, rounds, rest := |p.slots|, n / p.cycle, n % p.cycle;
      rounds * k <= Fresh(p, start, n) <= rounds * k + if k < rest then k else rest
  {
    var rounds, rest := n / p.cycle, n % p.cycle;
    DivideByCycle(n, p.cycle);
    var whole := rounds * p.cycle;
    WholeCycles(p, start, rounds);
    FreshSplits(p, start, whole, rest);
    PartCycle(p, start + whole, rest);
  }

  lemma DivideByCycle(n: nat, c: int)
    requires c > 0
    ensures n / c >= 0 && 0 <= n % c < c
    ensures (n / c) * c >= 0 && n == (n / c) * c + n % c
  {
  }

  /** Never more than `k` fresh jobs in a row, nor more than `c - k` cohort jobs. */
  lemma LongestRuns(p: Policy, start: nat, n: nat)
    requires Coherent(p)
    ensures Fresh(p, start, n) == n ==> n <= |p.slots|
    ensures Fresh(p, start, n) == 0 ==> n <= p.cycle - |p.slots|
  {
    if n <= p.cycle {
      PartCycle(p, start, n);
    } else {
      PartCycle(p, start, p.cycle);
      FreshSplits(p, start, p.cycle, n - p.cycle);
      FreshSplits(p, start + p.cycle, n - p.cycle, 0);
    }
  }

  // ---------------------------------------------------------------- the rollout lock

  function InsertInt(x: int, s: seq<int>): seq<int> {
    if s == [] || x <= s[0] then [x] + s else [s[0]] + InsertInt(x, s[1..])
  }

  function Sorted(s: seq<int>): seq<int> {
    if s == [] then [] else InsertInt(s[0], Sorted(s[1..]))
  }

  ghost predicate Ascends(s: seq<int>) {
    forall i, j :: 0 <= i < j < |s| ==> s[i] <= s[j]
  }

  lemma {:induction false} InsertIntPermutes(x: int, s: seq<int>)
    ensures multiset(InsertInt(x, s)) == multiset{x} + multiset(s)
  {
    if s != [] && x > s[0] {
      InsertIntPermutes(x, s[1..]);
      TailMultiset(s);
    }
  }

  lemma {:induction false} InsertIntAscends(x: int, s: seq<int>)
    requires Ascends(s)
    ensures Ascends(InsertInt(x, s))
  {
    if s != [] && x > s[0] {
      InsertIntAscends(x, s[1..]);
      var r := InsertInt(x, s[1..]);
      forall k | 0 <= k < |r|
        ensures s[0] <= r[k]
      {
        InsertedOrThere(x, s[1..], k);
      }
    }
  }

  lemma InsertedOrThere(x: int, s: seq<int>, k: nat)
    requires k < |InsertInt(x, s)|
    ensures InsertInt(x, s)[k] == x || InsertInt(x, s)[k] in s
  {
    InsertIntPermutes(x, s);
    assert InsertInt(x, s)[k] in multiset(InsertInt(x, s));
  }

  lemma {:induction false} SortedFacts(s: seq<int>)
    ensures multiset(Sorted(s)) == multiset(s) && Ascends(Sorted(s))
  {
    if s != [] {
      SortedFacts(s[1..]);
      InsertIntPermutes(s[0], Sorted(s[1..]));
      InsertIntAscends(s[0], Sorted(s[1..]));
      TailMultiset(s);
    }
  }

  lemma {:induction false} AscendingUnique(s: seq<int>, t: seq<int>)
    requires Ascends(s) && Ascends(t) && multiset(s) == multiset(t)
    ensures s == t
  {
    assert |s| == |multiset(s)| == |multiset(t)| == |t|;
    if s != [] {
      assert s[0] == t[0] by {
        assert s[0] in multiset(t) && t[0] in multiset(s);
      }
      TailMultiset(s);
      TailMultiset(t);
      AscendingUnique(s[1..], t[1..]);
    }
  }

  datatype LockedField = LaneCycleSize | FreshSubmissionSlots

  const ROLLOUT_LOCKED_FIELDS := [LaneCycleSize, FreshSubmissionSlots]

  /** The fields that decide lanes are the same, whatever order the slots are written in. */
  ghost predicate SameField(f: LockedField, a: Policy, b: Policy) {
    match f
    case LaneCycleSize => a.cycle == b.cycle
    case FreshSubmissionSlots => multiset(a.slots) == multiset(b.slots)
  }

  ghost predicate SameLanes(a: Policy, b: Policy) {
    SameField(LaneCycleSize, a, b) && SameField(FreshSubmissionSlots, a, b)
  }

  /** Names of the locked fields a proposal would change. */
  method RolloutLockedChange(current: Policy, proposed: Policy) returns (changed: seq<LockedField>)
    ensures forall f :: f in changed <==> !SameField(f, current, proposed)
    ensures NoRepeats(changed)
    ensures changed == [] <==> SameLanes(current, proposed)
  {
    changed := [];
    for i := 0 to |ROLLOUT_LOCKED_FIELDS|
      invariant forall f :: f in changed <==> f in ROLLOUT_LOCKED_FIELDS[..i] && !SameField(f, current, proposed)
      invariant NoRepeats(changed)
    {
      var field := ROLLOUT_LOCKED_FIELDS[i];
      assert ROLLOUT_LOCKED_FIELDS[..i + 1] == ROLLOUT_LOCKED_FIELDS[..i] + [field];
      assert field !in ROLLOUT_LOCKED_FIELDS[..i];
      SortedDecides(current.slots, proposed.slots);
      var differs := match field
        case LaneCycleSize => current.cycle != proposed.cycle
        case FreshSubmissionSlots => Sorted(current.slots) != Sorted(proposed.slots);
      if differs {
        changed := changed + [field];
      }
    }
    assert ROLLOUT_LOCKED_FIELDS[0] == LaneCycleSize && ROLLOUT_LOCKED_FIELDS[1] == FreshSubmissionSlots;
    assert LaneCycleSize in ROLLOUT_LOCKED_FIELDS && FreshSubmissionSlots in ROLLOUT_LOCKED_FIELDS;
    assert ROLLOUT_LOCKED_FIELDS[..|ROLLOUT_LOCKED_FIELDS|] == ROLLOUT_LOCKED_FIELDS;
    assert changed != [] ==> changed[0] in changed;
  }

  lemma SortedDecides(a: seq<int>, b: seq<int>)
    ensures Sorted(a) == Sorted(b) <==> multiset(a) == multiset(b)
  {
    SortedFacts(a);
    SortedFacts(b);
    if multiset(a) == multiset(b) {
      AscendingUnique(Sorted(a), Sorted(b));
    }
  }

  /** While a rollout is open only proposals that leave the locked fields alone are accepted. */
  ghost predicate AcceptedWhileOpen(revisions: seq<Policy>) {
    && (forall i :: 0 <= i < |revisions| ==> Coherent(revisions[i]))
    && forall i :: 0 <= i < |revisions| - 1 ==> SameLanes(revisions[i], revisions[i + 1])
  }

  /** So every lane decision of an open rollout is the one it started with. */
  lemma {:induction false} LanesFixedWhileOpen(revisions: seq<Policy>, i: nat, completed: nat)
    requires AcceptedWhileOpen(revisions) && i < |revisions|
    ensures FreshDue(revisions[0], completed) == FreshDue(revisions[i], completed)
  {
    if i > 0 {
      LanesFixedWhileOpen(revisions, i - 1, completed);
      var before, after := revisions[i - 1], revisions[i - 1 + 1];
      assert SameLanes(before, after);
      var slot := completed % before.cycle;
      assert slot in before.slots <==> slot in multiset(before.slots);
      assert slot in after.slots <==> slot in multiset(after.slots);
    }
  }
}
