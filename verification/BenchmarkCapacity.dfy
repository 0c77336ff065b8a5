/** Benchmark slots a validator advertises: their validity, the free ones, and the token it signs. */
module BenchmarkCapacity {
  import opened Options
  import opened Printing
  import opened CanonicalJson
  import opened Lexicographic
  import opened Sequences
  import opened BenchmarkProgress
  import Timestamps
  import Uuid

  datatype Admission = Accepting | Draining | Paused | ResourceConstrained

  datatype ActiveSlot = ActiveSlot(slotId: string, agent: nat, benchVersion: nat, progress: Option<Progress>, healthy: bool)

  datatype Capacity = Capacity(configured: nat, healthy: seq<string>, admission: Admission, active: seq<ActiveSlot>)

  datatype Fault = RepeatedHealthy | RepeatedActive | HealthyBeyondConfigured | ActiveBeyondConfigured | HealthyWhileClosed

  // ---------------------------------------------------------------- slots

  function SlotName(index: nat): string {
    "slot-" + Decimal(index)
  }

  function Configured(n: nat): set<string> {
    set i | 0 <= i < n :: SlotName(i)
  }

  function ActiveIds(c: Capacity): seq<string> {
    seq(|c.active|, i requires 0 <= i < |c.active| => c.active[i].slotId)
  }

  ghost predicate SlotsCoherent(c: Capacity) {
    && NoRepeats(c.healthy) && NoRepeats(ActiveIds(c))
    && Elements(c.healthy) <= Configured(c.configured)
    && Elements(ActiveIds(c)) <= Configured(c.configured)
    && (c.admission != Accepting ==> c.healthy == [])
  }

  ghost predicate ValidActive(a: ActiveSlot) {
    && a.agent < Uuid.Pow16(32) && a.benchVersion >= 1
    && (a.progress.Some? ==> ValidProgress(a.progress.value))
  }

  ghost predicate ValidCapacity(c: Capacity) {
    && 1 <= c.configured <= 8 && |c.healthy| <= 8 && |c.active| <= 8
    && (forall a <- c.active :: ValidActive(a))
    && SlotsCoherent(c)
  }

  /** The checks in the order the model runs them; None accepts. */
  function ValidateSlots(c: Capacity): (fault: Option<Fault>)
    ensures fault.None? <==> SlotsCoherent(c)
    ensures fault == Some(RepeatedHealthy) <==> !NoRepeats(c.healthy)
    ensures fault == Some(RepeatedActive) <==> NoRepeats(c.healthy) && !NoRepeats(ActiveIds(c))
    ensures fault == Some(HealthyBeyondConfigured) ==> exists s <- c.healthy :: s !in Configured(c.configured)
    ensures fault == Some(ActiveBeyondConfigured) ==> exists s <- ActiveIds(c) :: s !in Configured(c.configured)
    ensures fault == Some(HealthyWhileClosed) ==> c.admission != Accepting && c.healthy != []
  {
    ElementsSize(c.healthy);
    ElementsSize(ActiveIds(c));
    var configured, healthy, active := Configured(c.configured), Elements(c.healthy), Elements(ActiveIds(c));
    assert healthy == {} <==> c.healthy == [] by {
      assert c.healthy != [] ==> c.healthy[0] in healthy;
    }
    if |healthy| != |c.healthy| then Some(RepeatedHealthy)
    else if |active| != |ActiveIds(c)| then Some(RepeatedActive)
    else if !(healthy <= configured) then Some(HealthyBeyondConfigured)
    else if !(active <= configured) then Some(ActiveBeyondConfigured)
    else if c.admission != Accepting && healthy != {} then Some(HealthyWhileClosed)
    else None
  }

  function NotIn(slots: seq<string>, taken: set<string>): seq<string> {
    if slots == [] then []
    else if slots[0] in taken then NotIn(slots[1..], taken)
    else [slots[0]] + NotIn(slots[1..], taken)
  }

  function FreeHealthySlots(c: Capacity): seq<string> {
    if c.admission != Accepting then [] else NotIn(c.healthy, Elements(ActiveIds(c)))
  }

  lemma {:induction false} NotInFacts(slots: seq<string>, taken: set<string>)
    requires NoRepeats(slots)
    ensures NoRepeats(NotIn(slots, taken))
    ensures forall s :: s in NotIn(slots, taken) <==> s in slots && s !in taken
  {
    if slots != [] {
      NotInFacts(slots[1..], taken);
      assert slots == [slots[0]] + slots[1..];
    }
  }

  lemma OneSlotMore(n: nat)
    ensures Configured(n + 1) == Configured(n) + {SlotName(n)} && SlotName(n) !in Configured(n)
  {
    if SlotName(n) in Configured(n) {
      var i :| 0 <= i < n && SlotName(i) == SlotName(n);
      SlotNameInjective(i, n);
    }
  }

  lemma {:induction false} ConfiguredSize(n: nat)
    ensures |Configured(n)| == n
  {
    if n == 0 {
      assert Configured(0) == {};
    } else {
      ConfiguredSize(n - 1);
      OneSlotMore(n - 1);
    }
  }

  lemma SlotNameInjective(i: nat, j: nat)
    requires SlotName(i) == SlotName(j)
    ensures i == j
  {
    assert Decimal(i) == SlotName(i)[5..] == SlotName(j)[5..] == Decimal(j);
    DecimalRoundTrip(i);
    DecimalRoundTrip(j);
  }

  /** Some strictly increasing choice of places picks `part` out of `whole`. */
  ghost predicate PicksInOrder(part: seq<string>, whole: seq<string>, places: seq<nat>) {
    && |places| == |part|
    && (forall i, j :: 0 <= i < j < |places| ==> places[i] < places[j])
    && (forall i :: 0 <= i < |places| ==> places[i] < |whole| && whole[places[i]] == part[i])
  }

  lemma {:induction false} NotInKeepsOrder(slots: seq<string>, taken: set<string>) returns (places: seq<nat>)
    ensures PicksInOrder(NotIn(slots, taken), slots, places)
  {
    if slots == [] {
      places := [];
    } else {
      var rest := NotInKeepsOrder(slots[1..], taken);
      var shifted: seq<nat> := seq(|rest|, i requires 0 <= i < |rest| => rest[i] + 1);
      places := if slots[0] in taken then shifted else [0] + shifted;
    }
  }

  /** The free slots are exactly the healthy ones nothing runs in, in advertised order, while accepting. */
  lemma {:induction false} FreeSlotsExactly(c: Capacity)
    requires ValidCapacity(c)
    ensures forall s ::
      s in FreeHealthySlots(c) <==> c.admission == Accepting && s in c.healthy && forall a <- c.active :: a.slotId != s
    ensures exists places :: PicksInOrder(FreeHealthySlots(c), c.healthy, places)
  {
    var ids := ActiveIds(c);
    forall s
      ensures s in Elements(ids) <==> exists a <- c.active :: a.slotId == s
    {
      if s in ids {
        var i :| 0 <= i < |ids| && ids[i] == s;
        assert c.active[i] in c.active;
      }
      if a :| a in c.active && a.slotId == s {
        var i :| 0 <= i < |c.active| && c.active[i] == a;
        assert ids[i] == s;
      }
    }
    NotInFacts(c.healthy, Elements(ids));
    if c.admission == Accepting {
      var places := NotInKeepsOrder(c.healthy, Elements(ids));
      assert PicksInOrder(FreeHealthySlots(c), c.healthy, places);
    } else {
      var none: seq<nat> := [];
      assert PicksInOrder(FreeHealthySlots(c), c.healthy, none);
    }
  }

  /** Work is only ever offered to distinct, configured, idle slots, so nothing is oversubscribed. */
  lemma FreeSlotsAreFree(c: Capacity)
    requires ValidCapacity(c)
    ensures NoRepeats(FreeHealthySlots(c))
    ensures Elements(FreeHealthySlots(c)) <= Configured(c.configured)
    ensures Elements(FreeHealthySlots(c)) !! Elements(ActiveIds(c))
    ensures |FreeHealthySlots(c)| + |c.active| <= c.configured <= 8
  {
    var free, ids := FreeHealthySlots(c), ActiveIds(c);
    NotInFacts(c.healthy, Elements(ids));
    assert forall s <- free :: s in Elements(c.healthy);
    ElementsSize(free);
    ElementsSize(ids);
    ConfiguredSize(c.configured);
    var used := Elements(free) + Elements(ids);
    assert used <= Configured(c.configured);
    assert |used| == |Elements(free)| + |Elements(ids)|;
    assert Configured(c.configured) == used + (Configured(c.configured) - used);
  }

  // ---------------------------------------------------------------- the signed document

  function AdmissionText(a: Admission): string {
    match a
    case Accepting => "accepting"
    case Draining => "draining"
    case Paused => "paused"
    case ResourceConstrained => "resource_constrained"
  }

  function OptionalNumber(n: Option<nat>): Json {
    match n case None => Null case Some(v) => Num(v)
  }

  function OptionalText(s: Option<string>): Json {
    match s case None => Null case Some(v) => Str(v)
  }

  function ProgressJson(p: Option<Progress>): Json {
    match p
    case None => Null
    case Some(v) => Obj([
      Field("completed", OptionalNumber(v.completed)),
      Field("run_token", OptionalText(v.runToken)),
      Field("stage", Str(StageText(v.stage))),
      Field("ticket_deadline", Str(Timestamps.JsonText(v.deadline))),
      Field("total", OptionalNumber(v.total))])
  }

  function ActiveJson(a: ActiveSlot): Json {
    Obj([
      Field("agent_id", Str(Uuid.Text(a.agent))),
      Field("bench_version", Num(a.benchVersion)),
      Field("healthy", Bool(a.healthy)),
      Field("progress", ProgressJson(a.progress)),
      Field("slot_id", Str(a.slotId))])
  }

  function ActiveArray(active: seq<ActiveSlot>): seq<Json> {
    seq(|active|, i requires 0 <= i < |active| => ActiveJson(active[i]))
  }

  function SlotArray(slots: seq<string>): seq<Json> {
    seq(|slots|, i requires 0 <= i < |slots| => Str(slots[i]))
  }

  function CapacityJson(c: Capacity): Json {
    Obj([
      Field("active", Arr(ActiveArray(c.active))),
      Field("admission", Str(AdmissionText(c.admission))),
      Field("configured_slots", Num(c.configured)),
      Field("healthy_slots", Arr(SlotArray(c.healthy)))])
  }

  /** An absent capacity signs as an empty payload. */
  function Payload(c: Option<Capacity>): string {
    match c case None => "" case Some(v) => Print(CapacityJson(v))
  }

  function SigningToken(c: Option<Capacity>): string {
    match c case None => "0:" case Some(v) => Token(Print(CapacityJson(v)))
  }

  lemma SigningTokenIsToken(c: Option<Capacity>)
    ensures SigningToken(c) == Token(Payload(c))
  {
    assert Decimal(0) == "0";
  }

  // ---------------------------------------------------------------- the document, member by member

  ghost function NumberOrNull(n: Option<nat>): string {
    if n.None? then "null" else Decimal(n.value)
  }

  /** An active slot's progress: null, or its five members in key order with absent counts as null. */
  lemma ProgressText(p: Progress)
    ensures Print(ProgressJson(None)) == "null"
    ensures Print(ProgressJson(Some(p))) == "{" + Join([
      "\"completed\":" + NumberOrNull(p.completed),
      "\"run_token\":" + (if p.runToken.None? then "null" else "\"" + p.runToken.value + "\""),
      "\"stage\":" + ("\"" + StageText(p.stage) + "\""),
      "\"ticket_deadline\":" + ("\"" + Timestamps.JsonText(p.deadline) + "\""),
      "\"total\":" + NumberOrNull(p.total)]) + "}"
  {
    var fields := ProgressJson(Some(p)).fields;
    ObjectText(fields);
    ProgressKeys();
    assert Members(fields) == [
      "\"completed\":" + NumberOrNull(p.completed),
      "\"run_token\":" + (if p.runToken.None? then "null" else "\"" + p.runToken.value + "\""),
      "\"stage\":" + ("\"" + StageText(p.stage) + "\""),
      "\"ticket_deadline\":" + ("\"" + Timestamps.JsonText(p.deadline) + "\""),
      "\"total\":" + NumberOrNull(p.total)];
  }

  lemma ProgressKeys()
    ensures Quoted("completed") + ":" == "\"completed\":" && Quoted("run_token") + ":" == "\"run_token\":"
    ensures Quoted("stage") + ":" == "\"stage\":" && Quoted("ticket_deadline") + ":" == "\"ticket_deadline\":"
    ensures Quoted("total") + ":" == "\"total\":"
  {
  }

  lemma ActiveKeys()
    ensures Quoted("agent_id") + ":" == "\"agent_id\":" && Quoted("bench_version") + ":" == "\"bench_version\":"
    ensures Quoted("healthy") + ":" == "\"healthy\":" && Quoted("progress") + ":" == "\"progress\":"
    ensures Quoted("slot_id") + ":" == "\"slot_id\":"
  {
  }

  lemma ActiveText(a: ActiveSlot)
    ensures Print(ActiveJson(a)) == "{" + Join([
      "\"agent_id\":" + ("\"" + Uuid.Text(a.agent) + "\""),
      "\"bench_version\":" + Decimal(a.benchVersion),
      "\"healthy\":" + (if a.healthy then "true" else "false"),
      "\"progress\":" + Print(ProgressJson(a.progress)),
      "\"slot_id\":" + ("\"" + a.slotId + "\"")]) + "}"
  {
    var fields := ActiveJson(a).fields;
    ObjectText(fields);
    ActiveKeys();
    assert Members(fields) == [
      "\"agent_id\":" + ("\"" + Uuid.Text(a.agent) + "\""),
      "\"bench_version\":" + Decimal(a.benchVersion),
      "\"healthy\":" + (if a.healthy then "true" else "false"),
      "\"progress\":" + Print(ProgressJson(a.progress)),
      "\"slot_id\":" + ("\"" + a.slotId + "\"")];
  }

  lemma CapacityKeys()
    ensures Quoted("active") + ":" == "\"active\":" && Quoted("admission") + ":" == "\"admission\":"
    ensures Quoted("configured_slots") + ":" == "\"configured_slots\":"
    ensures Quoted("healthy_slots") + ":" == "\"healthy_slots\":"
  {
  }

  lemma AdmissionTexts(a: Admission)
    ensures Quoted(AdmissionText(a)) == match a
      case Accepting => "\"accepting\""
      case Draining => "\"draining\""
      case Paused => "\"paused\""
      case ResourceConstrained => "\"resource_constrained\""
  {
  }

  /** What a capacity signs: four members in key order, arrays in advertised order, nothing between them. */
  lemma {:induction false} CapacityText(c: Capacity)
    ensures Payload(None) == ""
    ensures Payload(Some(c)) == "{" + Join([
      "\"active\":" + ("[" + (if c.active == [] then "" else Join(Texts(ActiveArray(c.active)))) + "]"),
      "\"admission\":" + (match c.admission
        case Accepting => "\"accepting\""
        case Draining => "\"draining\""
        case Paused => "\"paused\""
        case ResourceConstrained => "\"resource_constrained\""),
      "\"configured_slots\":" + Decimal(c.configured),
      "\"healthy_slots\":" + ("[" + (if c.healthy == [] then "" else Join(Texts(SlotArray(c.healthy)))) + "]")]) + "}"
  {
    var fields := CapacityJson(c).fields;
    ObjectText(fields);
    CapacityKeys();
    AdmissionTexts(c.admission);
    ArrayText(ActiveArray(c.active));
    ArrayText(SlotArray(c.healthy));
    var members := Members(fields);
    assert members == [members[0], members[1], members[2], members[3]];
  }

  // ---------------------------------------------------------------- the document is printable

  lemma PlainDigits(s: string)
    requires AllDigits(s)
    ensures Plain(s)
  {
  }

  lemma PlainConcat(s: string, t: string)
    requires Plain(s) && Plain(t)
    ensures Plain(s + t)
  {
  }

  lemma {:induction false} PlainHex(n: nat, width: nat)
    ensures Plain(Uuid.Hex(n, width))
  {
    if width > 0 {
      PlainHex(n / 16, width - 1);
      assert Plain(Uuid.DIGITS);
      assert Uuid.DIGITS[n % 16] in Uuid.DIGITS;
    }
  }

  lemma PlainHyphenated(text: string, at: nat)
    requires Plain(text) && at <= |text|
    ensures Plain(Uuid.Hyphenated(text, at))
  {
    forall c | c in text[..at] || c in text[at..]
      ensures c in text
    {
      assert text == text[..at] + text[at..];
    }
    PlainConcat(text[..at], "-");
    PlainConcat(text[..at] + "-", text[at..]);
  }

  lemma PlainUuid(n: nat)
    ensures Plain(Uuid.Text(n))
  {
    PlainHex(n, 32);
    var t := Uuid.Hex(n, 32);
    PlainHyphenated(t, 8);
    PlainHyphenated(Uuid.Hyphenated(t, 8), 13);
    PlainHyphenated(Uuid.Hyphenated(Uuid.Hyphenated(t, 8), 13), 18);
    PlainHyphenated(Uuid.Hyphenated(Uuid.Hyphenated(Uuid.Hyphenated(t, 8), 13), 18), 23);
  }

  lemma PlainTimestamp(t: Timestamps.Timestamp)
    ensures Plain(Timestamps.JsonText(t))
  {
    PlainDigits(Padded(t.year, 4));
    PlainDigits(Padded(t.month, 2));
    PlainDigits(Padded(t.day, 2));
    PlainDigits(Padded(t.hour, 2));
    PlainDigits(Padded(t.minute, 2));
    PlainDigits(Padded(t.second, 2));
    PlainDigits(Padded(t.micro, 6));
  }

  lemma PlainStage(s: Stage)
    ensures Plain(StageText(s))
  {
  }

  lemma PlainAdmission(a: Admission)
    ensures Plain(AdmissionText(a))
  {
  }

  lemma PlainProgressNames()
    ensures Plain("completed") && Plain("run_token") && Plain("stage") && Plain("ticket_deadline") && Plain("total")
  {
  }

  lemma ProgressNamesSorted()
    ensures Less("completed", "run_token")
    ensures Less("run_token", "stage")
    ensures Less("stage", "ticket_deadline")
    ensures Less("ticket_deadline", "total")
  {
    DecidedAt("completed", "run_token", 0);
    DecidedAt("run_token", "stage", 0);
    DecidedAt("stage", "ticket_deadline", 0);
    DecidedAt("ticket_deadline", "total", 1);
  }

  lemma PlainActiveNames()
    ensures Plain("agent_id") && Plain("bench_version") && Plain("healthy") && Plain("progress") && Plain("slot_id")
  {
  }

  lemma ActiveNamesSorted()
    ensures Less("agent_id", "bench_version")
    ensures Less("bench_version", "healthy")
    ensures Less("healthy", "progress")
    ensures Less("progress", "slot_id")
  {
    DecidedAt("agent_id", "bench_version", 0);
    DecidedAt("bench_version", "healthy", 0);
    DecidedAt("healthy", "progress", 0);
    DecidedAt("progress", "slot_id", 0);
  }

  lemma PlainCapacityNames()
    ensures Plain("active") && Plain("admission") && Plain("configured_slots") && Plain("healthy_slots")
  {
  }

  lemma CapacityNamesSorted()
    ensures Less("active", "admission")
    ensures Less("admission", "configured_slots")
    ensures Less("configured_slots", "healthy_slots")
  {
    DecidedAt("active", "admission", 1);
    DecidedAt("admission", "configured_slots", 0);
    DecidedAt("configured_slots", "healthy_slots", 0);
  }

  lemma PlainSlot(c: Capacity, s: string)
    requires s in Configured(c.configured)
    ensures Plain(s)
  {
    var i :| 0 <= i < c.configured && SlotName(i) == s;
    PlainDigits(Decimal(i));
  }

  lemma {:induction false} ProgressWellFormed(p: Progress)
    requires ValidProgress(p)
    ensures WellFormed(ProgressJson(Some(p)))
  {
    PlainTimestamp(p.deadline);
    PlainStage(p.stage);
    assert p.runToken.Some? ==> Plain(p.runToken.value);
    PlainProgressNames();
    ProgressNamesSorted();
    WellFormedObject(ProgressJson(Some(p)).fields);
  }

  lemma {:induction false} ActiveWellFormed(c: Capacity, a: ActiveSlot)
    requires ValidActive(a) && a.slotId in Configured(c.configured)
    ensures WellFormed(ActiveJson(a))
  {
    PlainUuid(a.agent);
    PlainSlot(c, a.slotId);
    if a.progress.Some? {
      ProgressWellFormed(a.progress.value);
    }
    PlainActiveNames();
    ActiveNamesSorted();
    WellFormedObject(ActiveJson(a).fields);
  }

  lemma ArraysWellFormed(c: Capacity)
    requires ValidCapacity(c)
    ensures WellFormed(Arr(ActiveArray(c.active))) && WellFormed(Arr(SlotArray(c.healthy)))
  {
    forall j | j in ActiveArray(c.active)
      ensures WellFormed(j)
    {
      var i :| 0 <= i < |c.active| && ActiveJson(c.active[i]) == j;
      assert c.active[i] in c.active;
      assert ActiveIds(c)[i] in Elements(ActiveIds(c));
      ActiveWellFormed(c, c.active[i]);
    }
    forall j | j in SlotArray(c.healthy)
      ensures WellFormed(j)
    {
      var i :| 0 <= i < |c.healthy| && Str(c.healthy[i]) == j;
      assert c.healthy[i] in Elements(c.healthy);
      PlainSlot(c, c.healthy[i]);
    }
  }

  lemma {:induction false} CapacityWellFormed(c: Capacity)
    requires ValidCapacity(c)
    ensures WellFormed(CapacityJson(c))
  {
    ArraysWellFormed(c);
    PlainAdmission(c.admission);
    PlainCapacityNames();
    CapacityNamesSorted();
    WellFormedObject(CapacityJson(c).fields);
  }

  // ---------------------------------------------------------------- the document determines the capacity

  lemma ProgressJsonInjective(a: Option<Progress>, b: Option<Progress>)
    requires a.Some? ==> ValidProgress(a.value)
    requires b.Some? ==> ValidProgress(b.value)
    requires ProgressJson(a) == ProgressJson(b)
    ensures a == b
  {
    if a.Some? {
      var x, y := ProgressJson(a).fields, ProgressJson(b).fields;
      assert x[0] == y[0] && x[1] == y[1] && x[2] == y[2] && x[3] == y[3] && x[4] == y[4];
      StageReadsBack(a.value.stage);
      StageReadsBack(b.value.stage);
      Timestamps.JsonTextInjective(a.value.deadline, b.value.deadline);
    }
  }

  lemma ActiveJsonInjective(a: ActiveSlot, b: ActiveSlot)
    requires ValidActive(a) && ValidActive(b) && ActiveJson(a) == ActiveJson(b)
    ensures a == b
  {
    var x, y := ActiveJson(a).fields, ActiveJson(b).fields;
    assert x[0] == y[0] && x[1] == y[1] && x[2] == y[2] && x[3] == y[3] && x[4] == y[4];
    Uuid.TextOrder(a.agent, b.agent);
    ProgressJsonInjective(a.progress, b.progress);
  }

  lemma CapacityJsonInjective(a: Capacity, b: Capacity)
    requires ValidCapacity(a) && ValidCapacity(b) && CapacityJson(a) == CapacityJson(b)
    ensures a == b
  {
    var x, y := CapacityJson(a).fields, CapacityJson(b).fields;
    assert x[0] == y[0] && x[1] == y[1] && x[2] == y[2] && x[3] == y[3];
    assert ActiveArray(a.active) == ActiveArray(b.active) && SlotArray(a.healthy) == SlotArray(b.healthy);
    assert |a.active| == |b.active| && |a.healthy| == |b.healthy|;
    forall i | 0 <= i < |a.active|
      ensures a.active[i] == b.active[i]
    {
      assert ActiveArray(a.active)[i] == ActiveArray(b.active)[i];
      ActiveJsonInjective(a.active[i], b.active[i]);
    }
    forall i | 0 <= i < |a.healthy|
      ensures a.healthy[i] == b.healthy[i]
    {
      assert SlotArray(a.healthy)[i] == SlotArray(b.healthy)[i];
    }
  }

  /** Different capacities, or a capacity and none, never sign the same payload. */
  lemma PayloadInjective(a: Option<Capacity>, b: Option<Capacity>)
    requires a.Some? ==> ValidCapacity(a.value)
    requires b.Some? ==> ValidCapacity(b.value)
    requires Payload(a) == Payload(b)
    ensures a == b
  {
    if a.Some? {
      FirstCharacter(CapacityJson(a.value));
      CapacityWellFormed(a.value);
    }
    if b.Some? {
      FirstCharacter(CapacityJson(b.value));
      CapacityWellFormed(b.value);
    }
    if a.Some? && b.Some? {
      PrintInjective(CapacityJson(a.value), CapacityJson(b.value));
      CapacityJsonInjective(a.value, b.value);
    }
  }

  /** The token ends where it says, whatever follows it, and names one capacity. */
  lemma TokenDecodesOneWay(a: Option<Capacity>, b: Option<Capacity>, x: string, y: string)
    requires a.Some? ==> ValidCapacity(a.value)
    requires b.Some? ==> ValidCapacity(b.value)
    requires SigningToken(a) + x == SigningToken(b) + y
    ensures a == b && x == y
  {
    SigningTokenIsToken(a);
    SigningTokenIsToken(b);
    TokenEnds(Payload(a), Payload(b), x, y);
    PayloadInjective(a, b);
  }
}
