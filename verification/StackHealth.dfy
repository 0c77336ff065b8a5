/** Observed runtime health of the validator stack, the rules it obeys and the token it signs. */
module StackHealth {
  import opened Options
  import opened Printing
  import opened CanonicalJson
  import opened Lexicographic

  datatype HealthState = Healthy | Degraded | Unreachable | IdentityMismatch | Unknown

  datatype Identity = Identity(imageDigest: Option<string>, sourceRevision: Option<string>, version: Option<string>)

  datatype Component = Component(
    health: HealthState,
    required: bool,
    observedAt: Option<nat>,
    ready: Option<bool>,
    modelReady: Option<bool>,
    identity: Option<Identity>)

  datatype Stack = Stack(
    dittoSubnet: Component,
    dittobenchApi: Component,
    sandboxDocker: Component,
    modelRelay: Option<Component>,
    pylon: Component,
    ollama: Option<Component>)

  // ---------------------------------------------------------------- validity

  predicate LowerHex(s: string) {
    forall c <- s :: '0' <= c <= '9' || 'a' <= c <= 'f'
  }

  predicate IsDigest(s: string) {
    |s| == 71 && s[..7] == "sha256:" && LowerHex(s[7..])
  }

  predicate IsRevision(s: string) {
    |s| == 40 && LowerHex(s)
  }

  predicate Alphanumeric(c: char) {
    '0' <= c <= '9' || 'A' <= c <= 'Z' || 'a' <= c <= 'z'
  }

  predicate IsVersion(s: string) {
    && 1 <= |s| <= 64 && Alphanumeric(s[0])
    && forall c <- s :: Alphanumeric(c) || c in {'.', '_', '+', '/', '-'}
  }

  ghost predicate ValidIdentity(i: Identity) {
    && (i.imageDigest.Some? ==> IsDigest(i.imageDigest.value))
    && (i.sourceRevision.Some? ==> IsRevision(i.sourceRevision.value))
    && (i.version.Some? ==> IsVersion(i.version.value))
    && (i.imageDigest.Some? || i.sourceRevision.Some? || i.version.Some?)
  }

  /** Nothing is observed of an unknown component; everything else carries a probe time. */
  ghost predicate ValidComponent(c: Component) {
    && (c.identity.Some? ==> ValidIdentity(c.identity.value))
    && (c.health.Unknown? <==> c.observedAt.None?)
    && (c.health.Unknown? ==> c.ready.None? && c.modelReady.None? && c.identity.None?)
    && (c.health.Unreachable? ==> c.ready != Some(true) && c.modelReady != Some(true) && c.identity.None?)
    && (c.health.IdentityMismatch? ==> c.identity.Some?)
    && (c.health.Healthy? ==> c.ready != Some(false))
  }

  ghost predicate ValidStack(s: Stack) {
    && ValidComponent(s.dittoSubnet) && ValidComponent(s.dittobenchApi)
    && ValidComponent(s.sandboxDocker) && ValidComponent(s.pylon)
    && (s.modelRelay.Some? ==> ValidComponent(s.modelRelay.value))
    && (s.ollama.Some? ==> ValidComponent(s.ollama.value))
    && s.dittoSubnet.required && !s.dittoSubnet.health.Unreachable? && !s.dittoSubnet.health.Unknown?
  }

  /** The three patterns of an observed identity, character by character. */
  lemma IdentityPatterns(s: string)
    ensures IsDigest("sha256:" + s) <==> |s| == 64 && forall c <- s :: c in "0123456789abcdef"
    ensures IsRevision(s) <==> |s| == 40 && forall c <- s :: c in "0123456789abcdef"
    ensures IsVersion(s) <==>
      && 1 <= |s| <= 64 && s[0] !in "._+/-"
      && forall c <- s :: 'A' <= c <= 'Z' || 'a' <= c <= 'z' || c in "0123456789" || c in "._+/-"
  {
    assert ("sha256:" + s)[..7] == "sha256:" && ("sha256:" + s)[7..] == s;
    forall c: char
      ensures c in "0123456789abcdef" <==> '0' <= c <= '9' || 'a' <= c <= 'f'
      ensures c in "0123456789" <==> '0' <= c <= '9'
      ensures c in "._+/-" <==> c in {'.', '_', '+', '/', '-'}
    {
      CharacterClasses(c);
    }
    assert |s| > 0 ==> s[0] in s;
  }

  lemma CharacterClasses(c: char)
    ensures c in "0123456789abcdef" <==> '0' <= c <= '9' || 'a' <= c <= 'f'
    ensures c in "0123456789" <==> '0' <= c <= '9'
    ensures c in "._+/-" <==> c in {'.', '_', '+', '/', '-'}
  {
    var digits, hex := "0123456789", "0123456789abcdef";
    if '0' <= c <= '9' {
      assert digits[c as int - '0' as int] == c && hex[c as int - '0' as int] == c;
    }
    if 'a' <= c <= 'f' {
      assert hex[c as int - 'a' as int + 10] == c;
    }
    var marks := "._+/-";
    assert marks[0] == '.' && marks[1] == '_' && marks[2] == '+' && marks[3] == '/' && marks[4] == '-';
  }

  datatype ObservationFault = ObservedUnknown | NeverObserved | UnreachableButSeen | MismatchUnseen | HealthyUnready

  /** The checks on one component in the order the model runs them; None accepts. */
  function ObservationFaultOf(c: Component): (fault: Option<ObservationFault>)
    ensures (c.identity.Some? ==> ValidIdentity(c.identity.value)) ==> (fault.None? <==> ValidComponent(c))
    ensures fault == Some(ObservedUnknown) ==> c.health == Unknown
    ensures fault == Some(NeverObserved) <==> c.health != Unknown && c.observedAt.None?
    ensures fault == Some(UnreachableButSeen) ==> c.health == Unreachable
    ensures fault == Some(MismatchUnseen) ==> c.health == IdentityMismatch && c.identity.None?
    ensures fault == Some(HealthyUnready) ==> c.health == Healthy && c.ready == Some(false)
  {
    if c.health.Unknown? then
      if c.observedAt.Some? || c.ready.Some? || c.modelReady.Some? || c.identity.Some? then Some(ObservedUnknown) else None
    else if c.observedAt.None? then Some(NeverObserved)
    else if c.health.Unreachable? && (c.ready == Some(true) || c.modelReady == Some(true) || c.identity.Some?)
    then Some(UnreachableButSeen)
    else if c.health.IdentityMismatch? && c.identity.None? then Some(MismatchUnseen)
    else if c.health.Healthy? && c.ready == Some(false) then Some(HealthyUnready)
    else None
  }

  // ---------------------------------------------------------------- the signed document

  function StateText(h: HealthState): string {
    match h
    case Healthy => "healthy"
    case Degraded => "degraded"
    case Unreachable => "unreachable"
    case IdentityMismatch => "identity_mismatch"
    case Unknown => "unknown"
  }

  function Text(s: Option<string>): Option<Json> {
    match s case None => None case Some(v) => Some(Str(v))
  }

  function Flag(b: Option<bool>): Option<Json> {
    match b case None => None case Some(v) => Some(Bool(v))
  }

  function IdentityEntries(i: Identity): seq<Entry> {
    [Entry("image_digest", Text(i.imageDigest)),
     Entry("source_revision", Text(i.sourceRevision)),
     Entry("version", Text(i.version))]
  }

  function ComponentEntries(c: Component): seq<Entry> {
    [Entry("health", Some(Str(StateText(c.health)))),
     Entry("model_ready", Flag(c.modelReady)),
     Entry("observed_at", match c.observedAt case None => None case Some(n) => Some(Num(n))),
     Entry("observed_identity", match c.identity case None => None case Some(i) => Some(Obj(Compact(IdentityEntries(i))))),
     Entry("ready", Flag(c.ready)),
     Entry("required", Some(Bool(c.required)))]
  }

  function ComponentJson(c: Component): Json {
    Obj(Compact(ComponentEntries(c)))
  }

  function OptionalComponent(c: Option<Component>): Option<Json> {
    match c case None => None case Some(v) => Some(ComponentJson(v))
  }

  function StackEntries(s: Stack): seq<Entry> {
    [Entry("ditto_subnet", Some(ComponentJson(s.dittoSubnet))),
     Entry("dittobench_api", Some(ComponentJson(s.dittobenchApi))),
     Entry("model_relay", OptionalComponent(s.modelRelay)),
     Entry("ollama", OptionalComponent(s.ollama)),
     Entry("pylon", Some(ComponentJson(s.pylon))),
     Entry("sandbox_docker", Some(ComponentJson(s.sandboxDocker)))]
  }

  function StackJson(s: Stack): Json {
    Obj(Compact(StackEntries(s)))
  }

  function SigningToken(s: Stack): string {
    Token(Print(StackJson(s)))
  }

  // ---------------------------------------------------------------- the document, member by member

  ghost function FlagMember(key: string, flag: Option<bool>): Option<string> {
    if flag.None? then None else Some(key + if flag.value then "true" else "false")
  }

  ghost function TextMember(key: string, text: Option<string>): Option<string> {
    if text.None? then None else Some(key + ("\"" + text.value + "\""))
  }

  lemma IdentityKeys()
    ensures Quoted("image_digest") + ":" == "\"image_digest\":"
    ensures Quoted("source_revision") + ":" == "\"source_revision\":"
    ensures Quoted("version") + ":" == "\"version\":"
  {
  }

  /** The present fields of an identity, in key order. */
  lemma IdentityText(i: Identity)
    ensures Members(Compact(IdentityEntries(i))) == Present([
      TextMember("\"image_digest\":", i.imageDigest),
      TextMember("\"source_revision\":", i.sourceRevision),
      TextMember("\"version\":", i.version)])
  {
    IdentityKeys();
    CompactMembers(IdentityEntries(i), [
      TextMember("\"image_digest\":", i.imageDigest),
      TextMember("\"source_revision\":", i.sourceRevision),
      TextMember("\"version\":", i.version)]);
  }

  lemma ComponentKeys()
    ensures Quoted("health") + ":" == "\"health\":" && Quoted("model_ready") + ":" == "\"model_ready\":"
    ensures Quoted("observed_at") + ":" == "\"observed_at\":"
    ensures Quoted("observed_identity") + ":" == "\"observed_identity\":"
    ensures Quoted("ready") + ":" == "\"ready\":" && Quoted("required") + ":" == "\"required\":"
  {
  }

  lemma StateTexts(h: HealthState)
    ensures Quoted(StateText(h)) == match h
      case Healthy => "\"healthy\""
      case Degraded => "\"degraded\""
      case Unreachable => "\"unreachable\""
      case IdentityMismatch => "\"identity_mismatch\""
      case Unknown => "\"unknown\""
  {
  }

  ghost function ComponentTexts(c: Component): seq<Option<string>> {
    [Some("\"health\":" + (match c.health
       case Healthy => "\"healthy\""
       case Degraded => "\"degraded\""
       case Unreachable => "\"unreachable\""
       case IdentityMismatch => "\"identity_mismatch\""
       case Unknown => "\"unknown\"")),
     FlagMember("\"model_ready\":", c.modelReady),
     if c.observedAt.None? then None else Some("\"observed_at\":" + Decimal(c.observedAt.value)),
     if c.identity.None? then None
     else Some("\"observed_identity\":" + Print(Obj(Compact(IdentityEntries(c.identity.value))))),
     FlagMember("\"ready\":", c.ready),
     Some("\"required\":" + if c.required then "true" else "false")]
  }

  /** The present fields of a component, in key order; health and required are always there. */
  lemma {:induction false} ComponentText(c: Component)
    ensures Print(ComponentJson(c)) == "{" + Join(Present(ComponentTexts(c))) + "}"
  {
    ComponentKeys();
    StateTexts(c.health);
    CompactMembers(ComponentEntries(c), ComponentTexts(c));
    ObjectText(Compact(ComponentEntries(c)));
    assert Present(ComponentTexts(c)) != [];
  }

  lemma FirstStackKeys()
    ensures Quoted("ditto_subnet") + ":" == "\"ditto_subnet\":" && Quoted("dittobench_api") + ":" == "\"dittobench_api\":"
  {
  }

  lemma OtherStackKeys()
    ensures Quoted("model_relay") + ":" == "\"model_relay\":" && Quoted("ollama") + ":" == "\"ollama\":"
    ensures Quoted("pylon") + ":" == "\"pylon\":" && Quoted("sandbox_docker") + ":" == "\"sandbox_docker\":"
  {
  }

  ghost function StackTexts(s: Stack): seq<Option<string>> {
    [Some("\"ditto_subnet\":" + Print(ComponentJson(s.dittoSubnet))),
     Some("\"dittobench_api\":" + Print(ComponentJson(s.dittobenchApi))),
     if s.modelRelay.None? then None else Some("\"model_relay\":" + Print(ComponentJson(s.modelRelay.value))),
     if s.ollama.None? then None else Some("\"ollama\":" + Print(ComponentJson(s.ollama.value))),
     Some("\"pylon\":" + Print(ComponentJson(s.pylon))),
     Some("\"sandbox_docker\":" + Print(ComponentJson(s.sandboxDocker)))]
  }

  /** A report signs its byte length and its present components in key order. */
  lemma {:induction false} StackText(s: Stack)
    ensures var payload := "{" + Join(Present(StackTexts(s))) + "}";
      SigningToken(s) == Decimal(Utf8Length(payload)) + ":" + payload
  {
    FirstStackKeys();
    OtherStackKeys();
    CompactMembers(StackEntries(s), StackTexts(s));
    ObjectText(Compact(StackEntries(s)));
    assert Present(StackTexts(s)) != [];
  }

  // ---------------------------------------------------------------- the document is printable

  ghost predicate PlainEntry(e: Entry) {
    Plain(e.key) && (e.value.Some? ==> WellFormed(e.value.value))
  }

  lemma WellFormedCompact(entries: seq<Entry>)
    requires SortedEntries(entries)
    requires forall i :: 0 <= i < |entries| ==> PlainEntry(entries[i])
    ensures WellFormed(Obj(Compact(entries)))
  {
    CompactSorted(entries);
    CompactKeys(entries);
    forall f | f in Compact(entries)
      ensures Plain(f.key) && WellFormed(f.value)
    {
      var e :| e in entries && e.key == f.key && e.value == Some(f.value);
      var i :| 0 <= i < |entries| && entries[i] == e;
      assert PlainEntry(entries[i]);
    }
  }

  lemma PlainIdentityNames()
    ensures Plain("image_digest") && Plain("source_revision") && Plain("version")
  {
  }

  lemma PlainComponentNames()
    ensures Plain("health") && Plain("model_ready") && Plain("observed_at") && Plain("observed_identity")
    ensures Plain("ready") && Plain("required")
  {
  }

  lemma PlainStackNames()
    ensures Plain("ditto_subnet") && Plain("dittobench_api") && Plain("model_relay") && Plain("ollama")
    ensures Plain("pylon") && Plain("sandbox_docker")
  {
  }

  lemma IdentityNamesSorted()
    ensures Less("image_digest", "source_revision")
    ensures Less("source_revision", "version")
  {
    DecidedAt("image_digest", "source_revision", 0);
    DecidedAt("source_revision", "version", 0);
  }

  lemma IdentitySorted(i: Identity)
    ensures SortedEntries(IdentityEntries(i))
  {
    IdentityNamesSorted();
    var e := IdentityEntries(i);
    ThreeSorted(e[0], e[1], e[2]);
    assert e == [e[0], e[1], e[2]];
  }

  lemma ObservedSorted()
    ensures Less("observed_at", "observed_identity")
  {
    DecidedAt("observed_at", "observed_identity", 9);
  }

  lemma ComponentNamesSorted()
    ensures Less("health", "model_ready")
    ensures Less("model_ready", "observed_at")
    ensures Less("observed_identity", "ready")
    ensures Less("ready", "required")
  {
    DecidedAt("health", "model_ready", 0);
    DecidedAt("model_ready", "observed_at", 0);
    DecidedAt("observed_identity", "ready", 0);
    DecidedAt("ready", "required", 2);
  }

  lemma {:induction false} ComponentSorted(c: Component)
    ensures SortedEntries(ComponentEntries(c))
  {
    ComponentNamesSorted();
    ObservedSorted();
    var e := ComponentEntries(c);
    SixSorted(e[0], e[1], e[2], e[3], e[4], e[5]);
    assert e == [e[0], e[1], e[2], e[3], e[4], e[5]];
  }

  lemma StackNamesSorted()
    ensures Less("ditto_subnet", "dittobench_api")
    ensures Less("dittobench_api", "model_relay")
    ensures Less("model_relay", "ollama")
    ensures Less("ollama", "pylon")
    ensures Less("pylon", "sandbox_docker")
  {
    DecidedAt("ditto_subnet", "dittobench_api", 5);
    DecidedAt("dittobench_api", "model_relay", 0);
    DecidedAt("model_relay", "ollama", 0);
    DecidedAt("ollama", "pylon", 0);
    DecidedAt("pylon", "sandbox_docker", 0);
  }

  lemma {:induction false} StackSorted(s: Stack)
    ensures SortedEntries(StackEntries(s))
  {
    StackNamesSorted();
    var e := StackEntries(s);
    SixSorted(e[0], e[1], e[2], e[3], e[4], e[5]);
    assert e == [e[0], e[1], e[2], e[3], e[4], e[5]];
  }

  lemma PlainDigest(s: string)
    requires IsDigest(s)
    ensures Plain(s)
  {
    assert s == s[..7] + s[7..] && Plain("sha256:");
  }

  lemma PlainState(h: HealthState)
    ensures Plain(StateText(h))
  {
  }

  lemma IdentityWellFormed(i: Identity)
    requires ValidIdentity(i)
    ensures WellFormed(Obj(Compact(IdentityEntries(i))))
  {
    PlainIdentityNames();
    if i.imageDigest.Some? {
      PlainDigest(i.imageDigest.value);
    }
    IdentitySorted(i);
    WellFormedCompact(IdentityEntries(i));
  }

  lemma ComponentWellFormed(c: Component)
    requires ValidComponent(c)
    ensures WellFormed(ComponentJson(c))
  {
    PlainComponentNames();
    PlainState(c.health);
    if c.identity.Some? {
      IdentityWellFormed(c.identity.value);
    }
    ComponentSorted(c);
    WellFormedCompact(ComponentEntries(c));
  }

  lemma StackWellFormed(s: Stack)
    requires ValidStack(s)
    ensures WellFormed(StackJson(s))
  {
    PlainStackNames();
    ComponentWellFormed(s.dittoSubnet);
    ComponentWellFormed(s.dittobenchApi);
    ComponentWellFormed(s.sandboxDocker);
    ComponentWellFormed(s.pylon);
    if s.modelRelay.Some? {
      ComponentWellFormed(s.modelRelay.value);
    }
    if s.ollama.Some? {
      ComponentWellFormed(s.ollama.value);
    }
    StackSorted(s);
    WellFormedCompact(StackEntries(s));
  }

  // ---------------------------------------------------------------- the document determines the stack

  lemma StateTextsDiffer(a: HealthState, b: HealthState)
    requires StateText(a) == StateText(b)
    ensures a == b
  {
    assert StateText(a)[0] == StateText(b)[0] && |StateText(a)| == |StateText(b)|;
    assert StateText(a)[2] == StateText(b)[2];
  }

  lemma IdentityInjective(a: Identity, b: Identity)
    requires Compact(IdentityEntries(a)) == Compact(IdentityEntries(b))
    ensures a == b
  {
    var x, y := IdentityEntries(a), IdentityEntries(b);
    IdentitySorted(a);
    CompactInjective(x, y);
    assert x[0] == y[0] && x[1] == y[1] && x[2] == y[2];
  }

  lemma EntriesDetermineComponent(a: Component, b: Component)
    requires ComponentEntries(a) == ComponentEntries(b)
    ensures a == b
  {
    var x, y := ComponentEntries(a), ComponentEntries(b);
    assert x[0].value == y[0].value && x[1].value == y[1].value && x[2].value == y[2].value;
    assert x[3].value == y[3].value && x[4].value == y[4].value && x[5].value == y[5].value;
    StateTextsDiffer(a.health, b.health);
    if a.identity.Some? {
      IdentityInjective(a.identity.value, b.identity.value);
    }
  }

  lemma ComponentInjective(a: Component, b: Component)
    requires ComponentJson(a) == ComponentJson(b)
    ensures a == b
  {
    var x, y := ComponentEntries(a), ComponentEntries(b);
    ComponentSorted(a);
    CompactInjective(x, y);
    EntriesDetermineComponent(a, b);
  }

  lemma StackInjective(a: Stack, b: Stack)
    requires StackJson(a) == StackJson(b)
    ensures a == b
  {
    var x, y := StackEntries(a), StackEntries(b);
    StackSorted(a);
    CompactInjective(x, y);
    assert x[0].value == y[0].value && x[1].value == y[1].value && x[2].value == y[2].value;
    assert x[3].value == y[3].value && x[4].value == y[4].value && x[5].value == y[5].value;
    ComponentInjective(a.dittoSubnet, b.dittoSubnet);
    ComponentInjective(a.dittobenchApi, b.dittobenchApi);
    ComponentInjective(a.sandboxDocker, b.sandboxDocker);
    ComponentInjective(a.pylon, b.pylon);
    if a.modelRelay.Some? {
      ComponentInjective(a.modelRelay.value, b.modelRelay.value);
    }
    if a.ollama.Some? {
      ComponentInjective(a.ollama.value, b.ollama.value);
    }
  }

  /** Absent observations never widen the signed bytes, yet no two valid reports sign the same token. */
  lemma TokenDecodesOneWay(a: Stack, b: Stack, x: string, y: string)
    requires ValidStack(a) && ValidStack(b) && SigningToken(a) + x == SigningToken(b) + y
    ensures a == b && x == y
  {
    TokenEnds(Print(StackJson(a)), Print(StackJson(b)), x, y);
    StackWellFormed(a);
    StackWellFormed(b);
    PrintInjective(StackJson(a), StackJson(b));
    StackInjective(a, b);
  }
}
