/** Benchmark progress as a heartbeat signs it, and the parser that recovers it. */
module BenchmarkProgress {
  import opened Options
  import opened Printing
  import opened Timestamps

  const MAX_CHECKS := 10000

  datatype Stage =
    | Preparing
    | BuildingHarness
    | GeneratingDataset
    | StartingHarness
    | RunningBenchmark
    | WaitingForRelay
    | Finalizing
    | SubmittingResult
    | FailedRetrying

  datatype Progress = Progress(
    stage: Stage,
    completed: Option<nat>,
    total: Option<nat>,
    deadline: Timestamp,
    runToken: Option<string>)

  // ---------------------------------------------------------------- validity

  predicate Early(s: Stage) {
    s.Preparing? || s.BuildingHarness? || s.GeneratingDataset? || s.StartingHarness?
  }

  predicate TerminalWork(s: Stage) {
    s.Finalizing? || s.SubmittingResult?
  }

  predicate IsLowerHex(c: char) {
    '0' <= c <= '9' || 'a' <= c <= 'f'
  }

  ghost predicate CountsSafe(p: Progress) {
    && p.completed.Some? == p.total.Some?
    && (p.completed.Some? ==> p.completed.value <= p.total.value)
    && (p.stage in {Preparing, BuildingHarness, GeneratingDataset, StartingHarness} ==> p.completed.None?)
    && (p.stage in {Finalizing, SubmittingResult} ==> p.completed.Some? && p.completed == p.total)
  }

  datatype CountsFault = Unpaired | CompletedExceedsTotal | TooEarlyForCounts | NotFinished

  /** The checks in the order the model runs them; None accepts. */
  function CountsFaultOf(p: Progress): (fault: Option<CountsFault>)
    ensures fault.None? <==> CountsSafe(p)
    ensures fault == Some(Unpaired) <==> p.completed.Some? != p.total.Some?
    ensures fault == Some(CompletedExceedsTotal) ==> p.completed.Some? && p.total.Some? && p.completed.value > p.total.value
    ensures fault == Some(TooEarlyForCounts) ==>
      p.completed.Some? && p.stage in {Preparing, BuildingHarness, GeneratingDataset, StartingHarness}
    ensures fault == Some(NotFinished) ==> p.completed != p.total || p.completed.None?
    ensures fault == Some(NotFinished) ==> p.stage in {Finalizing, SubmittingResult}
  {
    if p.completed.None? != p.total.None? then Some(Unpaired)
    else if p.completed.Some? && p.total.Some? && p.completed.value > p.total.value then Some(CompletedExceedsTotal)
    else if Early(p.stage) && p.completed.Some? then Some(TooEarlyForCounts)
    else if TerminalWork(p.stage) && (p.completed.None? || p.completed != p.total) then Some(NotFinished)
    else None
  }

  ghost predicate ValidProgress(p: Progress) {
    && Valid(p.deadline)
    && (p.completed.Some? ==> p.completed.value <= MAX_CHECKS)
    && (p.total.Some? ==> 1 <= p.total.value <= MAX_CHECKS)
    && (p.runToken.Some? ==> 8 <= |p.runToken.value| <= 64 && forall c <- p.runToken.value :: IsLowerHex(c))
    && CountsSafe(p)
  }

  // ---------------------------------------------------------------- printing

  function StageText(s: Stage): string {
    match s
    case Preparing => "preparing"
    case BuildingHarness => "building_harness"
    case GeneratingDataset => "generating_dataset"
    case StartingHarness => "starting_harness"
    case RunningBenchmark => "running_benchmark"
    case WaitingForRelay => "waiting_for_relay"
    case Finalizing => "finalizing"
    case SubmittingResult => "submitting_result"
    case FailedRetrying => "failed_retrying"
  }

  function CountText(count: Option<nat>): string {
    match count case None => "-" case Some(n) => Decimal(n)
  }

  function FourFields(p: Progress): seq<string> {
    [StageText(p.stage), CountText(p.completed), CountText(p.total), Iso(p.deadline)]
  }

  function SigningToken(progress: Option<Progress>): string {
    match progress
    case None => "-"
    case Some(p) =>
      var token := Join(FourFields(p));
      if p.runToken.Some? then token + "," + p.runToken.value else token
  }

  // ---------------------------------------------------------------- parsing

  function ReadStage(text: string): Option<Stage> {
    if text == "preparing" then Some(Preparing)
    else if text == "building_harness" then Some(BuildingHarness)
    else if text == "generating_dataset" then Some(GeneratingDataset)
    else if text == "starting_harness" then Some(StartingHarness)
    else if text == "running_benchmark" then Some(RunningBenchmark)
    else if text == "waiting_for_relay" then Some(WaitingForRelay)
    else if text == "finalizing" then Some(Finalizing)
    else if text == "submitting_result" then Some(SubmittingResult)
    else if text == "failed_retrying" then Some(FailedRetrying)
    else None
  }

  function ParseCount(text: string): Option<Option<nat>> {
    if text == "-" then Some(None)
    else match ParseDecimal(text) case None => None case Some(n) => Some(Some(n))
  }

  /** None is a token no progress prints as; Some(None) is the token of an absent progress. */
  function ParseToken(token: string): Option<Option<Progress>> {
    if token == "-" then Some(None)
    else
      var fields := Split(token);
      if |fields| != 4 && |fields| != 5 then None
      else
        var stage, completed, total := ReadStage(fields[0]), ParseCount(fields[1]), ParseCount(fields[2]);
        var deadline := ParseIso(fields[3]);
        if stage.None? || completed.None? || total.None? || deadline.None? then None
        else
          var runToken := if |fields| == 5 then Some(fields[4]) else None;
          Some(Some(Progress(stage.value, completed.value, total.value, deadline.value, runToken)))
  }

  // ---------------------------------------------------------------- round trip

  lemma StageReadsBack(s: Stage)
    ensures ReadStage(StageText(s)) == Some(s)
  {
  }

  lemma CountRoundTrip(count: Option<nat>)
    ensures ParseCount(CountText(count)) == Some(count) && NoComma(CountText(count))
  {
    if count.Some? {
      DecimalRoundTrip(count.value);
      DigitsHaveNoComma(Decimal(count.value));
      assert Decimal(count.value) != "-" by {
        assert IsDigit(Decimal(count.value)[0]);
      }
    }
  }

  lemma StageHasNoComma(s: Stage)
    ensures NoComma(StageText(s))
  {
  }

  lemma {:induction false} FieldsHaveNoComma(p: Progress)
    requires ValidProgress(p)
    ensures forall f <- FourFields(p) :: NoComma(f)
    ensures p.runToken.Some? ==> NoComma(p.runToken.value)
  {
    CountRoundTrip(p.completed);
    CountRoundTrip(p.total);
    IsoHasNoComma(p.deadline);
    StageHasNoComma(p.stage);
    assert p.runToken.Some? ==> forall c <- p.runToken.value :: IsLowerHex(c);
  }

  lemma {:induction false} JoinOneMore(fields: seq<string>, last: string)
    requires fields != []
    ensures Join(fields + [last]) == Join(fields) + "," + last
  {
    if |fields| > 1 {
      JoinOneMore(fields[1..], last);
      assert (fields + [last])[1..] == fields[1..] + [last];
    } else {
      assert (fields + [last])[1..] == [last];
    }
  }

  function AllFields(p: Progress): seq<string> {
    FourFields(p) + if p.runToken.Some? then [p.runToken.value] else []
  }

  lemma TokenIsJoin(p: Progress)
    ensures SigningToken(Some(p)) == Join(AllFields(p))
    ensures |SigningToken(Some(p))| > 1
  {
    if p.runToken.Some? {
      JoinOneMore(FourFields(p), p.runToken.value);
    } else {
      assert AllFields(p) == FourFields(p);
    }
  }

  /** Whatever was signed can be read back, including "no progress" and the optional run token. */
  lemma TokenRoundTrip(progress: Option<Progress>)
    requires progress.Some? ==> ValidProgress(progress.value)
    ensures ParseToken(SigningToken(progress)) == Some(progress)
  {
    if progress.Some? {
      var p := progress.value;
      TokenIsJoin(p);
      FieldsHaveNoComma(p);
      SplitUndoesJoin(AllFields(p));
      StageReadsBack(p.stage);
      CountRoundTrip(p.completed);
      CountRoundTrip(p.total);
      IsoRoundTrip(p.deadline);
    }
  }

  /** Two different reports never sign the same bytes. */
  lemma {:induction false} TokenInjective(a: Option<Progress>, b: Option<Progress>)
    requires a.Some? ==> ValidProgress(a.value)
    requires b.Some? ==> ValidProgress(b.value)
    requires SigningToken(a) == SigningToken(b)
    ensures a == b
  {
    TokenRoundTrip(a);
    TokenRoundTrip(b);
  }

  /** Without a run token the bytes are those of the four-field form; with one, only a suffix is added. */
  lemma RunTokenIsSuffix(p: Progress, token: string)
    requires ValidProgress(p) && p.runToken.None?
    ensures Split(SigningToken(Some(p))) == FourFields(p)
    ensures SigningToken(Some(p.(runToken := Some(token)))) == SigningToken(Some(p)) + "," + token
  {
    FieldsHaveNoComma(p);
    SplitUndoesJoin(FourFields(p));
  }
}
