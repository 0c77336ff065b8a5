/** Coarse host telemetry as a heartbeat signs it, and the parser that recovers it. */
module SystemHealth {
  import opened Options
  import opened Printing
  import opened Timestamps

  datatype DockerStatus = Healthy | Degraded | Unavailable

  datatype Docker = Docker(status: DockerStatus, running: nat, unhealthy: nat)

  datatype Metrics = Metrics(collectedAt: nat, cpu: nat, memory: nat, disk: nat, docker: Docker)

  function StatusText(s: DockerStatus): string {
    match s case Healthy => "healthy" case Degraded => "degraded" case Unavailable => "unavailable"
  }

  function Fields(m: Metrics): seq<string> {
    [Decimal(m.collectedAt), Decimal(m.cpu), Decimal(m.memory), Decimal(m.disk),
     StatusText(m.docker.status), Decimal(m.docker.running), Decimal(m.docker.unhealthy)]
  }

  function SigningToken(metrics: Option<Metrics>): string {
    match metrics case None => "-" case Some(m) => Join(Fields(m))
  }

  function ParseStatus(text: string): Option<DockerStatus> {
    if text == "healthy" then Some(Healthy)
    else if text == "degraded" then Some(Degraded)
    else if text == "unavailable" then Some(Unavailable)
    else None
  }

  function ParseToken(token: string): Option<Option<Metrics>> {
    if token == "-" then Some(None)
    else
      var f := Split(token);
      if |f| != 7 then None
      else
        var at, cpu, memory, disk := ParseDecimal(f[0]), ParseDecimal(f[1]), ParseDecimal(f[2]), ParseDecimal(f[3]);
        var status, running, unhealthy := ParseStatus(f[4]), ParseDecimal(f[5]), ParseDecimal(f[6]);
        if at.None? || cpu.None? || memory.None? || disk.None? || status.None? || running.None? || unhealthy.None? then None
        else Some(Some(Metrics(at.value, cpu.value, memory.value, disk.value,
                               Docker(status.value, running.value, unhealthy.value))))
  }

  lemma NumberField(n: nat)
    ensures ParseDecimal(Decimal(n)) == Some(n) && NoComma(Decimal(n))
  {
    DecimalRoundTrip(n);
    DigitsHaveNoComma(Decimal(n));
  }

  lemma FieldsSplit(m: Metrics)
    ensures Split(Join(Fields(m))) == Fields(m) && Join(Fields(m)) != "-"
  {
    NumberField(m.collectedAt);
    NumberField(m.cpu);
    NumberField(m.memory);
    NumberField(m.disk);
    NumberField(m.docker.running);
    NumberField(m.docker.unhealthy);
    assert NoComma(StatusText(m.docker.status));
    SplitUndoesJoin(Fields(m));
    SplitPlain("-");
  }

  /** Whatever was signed can be read back, including "no sample". */
  lemma TokenRoundTrip(metrics: Option<Metrics>)
    ensures ParseToken(SigningToken(metrics)) == Some(metrics)
  {
    if metrics.Some? {
      var m := metrics.value;
      FieldsSplit(m);
      NumberField(m.collectedAt);
      NumberField(m.cpu);
      NumberField(m.memory);
      NumberField(m.disk);
      NumberField(m.docker.running);
      NumberField(m.docker.unhealthy);
    }
  }
}
