/** The ticketstatus enum. */
module TicketStatus {
  datatype Status = Issued | Scored | Expired
}

/**
 validator_tickets as the database guards it: the bench-version floor trigger, the purpose
 trigger, the CHECK constraints and the partial unique index over issued leases.
 */
module TicketTable {
  import opened Options
  import opened TicketStatus

  const FLOOR := 7
  const SLOTS := 8

  datatype Purpose = LegacyUnclassified | CanonicalQuorum | ContinualRetest

  /** The primary key. No writer rewrites it. */
  datatype Key = Key(agent: string, bench: int, hotkey: string)

  datatype Ticket = Ticket(
    status: Status,
    issuedAt: int,
    deadline: int,
    slot: int,
    purpose: Purpose,
    revision: int,
    legacyOk: bool)

  type Tickets = map<Key, Ticket>

  datatype Write = Insert(key: Key, row: Ticket) | Update(key: Key, row: Ticket) | Delete(key: Key)

  datatype Refusal = Retired | Unclassified | KeyConflict | CheckViolation | SlotTaken

  datatype Verdict = Accept(row: Ticket) | Reject(why: Refusal)

  // ---------------------------------------------------------------- triggers

  /** BEFORE INSERT OR UPDATE: a retired benchmark is never leased, revived or renewed. */
  function FloorGuard(key: Key, before: Option<Ticket>, row: Ticket): Verdict {
    if key.bench < FLOOR &&
       (before.None? ||
        (row.status == Issued &&
         (before.value.status != Issued ||
          row.issuedAt != before.value.issuedAt ||
          row.deadline > before.value.deadline)))
    then Reject(Retired)
    else Accept(row)
  }

  /** BEFORE UPDATE: a fresh lease without a revision bump loses its purpose; then the scoring check. */
  function PurposeGuard(before: Ticket, row: Ticket): Verdict {
    var kept :=
      if row.issuedAt != before.issuedAt && row.revision == before.revision
      then row.(purpose := LegacyUnclassified, revision := 0, legacyOk := true)
      else row;
    if kept.status == Scored && before.status != Scored && kept.revision == 0 && !kept.legacyOk
    then Reject(Unclassified)
    else Accept(kept)
  }

  /** PostgreSQL fires triggers in name order: bench_version_floor, then purpose_guard. */
  function OnUpdate(key: Key, before: Ticket, row: Ticket): Verdict {
    match FloorGuard(key, Some(before), row)
    case Reject(why) => Reject(why)
    case Accept(checked) => PurposeGuard(before, checked)
  }

  function OnUpdateSwapped(key: Key, before: Ticket, row: Ticket): Verdict {
    match PurposeGuard(before, row)
    case Reject(why) => Reject(why)
    case Accept(checked) => FloorGuard(key, Some(before), checked)
  }

  /** The order of the two triggers decides neither acceptance nor the stored row. */
  lemma TriggersCommute(key: Key, before: Ticket, row: Ticket)
    ensures OnUpdate(key, before, row).Accept? <==> OnUpdateSwapped(key, before, row).Accept?
    ensures OnUpdate(key, before, row).Accept? ==> OnUpdate(key, before, row) == OnUpdateSwapped(key, before, row)
  {
  }

  // ---------------------------------------------------------------- constraints

  predicate Checks(row: Ticket) {
    0 <= row.slot < SLOTS && row.revision >= 0
  }

  /** Another issued lease of the same validator sits in the same slot. */
  predicate SlotClash(t: Tickets, key: Key, row: Ticket) {
    row.status == Issued &&
    exists k <- t :: k != key && k.hotkey == key.hotkey && t[k].status == Issued && t[k].slot == row.slot
  }

  function Judge(t: Tickets, w: Write): Verdict
    requires !w.Delete?
  {
    if w.Insert? == (w.key in t) then Reject(KeyConflict)
    else
      var guarded := if w.Insert? then FloorGuard(w.key, None, w.row) else OnUpdate(w.key, t[w.key], w.row);
      match guarded
      case Reject(why) => Reject(why)
      case Accept(row) =>
        if !Checks(row) then Reject(CheckViolation)
        else if SlotClash(t, w.key, row) then Reject(SlotTaken)
        else Accept(row)
  }

  /** The table after an attempted write; a refused one changes nothing. */
  function After(t: Tickets, w: Write): Tickets {
    match w
    case Delete(key) => t - {key}
    case _ => match Judge(t, w) case Reject(_) => t case Accept(row) => t[w.key := row]
  }

  function RunTo(t: Tickets, writes: seq<Write>): Tickets {
    if writes == [] then t else After(RunTo(t, writes[..|writes| - 1]), writes[|writes| - 1])
  }

  // ---------------------------------------------------------------- exactly what is stored

  /** No other issued lease of the validator sits in the slot this row would take. */
  ghost predicate SlotFree(t: Tickets, key: Key, row: Ticket) {
    row.status == Issued ==>
      forall j <- t :: j != key && j.hotkey == key.hotkey && t[j].slot == row.slot ==> t[j].status != Issued
  }

  /** A new ticket is stored as written, exactly when its benchmark is current and its slot in range and free. */
  lemma {:induction false} InsertStoredIff(t: Tickets, k: Key, row: Ticket)
    requires k !in t
    ensures After(t, Insert(k, row)) ==
      if k.bench >= 7 && 0 <= row.slot < 8 && row.revision >= 0 && SlotFree(t, k, row) then t[k := row] else t
  {
    assert SlotClash(t, k, row) <==> !SlotFree(t, k, row);
  }

  /** A fresh lease stamp without a fresh revision. */
  ghost predicate Unannounced(before: Ticket, row: Ticket) {
    row.issuedAt != before.issuedAt && row.revision == before.revision
  }

  /** Issued again, restamped or extended: what a retired benchmark no longer gets. */
  ghost predicate LeasesAnew(before: Ticket, row: Ticket) {
    row.status == Issued && !(before.status == Issued && row.issuedAt == before.issuedAt && row.deadline <= before.deadline)
  }

  ghost predicate ScoresUnentitled(before: Ticket, row: Ticket) {
    row.status == Scored && before.status != Scored && row.revision == 0 && !row.legacyOk && !Unannounced(before, row)
  }

  /**
   An update is stored exactly when it leases nothing anew below version 7, scores nothing without
   entitlement and keeps slot, revision and index in order; an unannounced lease loses its purpose,
   everything else is stored as written.
   */
  lemma {:induction false} UpdateStoredIff(t: Tickets, k: Key, row: Ticket)
    requires k in t
    ensures
      var fits := 0 <= row.slot < 8 && (row.revision >= 0 || Unannounced(t[k], row)) && SlotFree(t, k, row);
      var stored := Ticket(row.status, row.issuedAt, row.deadline, row.slot,
                           if Unannounced(t[k], row) then LegacyUnclassified else row.purpose,
                           if Unannounced(t[k], row) then 0 else row.revision,
                           Unannounced(t[k], row) || row.legacyOk);
      After(t, Update(k, row)) ==
        if !(k.bench < 7 && LeasesAnew(t[k], row)) && !ScoresUnentitled(t[k], row) && fits then t[k := stored] else t
  {
    var verdict := OnUpdate(k, t[k], row);
    if verdict.Accept? {
      assert SlotClash(t, k, verdict.row) <==> !SlotFree(t, k, verdict.row);
      assert SlotFree(t, k, verdict.row) <==> SlotFree(t, k, row);
    }
  }

  /** A refusal names its own reason; the triggers speak before the constraints. */
  lemma {:induction false} RefusalReasons(t: Tickets, w: Write)
    requires !w.Delete? && Judge(t, w).Reject?
    ensures var why := Judge(t, w).why;
      && (why == KeyConflict <==> (w.Insert? <==> w.key in t))
      && (why == Retired <==> w.key.bench < 7 && (if w.Insert? then w.key !in t else w.key in t && LeasesAnew(t[w.key], w.row)))
      && (why == Unclassified ==> w.Update? && w.key in t && ScoresUnentitled(t[w.key], w.row))
      && (why == CheckViolation ==> !(0 <= w.row.slot < 8) || w.row.revision < 0)
      && (why == SlotTaken ==> 0 <= w.row.slot < 8 && !SlotFree(t, w.key, w.row))
  {
    if w.key in t && w.Update? && OnUpdate(w.key, t[w.key], w.row).Accept? {
      var row := OnUpdate(w.key, t[w.key], w.row).row;
      assert SlotFree(t, w.key, row) <==> SlotFree(t, w.key, w.row);
    }
  }

  /** Writes that name a key wrongly change nothing, and a deletion removes just its row. */
  lemma {:induction false} OtherWrites(t: Tickets, k: Key, row: Ticket)
    ensures k in t ==> After(t, Insert(k, row)) == t
    ensures k !in t ==> After(t, Update(k, row)) == t
    ensures k !in After(t, Delete(k))
    ensures forall j <- t :: j != k ==> j in After(t, Delete(k)) && After(t, Delete(k))[j] == t[j]
  {
  }

  /** What the constraints promise of the stored rows. */
  ghost predicate Valid(t: Tickets) {
    && (forall k <- t :: Checks(t[k]))
    && (forall k <- t :: !SlotClash(t, k, t[k]))
  }

  lemma WriteKeepsValid(t: Tickets, w: Write)
    requires Valid(t)
    ensures Valid(After(t, w))
  {
    var t' := After(t, w);
    forall k | k in t'
      ensures Checks(t'[k]) && !SlotClash(t', k, t'[k])
    {
      if k in t {
        assert !SlotClash(t, k, t[k]);
      }
    }
  }

  lemma {:induction false} RunKeepsValid(t: Tickets, writes: seq<Write>)
    requires Valid(t)
    ensures Valid(RunTo(t, writes))
  {
    if writes != [] {
      RunKeepsValid(t, writes[..|writes| - 1]);
      WriteKeepsValid(RunTo(t, writes[..|writes| - 1]), writes[|writes| - 1]);
    }
  }
}
