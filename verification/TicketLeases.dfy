/**
 What the guards of `TicketTable` amount to over every run of attempted writes: retired leases
 drain and never come back, a purpose belongs to the current lease, and a validator holds at
 most one issued lease per slot.
 */
module TicketLeases {
  import opened Options
  import opened TicketStatus
  import opened TicketTable

  // ---------------------------------------------------------------- the table as an object

  class Store {
    var tickets: Tickets

    constructor ()
      ensures tickets == map[]
    {
      tickets := map[];
    }

    /** One attempted statement: triggers, CHECKs, unique index, then the stored row. */
    method Attempt(w: Write) returns (accepted: bool)
      modifies this
      ensures tickets == After(old(tickets), w)
      ensures old(Valid(tickets)) ==> Valid(tickets)
      ensures accepted <==> w.Delete? || Judge(old(tickets), w).Accept?
    {
      if Valid(tickets) {
        WriteKeepsValid(tickets, w);
      }
      if w.Delete? {
        tickets := tickets - {w.key};
        return true;
      }
      if w.Insert? == (w.key in tickets) {
        return false;
      }
      var row := w.row;
      var before := if w.Update? then Some(tickets[w.key]) else None;
      if FloorGuard(w.key, before, row).Reject? {
        return false;
      }
      if w.Update? {
        var was := before.value;
        if row.issuedAt != was.issuedAt && row.revision == was.revision {
          row := row.(purpose := LegacyUnclassified);
          row := row.(revision := 0);
          row := row.(legacyOk := true);
        }
        if row.status == Scored && was.status != Scored && row.revision == 0 && !row.legacyOk {
          return false;
        }
      }
      if !Checks(row) || SlotClash(tickets, w.key, row) {
        return false;
      }
      tickets := tickets[w.key := row];
      accepted := true;
    }

    /** Whether any validator holds two issued leases; the guard of the downgrade. */
    method AnyDoubleIssued() returns (found: bool)
      ensures found <==> !OneIssuedPerValidator(tickets)
    {
      var pending := tickets.Keys;
      found := false;
      ghost var seen := {};
      var owners: map<string, Key> := map[];
      while pending != {} && !found
        invariant pending !! seen && pending + seen == tickets.Keys
        invariant !found ==> forall h <- owners :: owners[h] in seen && owners[h].hotkey == h && tickets[owners[h]].status == Issued
        invariant !found ==> forall k <- seen :: tickets[k].status == Issued ==> k.hotkey in owners && owners[k.hotkey] == k
        invariant found ==> !OneIssuedPerValidator(tickets)
        decreases |pending|
      {
        var k :| k in pending;
        if tickets[k].status == Issued {
          if k.hotkey in owners {
            assert owners[k.hotkey] != k;
            found := true;
          } else {
            owners := owners[k.hotkey := k];
          }
        }
        pending, seen := pending - {k}, seen + {k};
      }
    }
  }

  // ---------------------------------------------------------------- retired leases drain

  ghost predicate SubFloorIssued(t: Tickets, k: Key) {
    k in t && k.bench < FLOOR && t[k].status == Issued
  }

  /** A retired lease seen later was there at install, with the same stamp and no later deadline. */
  lemma {:induction false} RetiredLeaseNeverGrows(install: Tickets, writes: seq<Write>, k: Key)
    requires SubFloorIssued(RunTo(install, writes), k)
    ensures SubFloorIssued(install, k)
    ensures RunTo(install, writes)[k].issuedAt == install[k].issuedAt
    ensures RunTo(install, writes)[k].deadline <= install[k].deadline
  {
    if writes != [] {
      RetiredLeaseNeverGrows(install, writes[..|writes| - 1], k);
    }
  }

  /** No retired ticket appears after install, whatever its status. */
  lemma {:induction false} NoNewRetiredTicket(install: Tickets, writes: seq<Write>, k: Key)
    requires k in RunTo(install, writes) && k.bench < FLOOR
    ensures k in install
  {
    if writes != [] {
      NoNewRetiredTicket(install, writes[..|writes| - 1], k);
    }
  }

  /** So once the deadlines known at install have passed, no retired lease is live in any run. */
  lemma {:induction false} RetiredLeasesAreOver(install: Tickets, writes: seq<Write>, k: Key, now: int)
    requires forall j <- install :: SubFloorIssued(install, j) ==> install[j].deadline <= now
    requires SubFloorIssued(RunTo(install, writes), k)
    ensures RunTo(install, writes)[k].deadline <= now
  {
    RetiredLeaseNeverGrows(install, writes, k);
  }

  /** Draining is never blocked: from every reachable state an issued lease can be expired. */
  lemma {:induction false} LeaseCanExpire(install: Tickets, writes: seq<Write>, k: Key)
    requires Valid(install) && k in RunTo(install, writes)
    ensures var t := RunTo(install, writes);
      After(t, Update(k, t[k].(status := Expired))) == t[k := t[k].(status := Expired)]
  {
    RunKeepsValid(install, writes);
    var t := RunTo(install, writes);
    assert Checks(t[k]);
    assert OnUpdate(k, t[k], t[k].(status := Expired)) == Accept(t[k].(status := Expired));
  }

  /** A stored lease can be scored exactly when it is classified or may complete as a legacy lease. */
  lemma {:induction false} LeaseCanBeScoredIff(install: Tickets, writes: seq<Write>, k: Key)
    requires Valid(install) && k in RunTo(install, writes) && RunTo(install, writes)[k].status != Scored
    ensures var t := RunTo(install, writes);
      Judge(t, Update(k, t[k].(status := Scored))).Accept? <==> t[k].revision != 0 || t[k].legacyOk
  {
    RunKeepsValid(install, writes);
    assert Checks(RunTo(install, writes)[k]);
  }

  // ---------------------------------------------------------------- slots

  ghost function IssuedTo(t: Tickets, hotkey: string): set<Key> {
    set k | k in t && k.hotkey == hotkey && t[k].status == Issued
  }

  ghost predicate OneIssuedPerValidator(t: Tickets) {
    forall j, k :: j in t && k in t && j.hotkey == k.hotkey && t[j].status == Issued && t[k].status == Issued ==> j == k
  }

  /** Distinct values of an injective naming cannot outnumber the names. */
  lemma {:induction false} InjectiveBound(keys: set<Key>, slotOf: map<Key, int>, n: nat)
    requires forall k <- keys :: k in slotOf && 0 <= slotOf[k] < n
    requires forall j, k :: j in keys && k in keys && slotOf[j] == slotOf[k] ==> j == k
    ensures |keys| <= n
    decreases n
  {
    if n == 0 {
      if k :| k in keys { assert false; }
    } else {
      var top := set k | k in keys && slotOf[k] == n - 1;
      assert |top| <= 1 by {
        if k :| k in top { assert top == {k}; }
      }
      InjectiveBound(keys - top, slotOf, n - 1);
      assert keys == (keys - top) + top;
    }
  }

  /** In every reachable state a validator's issued leases sit in different slots, at most eight. */
  lemma AtMostOneLeasePerSlot(install: Tickets, writes: seq<Write>, hotkey: string)
    requires Valid(install)
    ensures var t := RunTo(install, writes);
      && |IssuedTo(t, hotkey)| <= 8
      && forall j, k :: j in IssuedTo(t, hotkey) && k in IssuedTo(t, hotkey) && t[j].slot == t[k].slot ==> j == k
  {
    RunKeepsValid(install, writes);
    var t := RunTo(install, writes);
    var slotOf := map k | k in t :: t[k].slot;
    forall j, k | j in IssuedTo(t, hotkey) && k in IssuedTo(t, hotkey) && slotOf[j] == slotOf[k]
      ensures j == k
    {
      assert !SlotClash(t, j, t[j]);
    }
    forall k | k in IssuedTo(t, hotkey)
      ensures 0 <= slotOf[k] < SLOTS
    {
      assert Checks(t[k]);
    }
    InjectiveBound(IssuedTo(t, hotkey), slotOf, SLOTS);
  }

  // ---------------------------------------------------------------- purpose belongs to the lease

  /** Who sends a write: an old replica knows nothing of the purpose columns. */
  datatype Sent = Sent(write: Write, aware: bool)

  /** The writers' side of the contract; the database enforces the rest. */
  ghost predicate FollowsRules(t: Tickets, s: Sent) {
    match s.write
    case Delete(_) => true
    case Insert(_, row) =>
      !s.aware ==> row.purpose == LegacyUnclassified && row.revision == 0 && row.legacyOk
    case Update(key, row) =>
      key in t ==>
        && (row.status == Issued && t[key].status != Issued ==> row.issuedAt != t[key].issuedAt)
        && (!s.aware ==> row.purpose == t[key].purpose && row.revision == t[key].revision && row.legacyOk == t[key].legacyOk)
        && (s.aware && row.issuedAt != t[key].issuedAt ==> row.revision > t[key].revision)
  }

  ghost function Table(install: Tickets, sends: seq<Sent>): Tickets {
    if sends == [] then install else After(Table(install, sends[..|sends| - 1]), sends[|sends| - 1].write)
  }

  ghost function Writes(sends: seq<Sent>): seq<Write> {
    seq(|sends|, i requires 0 <= i < |sends| => sends[i].write)
  }

  /** Who sent a write makes no difference to the table. */
  lemma {:induction false} TableIsRun(install: Tickets, sends: seq<Sent>)
    ensures Table(install, sends) == RunTo(install, Writes(sends))
  {
    if sends != [] {
      TableIsRun(install, sends[..|sends| - 1]);
      assert Writes(sends)[..|sends| - 1] == Writes(sends[..|sends| - 1]);
    }
  }

  ghost predicate RulesFollowed(install: Tickets, sends: seq<Sent>) {
    sends == [] ||
    (RulesFollowed(install, sends[..|sends| - 1]) &&
     FollowsRules(Table(install, sends[..|sends| - 1]), sends[|sends| - 1]))
  }

  /** The `issuedAt` of the lease a purpose was last written for by an aware writer. */
  ghost function WrittenFor(install: Tickets, sends: seq<Sent>): map<Key, int> {
    if sends == [] then map[]
    else
      var t, earlier := Table(install, sends[..|sends| - 1]), WrittenFor(install, sends[..|sends| - 1]);
      var s := sends[|sends| - 1];
      if s.aware && !s.write.Delete? && Judge(t, s.write).Accept? then earlier[s.write.key := s.write.row.issuedAt]
      else earlier
  }

  /** A purpose on a live lease was written for that very lease. */
  lemma {:induction false} PurposeIsForCurrentLease(install: Tickets, sends: seq<Sent>, k: Key)
    requires forall j <- install :: install[j].status == Issued ==> install[j].purpose == LegacyUnclassified
    requires RulesFollowed(install, sends)
    requires k in Table(install, sends)
    requires Table(install, sends)[k].status == Issued && Table(install, sends)[k].purpose != LegacyUnclassified
    ensures k in WrittenFor(install, sends)
    ensures WrittenFor(install, sends)[k] == Table(install, sends)[k].issuedAt
  {
    assert sends != [];
    var before, s := Table(install, sends[..|sends| - 1]), sends[|sends| - 1];
    var changed := !s.write.Delete? && Judge(before, s.write).Accept? && s.write.key == k;
    if !(changed && s.aware) && k in before && before[k].status == Issued && before[k].purpose != LegacyUnclassified {
      PurposeIsForCurrentLease(install, sends[..|sends| - 1], k);
    }
  }

  /** Evidence rows of a ledger: the ticket they belong to and when they were written. */
  type Evidence = set<(Key, int)>

  predicate Since(evidence: Evidence, k: Key, row: Ticket) {
    exists e <- evidence :: e.0 == k && e.1 >= row.issuedAt
  }

  /** The columns as added: unclassified, revision 0, legacy completion allowed. */
  function WithDefaults(t: Tickets): Tickets {
    map k | k in t :: t[k].(purpose := LegacyUnclassified, revision := 0, legacyOk := true)
  }

  /** First UPDATE of the migration. */
  function MarkRetests(t: Tickets, confirmations: Evidence): Tickets {
    map k | k in t ::
      if t[k].status != Issued && Since(confirmations, k, t[k]) then t[k].(purpose := ContinualRetest) else t[k]
  }

  /** Second UPDATE: only what is still unclassified. */
  function MarkQuorums(t: Tickets, scores: Evidence): Tickets {
    map k | k in t ::
      if t[k].status != Issued && t[k].purpose == LegacyUnclassified && Since(scores, k, t[k])
      then t[k].(purpose := CanonicalQuorum)
      else t[k]
  }

  function InstallPurpose(t: Tickets, confirmations: Evidence, scores: Evidence): Tickets {
    MarkQuorums(MarkRetests(WithDefaults(t), confirmations), scores)
  }

  /** From the migration onwards, over every run: a purpose on a live lease was written for it. */
  lemma {:induction false} PurposeIsForCurrentLeaseFromInstall(t: Tickets, confirmations: Evidence, scores: Evidence,
                                            sends: seq<Sent>, k: Key)
    requires RulesFollowed(InstallPurpose(t, confirmations, scores), sends)
    requires k in Table(InstallPurpose(t, confirmations, scores), sends)
    ensures var install := InstallPurpose(t, confirmations, scores);
      var row := Table(install, sends)[k];
      row.status == Issued && row.purpose != LegacyUnclassified ==>
        k in WrittenFor(install, sends) && WrittenFor(install, sends)[k] == row.issuedAt
  {
    var install := InstallPurpose(t, confirmations, scores);
    var row := Table(install, sends)[k];
    if row.status == Issued && row.purpose != LegacyUnclassified {
      PurposeIsForCurrentLease(install, sends, k);
    }
  }

  /** A finished ticket with evidence in both ledgers counts as a retest, whichever is newer. */
  lemma {:induction false} RetestEvidenceWins(t: Tickets, confirmations: Evidence, scores: Evidence, k: Key)
    requires k in t
    ensures var confirmed := exists e <- confirmations :: e.0 == k && e.1 >= t[k].issuedAt;
      var scored := exists e <- scores :: e.0 == k && e.1 >= t[k].issuedAt;
      var row := InstallPurpose(t, confirmations, scores)[k];
      && (row.purpose == ContinualRetest <==> t[k].status != Issued && confirmed)
      && (row.purpose == CanonicalQuorum <==> t[k].status != Issued && !confirmed && scored)
      && row == t[k].(purpose := row.purpose, revision := 0, legacyOk := true)
  {
    assert Since(confirmations, k, WithDefaults(t)[k]) == Since(confirmations, k, t[k]);
    assert Since(scores, k, MarkRetests(WithDefaults(t), confirmations)[k]) == Since(scores, k, t[k]);
  }

  /** Why re-leasing must stamp `issuedAt`: without it an old purpose rides into the new lease. */
  lemma {:induction false} UnstampedReleaseKeepsPurpose(t: Tickets, k: Key)
    requires Valid(t) && k in t && k.bench >= FLOOR && t[k].status != Issued
    requires !SlotClash(t, k, t[k].(status := Issued))
    ensures After(t, Update(k, t[k].(status := Issued))) == t[k := t[k].(status := Issued)]
  {
    assert Checks(t[k]);
  }

  /**
   An old replica's re-lease loses its purpose, yet it is consumable: whatever the row says and
   whatever was stored before, the lease it leaves can be scored at once.
   */
  lemma {:induction false} OldReleaseIsConsumable(install: Tickets, writes: seq<Write>, k: Key, row: Ticket)
    requires Valid(install) && k in RunTo(install, writes) && row.status == Issued
    requires row.issuedAt != RunTo(install, writes)[k].issuedAt && row.revision == RunTo(install, writes)[k].revision
    requires Judge(RunTo(install, writes), Update(k, row)).Accept?
    ensures var t := RunTo(install, writes + [Update(k, row)]);
      && t[k].purpose == LegacyUnclassified
      && Judge(t, Update(k, t[k].(status := Scored))).Accept?
  {
    var longer := writes + [Update(k, row)];
    assert longer[..|longer| - 1] == writes;
    LeaseCanBeScoredIff(install, longer, k);
  }

  // ---------------------------------------------------------------- scoring

  ghost predicate ScoredUnclassified(row: Ticket) {
    row.status == Scored && row.revision == 0 && !row.legacyOk
  }

  ghost predicate NoneUnclassified(t: Tickets) {
    forall k <- t :: !ScoredUnclassified(t[k])
  }

  /**
   The writes the scoring check lets through: it watches only updates that take a ticket to scored,
   so such a row can be inserted, or made out of a ticket that is already scored, unless a fresh
   `issuedAt` without a fresh revision has the row reset first.
   */
  ghost predicate Escapes(t: Tickets, w: Write) {
    && !w.Delete? && Judge(t, w).Accept? && ScoredUnclassified(w.row)
    && (w.Insert? ||
        (t[w.key].status == Scored &&
         (w.row.issuedAt == t[w.key].issuedAt || w.row.revision != t[w.key].revision)))
  }

  /** A write that the database stores under `k` or that removes `k`. */
  ghost predicate Replaces(t: Tickets, w: Write, k: Key) {
    w.key == k && (w.Delete? || Judge(t, w).Accept?)
  }

  /** A ticket is scored without entitlement exactly when it was left so or has just escaped the check. */
  lemma {:induction false} UnclassifiedScoreIff(t: Tickets, w: Write, k: Key)
    requires k in After(t, w)
    ensures ScoredUnclassified(After(t, w)[k]) <==>
      (k in t && ScoredUnclassified(t[k]) && !Replaces(t, w, k)) || (w.key == k && Escapes(t, w))
  {
    if !w.Delete? && w.key == k && Judge(t, w).Accept? && w.Update? {
      assert Judge(t, w).row == PurposeGuard(t[k], w.row).row;
    }
  }

  ghost predicate NoneEscapes(install: Tickets, writes: seq<Write>) {
    forall n :: 0 <= n < |writes| ==> !Escapes(RunTo(install, writes[..n]), writes[n])
  }

  lemma RunOneMore(install: Tickets, writes: seq<Write>, n: nat)
    requires n < |writes|
    ensures RunTo(install, writes[..n + 1]) == After(RunTo(install, writes[..n]), writes[n])
  {
    assert writes[..n + 1][..n] == writes[..n];
  }

  lemma {:induction false} NoEscapeKeepsEntitlement(install: Tickets, writes: seq<Write>, n: nat)
    requires NoneUnclassified(install) && NoneEscapes(install, writes) && n <= |writes|
    ensures NoneUnclassified(RunTo(install, writes[..n]))
  {
    if n > 0 {
      NoEscapeKeepsEntitlement(install, writes, n - 1);
      RunOneMore(install, writes, n - 1);
      var before := RunTo(install, writes[..n - 1]);
      var after := After(before, writes[n - 1]);
      forall k | k in after
        ensures !ScoredUnclassified(after[k])
      {
        UnclassifiedScoreIff(before, writes[n - 1], k);
      }
    }
  }

  /** Throughout a run every scored ticket is entitled exactly when no write of the run escapes the check. */
  lemma {:induction false} ScoredTicketsAreEntitledIff(install: Tickets, writes: seq<Write>)
    requires NoneUnclassified(install)
    ensures (forall n :: 0 <= n <= |writes| ==> NoneUnclassified(RunTo(install, writes[..n]))) <==>
            NoneEscapes(install, writes)
  {
    if NoneEscapes(install, writes) {
      forall n | 0 <= n <= |writes|
        ensures NoneUnclassified(RunTo(install, writes[..n]))
      {
        NoEscapeKeepsEntitlement(install, writes, n);
      }
    } else {
      var n :| 0 <= n < |writes| && Escapes(RunTo(install, writes[..n]), writes[n]);
      var before, w := RunTo(install, writes[..n]), writes[n];
      RunOneMore(install, writes, n);
      UnclassifiedScoreIff(before, w, w.key);
      assert !NoneUnclassified(RunTo(install, writes[..n + 1]));
    }
  }

  /** The classifying migration leaves nothing unentitled, so from there on only the writes matter. */
  lemma EntitledFromInstall(t: Tickets, confirmations: Evidence, scores: Evidence, writes: seq<Write>)
    ensures var install := InstallPurpose(t, confirmations, scores);
      (forall n :: 0 <= n <= |writes| ==> NoneUnclassified(RunTo(install, writes[..n]))) <==> NoneEscapes(install, writes)
  {
    var install := InstallPurpose(t, confirmations, scores);
    assert forall k <- install :: install[k].legacyOk;
    ScoredTicketsAreEntitledIff(install, writes);
  }

  const ESCAPED := Ticket(Scored, 1, 2, 0, LegacyUnclassified, 0, false)

  /** An aware writer inserts a ticket as scored, and nothing stops it. */
  lemma ScoredInsertEscapes(k: Key)
    requires k.bench >= FLOOR
    ensures FollowsRules(map[], Sent(Insert(k, ESCAPED), true))
    ensures After(map[], Insert(k, ESCAPED)) == map[k := ESCAPED] && ScoredUnclassified(ESCAPED)
  {
    assert Judge(map[], Insert(k, ESCAPED)) == Accept(ESCAPED);
  }

  /** A scored legacy ticket, even of a retired benchmark, loses its entitlement by a later update. */
  lemma ClearedEntitlementEscapes(t: Tickets, k: Key)
    requires k in t && Checks(t[k]) && t[k].status == Scored && t[k].revision == 0 && t[k].legacyOk
    ensures FollowsRules(t, Sent(Update(k, t[k].(legacyOk := false)), true))
    ensures After(t, Update(k, t[k].(legacyOk := false))) == t[k := t[k].(legacyOk := false)]
    ensures ScoredUnclassified(t[k].(legacyOk := false))
  {
    assert Judge(t, Update(k, t[k].(legacyOk := false))) == Accept(t[k].(legacyOk := false));
  }
}
