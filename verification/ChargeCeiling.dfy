/**
 Splitting the charge ceiling from the token reservation while the old build keeps serving.

 The table changes in two ways: application writes, which may land between any two of the
 migrator's transactions, and the migrator's committed transactions. A run is any interleaving
 of the two. A process that dies leaves a prefix of its transactions; starting over from the top
 only appends more of them. So a statement about every run is a statement about every
 interleaving, every crash and every re-run.
 */
module ChargeCeiling {
  import opened Options

  const BACKFILL_PAGES := 2000
  const SWEEP_ROWS := 20000
  const MAX_ATTEMPTS := 12

  /** Primary key of inference_requests. */
  datatype Id = Id(grant: string, nonce: string)

  datatype Row = Row(reserved: int, ceiling: Option<int>, page: nat)

  /** `pinned`: the ceiling column is NOT NULL DEFAULT 0. Both are set by one statement. */
  datatype Table = Table(rows: map<Id, Row>, pages: nat, versioned: bool, hasColumn: bool, pinned: bool)

  /** The old build never names the ceiling column; the new one is started once it is pinned. */
  datatype Write =
    | OldInsert(id: Id, reserved: int, page: nat)
    | NewInsert(id: Id, reserved: int, bound: int, page: nat)
    | Rewrite(id: Id, page: nat)
    | Remove(id: Id)

  datatype Transaction =
    | AddVersion
    | AddColumn
    | FillPages(lo: nat, hi: nat)
    | FillRows(ids: set<Id>)
    | Finalize
    | DropVersion
    | DropColumn

  datatype Step = Served(write: Write) | Committed(tx: Transaction)

  // ---------------------------------------------------------------- one step

  function Max(a: int, b: int): int {
    if a < b then b else a
  }

  function Stored(t: Table, id: Id, row: Row): Table {
    t.(rows := t.rows[id := row], pages := Max(t.pages, row.page + 1))
  }

  /** An application write; one the database refuses changes nothing. */
  function Serve(t: Table, w: Write): Table {
    match w
    case OldInsert(id, reserved, page) =>
      if id in t.rows || reserved <= 0 then t
      else Stored(t, id, Row(reserved, if t.pinned then Some(0) else None, page))
    case NewInsert(id, reserved, bound, page) =>
      if id in t.rows || reserved <= 0 || !t.pinned then t
      else Stored(t, id, Row(reserved, Some(Max(reserved, bound)), page))
    case Rewrite(id, page) =>
      if id !in t.rows then t else Stored(t, id, t.rows[id].(page := page))
    case Remove(id) => t.(rows := t.rows - {id})
  }

  function Nulls(t: Table): set<Id> {
    set id | id in t.rows && t.rows[id].ceiling.None?
  }

  /** SET ceiling = reserved WHERE ceiling IS NULL, over the given rows. */
  function Fill(t: Table, ids: set<Id>): Table {
    t.(rows := map id | id in t.rows ::
        if id in ids && t.rows[id].ceiling.None? then t.rows[id].(ceiling := Some(t.rows[id].reserved)) else t.rows[id])
  }

  function OnPages(t: Table, lo: nat, hi: nat): set<Id> {
    set id | id in t.rows && lo <= t.rows[id].page < hi
  }

  /** SET NOT NULL scans the table and fails on any NULL. */
  function Pin(t: Table): Option<Table> {
    if Nulls(t) != {} then None else Some(t.(pinned := true))
  }

  function WithoutColumn(t: Table): Table {
    t.(rows := map id | id in t.rows :: t.rows[id].(ceiling := None), hasColumn := false, pinned := false)
  }

  /** A migrator transaction; None is a statement error, which rolls it back. */
  function Apply(t: Table, tx: Transaction): Option<Table> {
    match tx
    case AddVersion => Some(t.(versioned := true))
    case AddColumn => Some(t.(hasColumn := true))
    case FillPages(lo, hi) => if t.hasColumn then Some(Fill(t, OnPages(t, lo, hi))) else None
    case FillRows(ids) => if t.hasColumn then Some(Fill(t, ids)) else None
    case Finalize => if t.hasColumn then Pin(Fill(t, t.rows.Keys)) else None
    case DropVersion => Some(t.(versioned := false))
    case DropColumn => Some(WithoutColumn(t))
  }

  function StepTo(t: Table, step: Step): Table {
    match step
    case Served(w) => Serve(t, w)
    case Committed(tx) => if Apply(t, tx).Some? then Apply(t, tx).value else t
  }

  ghost function RunTo(t: Table, steps: seq<Step>): Table {
    if steps == [] then t else StepTo(RunTo(t, steps[..|steps| - 1]), steps[|steps| - 1])
  }

  // ---------------------------------------------------------------- exactly what a step does

  /** An application write touches its own row and nothing else, and never the schema. */
  lemma {:induction false} ServeExactly(t: Table, w: Write, id: Id)
    ensures var t' := Serve(t, w);
      && t' == t.(rows := t'.rows, pages := t'.pages) && t'.pages >= t.pages
      && (t'.pages == t.pages || (!w.Remove? && t'.pages == w.page + 1))
      && (id != w.id ==> (id in t'.rows <==> id in t.rows) && (id in t.rows ==> t'.rows[id] == t.rows[id]))
    ensures w.OldInsert? && w.id !in t.rows && w.reserved > 0 ==>
      w.id in Serve(t, w).rows && Serve(t, w).rows[w.id] == Row(w.reserved, if t.pinned then Some(0) else None, w.page)
    ensures w.NewInsert? && w.id !in t.rows && w.reserved > 0 && t.pinned ==>
      && w.id in Serve(t, w).rows
      && var row := Serve(t, w).rows[w.id];
         && row == Row(w.reserved, row.ceiling, w.page) && row.ceiling.Some?
         && row.ceiling.value >= w.reserved && row.ceiling.value >= w.bound
         && row.ceiling.value in {w.reserved, w.bound}
    ensures w.Rewrite? && w.id in t.rows ==>
      w.id in Serve(t, w).rows && Serve(t, w).rows[w.id] == Row(t.rows[w.id].reserved, t.rows[w.id].ceiling, w.page)
    ensures w.Remove? ==> w.id !in Serve(t, w).rows
    ensures (w.OldInsert? || w.NewInsert?) && (w.id in t.rows || w.reserved <= 0) ==> Serve(t, w) == t
  {
  }

  /** The ceiling a migrator transaction leaves a row with. */
  ghost predicate Refilled(before: Row, after: Row, tx: Transaction, id: Id) {
    && after.reserved == before.reserved && after.page == before.page
    && match tx
       case FillPages(lo, hi) =>
         after.ceiling == if before.ceiling.None? && lo <= before.page < hi then Some(before.reserved) else before.ceiling
       case FillRows(ids) =>
         after.ceiling == if before.ceiling.None? && id in ids then Some(before.reserved) else before.ceiling
       case Finalize => after.ceiling == if before.ceiling.None? then Some(before.reserved) else before.ceiling
       case DropColumn => after.ceiling.None?
       case _ => after.ceiling == before.ceiling
  }

  /** A migrator transaction fails only for want of the column; it keeps every row, and fills what it names. */
  lemma {:induction false} ApplyExactly(t: Table, tx: Transaction)
    ensures Apply(t, tx).None? <==> !t.hasColumn && (tx.FillPages? || tx.FillRows? || tx.Finalize?)
    ensures Apply(t, tx).Some? ==>
      var t' := Apply(t, tx).value;
      && t'.rows.Keys == t.rows.Keys && t'.pages == t.pages
      && (forall id <- t.rows :: Refilled(t.rows[id], t'.rows[id], tx, id))
      && t'.versioned == (if tx.AddVersion? then true else if tx.DropVersion? then false else t.versioned)
      && t'.hasColumn == (if tx.AddColumn? then true else if tx.DropColumn? then false else t.hasColumn)
      && t'.pinned == (if tx.Finalize? then true else if tx.DropColumn? then false else t.pinned)
  {
    FillAll(t);
  }

  // ---------------------------------------------------------------- what every run keeps

  /** Before the migration: any population of requests, and no ceiling column. */
  ghost predicate Start(t: Table) {
    && !t.hasColumn && !t.pinned
    && forall id <- t.rows :: t.rows[id].reserved > 0 && t.rows[id].page < t.pages && t.rows[id].ceiling.None?
  }

  ghost predicate Sound(t: Table) {
    && (t.pinned ==> t.hasColumn)
    && forall id <- t.rows :: SoundRow(t, t.rows[id])
  }

  ghost predicate SoundRow(t: Table, row: Row) {
    && row.reserved > 0
    && row.page < t.pages
    && (!t.hasColumn ==> row.ceiling.None?)
    && (!t.pinned ==> row.ceiling.None? || row.ceiling.value == row.reserved)
    && (t.pinned ==> row.ceiling.Some?)
  }

  lemma ServeKeepsSound(t: Table, w: Write)
    requires Sound(t)
    ensures Sound(Serve(t, w))
  {
    var t' := Serve(t, w);
    forall id | id in t'.rows
      ensures SoundRow(t', t'.rows[id])
    {
      assert id in t.rows ==> SoundRow(t, t.rows[id]);
    }
  }

  lemma ApplyKeepsSound(t: Table, tx: Transaction)
    requires Sound(t) && Apply(t, tx).Some?
    ensures Sound(Apply(t, tx).value)
  {
    var t' := Apply(t, tx).value;
    if tx.Finalize? {
      FillAll(t);
    }
    forall id | id in t'.rows
      ensures SoundRow(t', t'.rows[id])
    {
      assert SoundRow(t, t.rows[id]);
    }
  }

  /** Filling every row leaves no NULL, and touches nothing that already has a value. */
  lemma FillAll(t: Table)
    ensures Nulls(Fill(t, t.rows.Keys)) == {}
    ensures Nulls(t) == {} ==> Fill(t, t.rows.Keys) == t
  {
    if Nulls(t) == {} {
      assert forall id <- t.rows :: id !in Nulls(t);
      assert Fill(t, t.rows.Keys).rows == t.rows;
    }
  }

  /** Until the final transaction a ceiling is NULL or the row's own reservation. */
  lemma {:induction false} RunKeepsSound(t: Table, steps: seq<Step>)
    requires Start(t)
    ensures Sound(RunTo(t, steps))
  {
    if steps != [] {
      RunKeepsSound(t, steps[..|steps| - 1]);
      var before, step := RunTo(t, steps[..|steps| - 1]), steps[|steps| - 1];
      match step
      case Served(w) => ServeKeepsSound(before, w);
      case Committed(tx) => if Apply(before, tx).Some? { ApplyKeepsSound(before, tx); }
    }
  }

  /** The final transaction cannot fail, and leaves every row its own positive reservation. */
  lemma FinalizeSucceeds(t: Table, steps: seq<Step>)
    requires Start(t) && RunTo(t, steps).hasColumn
    ensures Apply(RunTo(t, steps), Finalize).Some?
    ensures var before, after := RunTo(t, steps), Apply(RunTo(t, steps), Finalize).value;
      && after.pinned && after.rows.Keys == before.rows.Keys
      && (!before.pinned ==> forall id <- after.rows :: after.rows[id].ceiling == Some(after.rows[id].reserved) &&
                                                       after.rows[id].reserved > 0)
      && (before.pinned ==> after == before)
  {
    RunKeepsSound(t, steps);
    var before := RunTo(t, steps);
    FillAll(before);
    forall id | id in before.rows
      ensures before.pinned ==> id !in Nulls(before)
      ensures before.rows[id].reserved > 0
      ensures !before.pinned ==> Fill(before, before.rows.Keys).rows[id].ceiling == Some(before.rows[id].reserved)
    {
      assert SoundRow(before, before.rows[id]);
    }
  }

  /** Why the residue update shares the lock: a request admitted after the last fill fails SET NOT NULL. */
  lemma InsertAfterFillBreaksPin(t: Table, steps: seq<Step>, id: Id, reserved: int, page: nat)
    requires Start(t) && !RunTo(t, steps).pinned && id !in RunTo(t, steps).rows && reserved > 0
    ensures Pin(RunTo(t, steps + [Served(OldInsert(id, reserved, page))])).None?
  {
    var longer := steps + [Served(OldInsert(id, reserved, page))];
    assert longer[..|longer| - 1] == steps;
    assert id in Nulls(RunTo(t, longer));
  }

  // ---------------------------------------------------------------- after the final transaction

  ghost predicate NoDrops(steps: seq<Step>) {
    Committed(DropColumn) !in steps && Committed(DropVersion) !in steps
  }

  /** On a pinned table the migrator's transactions find nothing to do. */
  lemma PinnedIsFixpoint(t: Table, tx: Transaction)
    requires Sound(t) && t.pinned && t.versioned && tx != DropColumn && tx != DropVersion
    ensures Apply(t, tx) == Some(t)
  {
    forall id | id in t.rows
      ensures t.rows[id].ceiling.Some?
    {
      assert SoundRow(t, t.rows[id]);
    }
    forall ids: set<Id>
      ensures Fill(t, ids) == t
    {
      assert Fill(t, ids).rows == t.rows;
    }
    assert Nulls(t) == {};
  }

  ghost function WritesOf(steps: seq<Step>): seq<Step> {
    if steps == [] then []
    else
      var init, last := WritesOf(steps[..|steps| - 1]), steps[|steps| - 1];
      if last.Served? then init + [last] else init
  }

  /** Re-running a finished upgrade is invisible: the table is what the application writes alone make it. */
  lemma {:induction false} RerunChangesNothing(t: Table, steps: seq<Step>)
    requires Sound(t) && t.pinned && t.versioned && NoDrops(steps)
    ensures RunTo(t, steps) == RunTo(t, WritesOf(steps))
    ensures Sound(RunTo(t, steps)) && RunTo(t, steps).pinned && RunTo(t, steps).versioned
  {
    if steps != [] {
      var init, last := steps[..|steps| - 1], steps[|steps| - 1];
      assert last in steps;
      RerunChangesNothing(t, init);
      match last
      case Served(w) =>
        ServeKeepsSound(RunTo(t, init), w);
        assert WritesOf(steps)[..|WritesOf(steps)| - 1] == WritesOf(init);
      case Committed(tx) =>
        PinnedIsFixpoint(RunTo(t, init), tx);
    }
  }

  /** A row present at the final commit keeps that ceiling for as long as it exists. */
  lemma {:induction false} CeilingIsKept(t: Table, steps: seq<Step>, id: Id)
    requires Sound(t) && t.pinned && t.versioned && NoDrops(steps)
    requires id in t.rows && Served(Remove(id)) !in steps
    ensures id in RunTo(t, steps).rows
    ensures RunTo(t, steps).rows[id].ceiling == t.rows[id].ceiling
    ensures RunTo(t, steps).rows[id].reserved == t.rows[id].reserved
  {
    if steps != [] {
      var init, last := steps[..|steps| - 1], steps[|steps| - 1];
      assert last in steps;
      CeilingIsKept(t, init, id);
      RerunChangesNothing(t, init);
      if last.Committed? {
        PinnedIsFixpoint(RunTo(t, init), last.tx);
      }
    }
  }

  /** Requests the old build admitted while the default was already in force. */
  ghost function Late(t: Table, steps: seq<Step>): set<Id> {
    if steps == [] then {}
    else
      var before, late := RunTo(t, steps[..|steps| - 1]), Late(t, steps[..|steps| - 1]);
      match steps[|steps| - 1]
      case Served(OldInsert(id, reserved, _)) =>
        if before.pinned && id !in before.rows && reserved > 0 then late + {id} else late
      case Served(Remove(id)) => late - {id}
      case Committed(DropColumn) => {}
      case _ => late
  }

  lemma {:induction false} LateArePresent(t: Table, steps: seq<Step>)
    ensures Late(t, steps) <= RunTo(t, steps).rows.Keys
  {
    if steps != [] {
      LateArePresent(t, steps[..|steps| - 1]);
    }
  }

  /** A zero ceiling is exactly an old-build insert that came after the final commit. */
  lemma {:induction false} ZeroCeilingIffLate(t: Table, steps: seq<Step>, id: Id)
    requires Start(t) && id in RunTo(t, steps).rows
    ensures RunTo(t, steps).rows[id].ceiling == Some(0) <==> id in Late(t, steps)
  {
    if steps != [] {
      var init, last := steps[..|steps| - 1], steps[|steps| - 1];
      var before := RunTo(t, init);
      LateArePresent(t, init);
      RunKeepsSound(t, init);
      if id in before.rows {
        ZeroCeilingIffLate(t, init, id);
        assert SoundRow(before, before.rows[id]);
      }
    }
  }
}
