/**
 Table locks on the three hot tables, with PostgreSQL's wait queue.

 A request waits for every transaction holding a conflicting mode and also for every earlier
 request in the queue whose mode conflicts, so a queued ACCESS EXCLUSIVE holds up everything
 behind it. A transaction that already holds a lock on the table is served ahead of the queue.
 */
module TableLocks {
  import opened Graph
  import opened Options
  import ChargeCeiling

  datatype HotTable = Tickets | Grants | Requests

  /** The order in which the application locks the hot tables. */
  function Place(t: HotTable): nat {
    match t case Tickets => 0 case Grants => 1 case Requests => 2
  }

  datatype Mode = AccessShare | RowShare | RowExclusive | AccessExclusive

  /** The three row-level modes coexist; ACCESS EXCLUSIVE tolerates nothing. */
  predicate Conflicts(a: Mode, b: Mode) {
    a == AccessExclusive || b == AccessExclusive
  }

  type TxId = nat

  datatype Kind = Application | Migration

  datatype Lock = Lock(table: HotTable, mode: Mode)

  datatype Tx = Tx(kind: Kind, held: set<Lock>, wanted: Option<Lock>)

  /** `queue` lists the waiting transactions in order of arrival. */
  datatype State = State(txs: map<TxId, Tx>, queue: seq<TxId>)

  datatype Action =
    | Begin(id: TxId, kind: Kind)
    | Request(id: TxId, lock: Lock)
    | Grant(id: TxId)
    | End(id: TxId)

  // ---------------------------------------------------------------- lock manager

  predicate HolderBlocks(s: State, u: TxId, id: TxId, lock: Lock) {
    u in s.txs && u != id && exists l <- s.txs[u].held :: l.table == lock.table && Conflicts(l.mode, lock.mode)
  }

  predicate WaiterBlocks(s: State, u: TxId, lock: Lock) {
    && u in s.txs && s.txs[u].wanted.Some?
    && s.txs[u].wanted.value.table == lock.table
    && Conflicts(s.txs[u].wanted.value.mode, lock.mode)
  }

  predicate Holds(tx: Tx, t: HotTable) {
    exists l <- tx.held :: l.table == t
  }

  /** Whether a lock can be given out, with `ahead` the part of the queue that goes first. */
  predicate Free(s: State, id: TxId, lock: Lock, ahead: seq<TxId>)
    requires id in s.txs
  {
    && (forall u <- s.txs :: !HolderBlocks(s, u, id, lock))
    && (Holds(s.txs[id], lock.table) || forall u <- ahead :: !WaiterBlocks(s, u, lock))
  }

  function Without(queue: seq<TxId>, id: TxId): seq<TxId> {
    if queue == [] then []
    else if queue[0] == id then Without(queue[1..], id)
    else [queue[0]] + Without(queue[1..], id)
  }

  function Ahead(queue: seq<TxId>, id: TxId): seq<TxId> {
    if queue == [] || queue[0] == id then [] else [queue[0]] + Ahead(queue[1..], id)
  }

  /** The next state; an action that is not possible changes nothing. */
  function Next(s: State, a: Action): State {
    match a
    case Begin(id, kind) =>
      if id in s.txs then s else s.(txs := s.txs[id := Tx(kind, {}, None)])
    case Request(id, lock) =>
      if id !in s.txs || s.txs[id].wanted.Some? then s
      else if Free(s, id, lock, s.queue) then s.(txs := s.txs[id := s.txs[id].(held := s.txs[id].held + {lock})])
      else State(s.txs[id := s.txs[id].(wanted := Some(lock))], s.queue + [id])
    case Grant(id) =>
      if id !in s.txs || s.txs[id].wanted.None? then s
      else
        var lock := s.txs[id].wanted.value;
        if !Free(s, id, lock, Ahead(s.queue, id)) then s
        else State(s.txs[id := s.txs[id].(held := s.txs[id].held + {lock}, wanted := None)], Without(s.queue, id))
    case End(id) =>
      State(s.txs - {id}, Without(s.queue, id))
  }

  ghost function After(actions: seq<Action>): State {
    if actions == [] then State(map[], [])
    else Next(After(actions[..|actions| - 1]), actions[|actions| - 1])
  }

  // ---------------------------------------------------------------- who may ask for what

  /**
   Application transactions take row-level modes only. A migration transaction works on one table
   and asks for its strongest mode first.
   */
  ghost predicate Disciplined(s: State, a: Action) {
    a.Request? && a.id in s.txs ==>
      var tx := s.txs[a.id];
      match tx.kind
      case Application => a.lock.mode != AccessExclusive
      case Migration =>
        && (forall l <- tx.held :: l.table == a.lock.table)
        && (a.lock.mode == AccessExclusive && tx.held != {} ==> a.lock in tx.held)
  }

  /** The application asks for tables in the order tickets, grants, requests. */
  ghost predicate InTableOrder(s: State, a: Action) {
    a.Request? && a.id in s.txs && s.txs[a.id].kind.Application? ==>
      forall l <- s.txs[a.id].held :: Place(l.table) <= Place(a.lock.table)
  }

  /** A migration transaction starts only when no other is open. */
  ghost predicate OneMigrator(s: State, a: Action) {
    a.Begin? && a.kind.Migration? ==> forall t <- s.txs :: s.txs[t].kind.Application?
  }

  datatype Regime = TableOrder | SingleMigrator

  ghost predicate Obeys(regime: Regime, s: State, a: Action) {
    Disciplined(s, a) && match regime case TableOrder => InTableOrder(s, a) case SingleMigrator => OneMigrator(s, a)
  }

  ghost predicate DisciplinedRun(regime: Regime, actions: seq<Action>) {
    actions == [] ||
    (DisciplinedRun(regime, actions[..|actions| - 1]) &&
     Obeys(regime, After(actions[..|actions| - 1]), actions[|actions| - 1]))
  }

  // ---------------------------------------------------------------- what every run keeps

  ghost predicate TxSound(tx: Tx) {
    && (tx.kind.Application? ==> forall l <- tx.held :: l.mode != AccessExclusive)
    && (tx.kind.Application? && tx.wanted.Some? ==> tx.wanted.value.mode != AccessExclusive)
    && (tx.kind.Migration? ==> forall l <- tx.held, k <- tx.held :: l.table == k.table)
    && (tx.kind.Migration? && tx.wanted.Some? ==> tx.held == {})
    && (tx.wanted.Some? ==> !Holds(tx, tx.wanted.value.table))
  }

  /** What a regime adds: waits point to later tables, or there is at most one migrator. */
  ghost predicate RegimeHolds(regime: Regime, s: State) {
    match regime
    case TableOrder =>
      forall t <- s.txs :: s.txs[t].kind.Application? && s.txs[t].wanted.Some? ==>
        forall l <- s.txs[t].held :: Place(l.table) <= Place(s.txs[t].wanted.value.table)
    case SingleMigrator =>
      forall t, u :: t in s.txs && u in s.txs && s.txs[t].kind.Migration? && s.txs[u].kind.Migration? ==> t == u
  }

  ghost predicate Compatible(s: State) {
    forall t, u :: t in s.txs && u in s.txs && t != u ==>
      forall l <- s.txs[t].held, k <- s.txs[u].held :: l.table == k.table ==> !Conflicts(l.mode, k.mode)
  }

  ghost predicate Inv(s: State) {
    && (forall t <- s.txs :: TxSound(s.txs[t]))
    && Compatible(s)
    && QueueSound(s)
  }

  /** The queue lists exactly the transactions that want something, once each. */
  ghost predicate QueueSound(s: State) {
    && (forall i, j :: 0 <= i < j < |s.queue| ==> s.queue[i] != s.queue[j])
    && (forall t <- s.queue :: t in s.txs && s.txs[t].wanted.Some?)
    && (forall t <- s.txs :: s.txs[t].wanted.Some? ==> t in s.queue)
  }

  lemma {:induction false} WithoutFacts(queue: seq<TxId>, id: TxId)
    requires forall i, j :: 0 <= i < j < |queue| ==> queue[i] != queue[j]
    ensures forall t :: t in Without(queue, id) <==> t in queue && t != id
    ensures forall i, j :: 0 <= i < j < |Without(queue, id)| ==> Without(queue, id)[i] != Without(queue, id)[j]
  {
    if queue != [] {
      WithoutFacts(queue[1..], id);
      assert queue == [queue[0]] + queue[1..];
      assert queue[0] !in queue[1..];
    }
  }

  /** A transaction already holding the table is never made to wait for it again. */
  lemma ReentrantIsFree(s: State, id: TxId, lock: Lock)
    requires Inv(s) && id in s.txs && Disciplined(s, Request(id, lock)) && Holds(s.txs[id], lock.table)
    ensures Free(s, id, lock, s.queue)
  {
    forall u | u in s.txs
      ensures !HolderBlocks(s, u, id, lock)
    {
    }
  }

  lemma TakingKeepsCompatible(s: State, id: TxId, lock: Lock, tx: Tx)
    requires Compatible(s) && id in s.txs && tx.held == s.txs[id].held + {lock}
    requires forall u <- s.txs :: !HolderBlocks(s, u, id, lock)
    ensures Compatible(s.(txs := s.txs[id := tx]))
  {
    forall u | u in s.txs && u != id
      ensures forall k <- s.txs[u].held :: k.table == lock.table ==> !Conflicts(k.mode, lock.mode)
    {
      assert !HolderBlocks(s, u, id, lock);
    }
  }

  /** A request that must wait comes from a transaction without a lock on that table. */
  lemma WaitingTxSound(s: State, id: TxId, lock: Lock)
    requires Inv(s) && id in s.txs && s.txs[id].wanted.None?
    requires Disciplined(s, Request(id, lock)) && !Free(s, id, lock, s.queue)
    ensures TxSound(s.txs[id].(wanted := Some(lock)))
  {
    if Holds(s.txs[id], lock.table) {
      ReentrantIsFree(s, id, lock);
      assert false;
    }
    assert TxSound(s.txs[id]);
    assert s.txs[id].kind.Migration? ==> forall l :: l !in s.txs[id].held;
  }

  lemma {:induction false} ServedRequestKeepsInv(s: State, id: TxId, lock: Lock)
    requires Inv(s) && Disciplined(s, Request(id, lock)) && id in s.txs && s.txs[id].wanted.None?
    requires Free(s, id, lock, s.queue)
    ensures Inv(Next(s, Request(id, lock)))
  {
    var tx := s.txs[id].(held := s.txs[id].held + {lock});
    var s' := s.(txs := s.txs[id := tx]);
    assert Compatible(s') by {
      TakingKeepsCompatible(s, id, lock, tx);
    }
    assert QueueSound(s');
    assert TxSound(tx) by {
      assert TxSound(s.txs[id]);
      TakingKeepsTxSound(s.txs[id], lock);
    }
    assert forall t <- s'.txs :: TxSound(s'.txs[t]);
    assert s' == Next(s, Request(id, lock));
  }

  lemma TakingKeepsTxSound(tx: Tx, lock: Lock)
    requires TxSound(tx) && tx.wanted.None?
    requires tx.kind.Application? ==> lock.mode != AccessExclusive
    requires tx.kind.Migration? ==> forall l <- tx.held :: l.table == lock.table
    ensures TxSound(tx.(held := tx.held + {lock}))
  {
  }

  lemma JoiningQueue(s: State, id: TxId, tx: Tx)
    requires QueueSound(s) && id in s.txs && s.txs[id].wanted.None? && tx.wanted.Some?
    ensures QueueSound(State(s.txs[id := tx], s.queue + [id]))
  {
    assert id !in s.queue;
  }

  lemma WantingKeepsCompatible(s: State, id: TxId, tx: Tx)
    requires Compatible(s) && id in s.txs && tx.held == s.txs[id].held
    ensures Compatible(State(s.txs[id := tx], s.queue + [id]))
  {
    var txs := s.txs[id := tx];
    assert forall t <- s.txs :: txs[t].held == s.txs[t].held;
  }

  lemma {:induction false} QueuedRequestKeepsInv(s: State, id: TxId, lock: Lock)
    requires Inv(s) && Disciplined(s, Request(id, lock)) && id in s.txs && s.txs[id].wanted.None?
    requires !Free(s, id, lock, s.queue)
    ensures Inv(Next(s, Request(id, lock)))
  {
    var tx := s.txs[id].(wanted := Some(lock));
    var s' := State(s.txs[id := tx], s.queue + [id]);
    assert TxSound(tx) by {
      WaitingTxSound(s, id, lock);
    }
    JoiningQueue(s, id, tx);
    WantingKeepsCompatible(s, id, tx);
    assert forall t <- s'.txs :: TxSound(s'.txs[t]);
    assert s' == Next(s, Request(id, lock));
  }

  lemma {:induction false} GrantKeepsInv(s: State, id: TxId)
    requires Inv(s) && id in s.txs && s.txs[id].wanted.Some?
    requires Free(s, id, s.txs[id].wanted.value, Ahead(s.queue, id))
    ensures Inv(Next(s, Grant(id)))
  {
    var lock := s.txs[id].wanted.value;
    var tx := s.txs[id].(held := s.txs[id].held + {lock}, wanted := None);
    TakingKeepsCompatible(s, id, lock, tx);
    var s' := State(s.txs[id := tx], Without(s.queue, id));
    assert Compatible(s');
    assert QueueSound(s') by {
      WithoutFacts(s.queue, id);
    }
    assert TxSound(tx) by {
      assert TxSound(s.txs[id]);
    }
  }

  lemma EndKeepsInv(s: State, id: TxId)
    requires Inv(s)
    ensures Inv(Next(s, End(id)))
  {
    WithoutFacts(s.queue, id);
  }

  lemma {:induction false} NextKeepsInv(s: State, a: Action)
    requires Inv(s) && Disciplined(s, a)
    ensures Inv(Next(s, a))
  {
    match a
    case Begin(id, kind) =>
    case Request(id, lock) =>
      if id in s.txs && s.txs[id].wanted.None? {
        if Free(s, id, lock, s.queue) {
          ServedRequestKeepsInv(s, id, lock);
        } else {
          QueuedRequestKeepsInv(s, id, lock);
        }
      }
    case Grant(id) =>
      if id in s.txs && s.txs[id].wanted.Some? && Next(s, a) != s { GrantKeepsInv(s, id); }
    case End(id) => EndKeepsInv(s, id);
  }

  lemma NextKeepsRegime(regime: Regime, s: State, a: Action)
    requires RegimeHolds(regime, s) && Obeys(regime, s, a)
    ensures RegimeHolds(regime, Next(s, a))
  {
  }

  lemma {:induction false} RunKeepsInv(regime: Regime, actions: seq<Action>)
    requires DisciplinedRun(regime, actions)
    ensures Inv(After(actions)) && RegimeHolds(regime, After(actions))
  {
    if actions != [] {
      var before, last := After(actions[..|actions| - 1]), actions[|actions| - 1];
      RunKeepsInv(regime, actions[..|actions| - 1]);
      NextKeepsInv(before, last);
      NextKeepsRegime(regime, before, last);
    }
  }

  // ---------------------------------------------------------------- deadlock freedom

  /** `t` cannot get what it wants before `u` gives way. */
  ghost predicate WaitsFor(s: State, t: TxId, u: TxId) {
    && t in s.txs && u in s.txs && s.txs[t].wanted.Some?
    && (|| HolderBlocks(s, u, t, s.txs[t].wanted.value)
        || (u in Ahead(s.queue, t) && WaiterBlocks(s, u, s.txs[t].wanted.value)))
  }

  ghost function WaitGraph(s: State): Edges<TxId> {
    set t, u | t in s.txs && u in s.txs && WaitsFor(s, t, u) :: (t, u)
  }

  lemma {:induction false} AheadIsEarlier(queue: seq<TxId>, t: TxId)
    requires t in queue
    ensures |Ahead(queue, t)| < |queue| && Ahead(queue, t) == queue[..|Ahead(queue, t)|]
    ensures queue[|Ahead(queue, t)|] == t && t !in Ahead(queue, t)
  {
    if queue[0] != t {
      AheadIsEarlier(queue[1..], t);
    }
  }

  /** `width` ranks for each table, in table order. */
  ghost function Level(place: nat, width: nat): nat {
    if place == 0 then 0 else if place == 1 then width else if place == 2 then 2 * width else 3 * width
  }

  /**
   Every wait goes to a higher rank. Under the table order, later tables and earlier queue positions
   rank higher. With a single migrator, every chain of waits runs through it: what waits for the
   migrator is below it, everything else above.
   */
  ghost function Rank(regime: Regime, s: State, t: TxId): int
    requires t in s.txs
  {
    match regime
    case TableOrder =>
      var width := |s.queue| + 1;
      match s.txs[t].wanted {
        case None => Level(3, width)
        case Some(lock) => Level(Place(lock.table), width) + (|s.queue| - |Ahead(s.queue, t)|)
      }
    case SingleMigrator =>
      if s.txs[t].kind.Migration? then 1
      else if exists m <- s.txs :: s.txs[m].kind.Migration? && WaitsFor(s, t, m) then 0
      else 2
  }

  lemma WaitsUphillByTable(s: State, t: TxId, u: TxId)
    requires Inv(s) && RegimeHolds(TableOrder, s) && WaitsFor(s, t, u)
    ensures Rank(TableOrder, s, t) < Rank(TableOrder, s, u)
  {
    AheadIsEarlier(s.queue, t);
    var lock := s.txs[t].wanted.value;
    if s.txs[u].wanted.Some? {
      AheadIsEarlier(s.queue, u);
      assert TxSound(s.txs[u]);
      if HolderBlocks(s, u, t, lock) {
        assert Place(lock.table) < Place(s.txs[u].wanted.value.table);
      } else {
        PositionsOrdered(s.queue, t, u);
      }
    }
  }

  /** Row-level modes never wait for each other, and what blocks the migrator does not wait for it. */
  lemma WaitsUphillByMigrator(s: State, t: TxId, u: TxId)
    requires Inv(s) && RegimeHolds(SingleMigrator, s) && WaitsFor(s, t, u)
    ensures Rank(SingleMigrator, s, t) < Rank(SingleMigrator, s, u)
  {
    assert TxSound(s.txs[t]) && TxSound(s.txs[u]);
    AheadIsEarlier(s.queue, t);
    if s.txs[t].kind.Migration? {
      var lock := s.txs[t].wanted.value;
      forall m | m in s.txs && s.txs[m].kind.Migration?
        ensures !WaitsFor(s, u, m)
      {
        assert m == t;
        if u in Ahead(s.queue, t) && t in Ahead(s.queue, u) && s.txs[u].wanted.Some? {
          PositionsOrdered(s.queue, t, u);
          PositionsOrdered(s.queue, u, t);
          assert false;
        }
      }
    }
  }

  lemma PositionsOrdered(queue: seq<TxId>, t: TxId, u: TxId)
    requires t in queue && u in Ahead(queue, t)
    requires forall i, j :: 0 <= i < j < |queue| ==> queue[i] != queue[j]
    ensures u in queue && |Ahead(queue, u)| < |Ahead(queue, t)|
  {
    AheadIsEarlier(queue, t);
    var i :| 0 <= i < |Ahead(queue, t)| && Ahead(queue, t)[i] == u;
    assert queue[i] == u;
    AheadIsEarlier(queue, u);
  }

  /** No run of disciplined transactions reaches a cycle of waits. */
  lemma {:induction false} NoDeadlock(regime: Regime, actions: seq<Action>)
    requires DisciplinedRun(regime, actions)
    ensures Acyclic(WaitGraph(After(actions)))
  {
    var s := After(actions);
    RunKeepsInv(regime, actions);
    var rank := map t | t in s.txs :: Rank(regime, s, t);
    forall e | e in WaitGraph(s)
      ensures e.0 in rank && e.1 in rank && rank[e.0] < rank[e.1]
    {
      match regime
      case TableOrder => WaitsUphillByTable(s, e.0, e.1);
      case SingleMigrator => WaitsUphillByMigrator(s, e.0, e.1);
    }
    RankedIsAcyclic(WaitGraph(s), rank);
  }

  /** Whenever somebody waits, somebody waits only for transactions that are running. */
  lemma SomebodyCanProceed(regime: Regime, actions: seq<Action>) returns (t: TxId)
    requires DisciplinedRun(regime, actions) && After(actions).queue != []
    ensures var s := After(actions);
      t in s.queue && forall u <- s.txs :: WaitsFor(s, t, u) ==> s.txs[u].wanted.None?
  {
    var s := After(actions);
    NoDeadlock(regime, actions);
    RunKeepsInv(regime, actions);
    var waiting := set x | x in s.queue;
    assert s.queue[0] in waiting;
    if Trap(WaitGraph(s), waiting) {
      NoTrap(WaitGraph(s), waiting);
      assert false;
    }
    t :| t in waiting && !CanStay(WaitGraph(s), waiting, t);
    forall u | u in s.txs && WaitsFor(s, t, u)
      ensures s.txs[u].wanted.None?
    {
      assert (t, u) in WaitGraph(s);
    }
  }

  // ---------------------------------------------------------------- the queue drains

  /** Nothing is in the way of a waiter exactly when it waits for nobody. */
  lemma {:induction false} FreeIffWaitsForNobody(s: State, id: TxId)
    requires Inv(s) && id in s.txs && s.txs[id].wanted.Some?
    ensures Free(s, id, s.txs[id].wanted.value, Ahead(s.queue, id)) <==> forall u <- s.txs :: !WaitsFor(s, id, u)
  {
    AheadIsEarlier(s.queue, id);
    assert TxSound(s.txs[id]);
    forall u | u in Ahead(s.queue, id)
      ensures u in s.txs
    {
      assert u in s.queue;
    }
  }

  /** A waiter is served exactly when it waits for nobody: it then holds its lock and leaves the queue. */
  lemma {:induction false} GrantServesIff(s: State, id: TxId)
    requires Inv(s) && id in s.txs && s.txs[id].wanted.Some?
    ensures var s', tx := Next(s, Grant(id)), s.txs[id];
      if forall u <- s.txs :: !WaitsFor(s, id, u)
      then
        && s'.txs == s.txs[id := Tx(tx.kind, tx.held + {tx.wanted.value}, None)]
        && forall u :: u in s'.queue <==> u in s.queue && u != id
      else s' == s
  {
    FreeIffWaitsForNobody(s, id);
    WithoutFacts(s.queue, id);
  }

  lemma {:induction false} WithoutAbsent(queue: seq<TxId>, id: TxId)
    requires id !in queue
    ensures Without(queue, id) == queue
  {
    if queue != [] {
      WithoutAbsent(queue[1..], id);
      assert queue == [queue[0]] + queue[1..];
    }
  }

  lemma RunOn(regime: Regime, actions: seq<Action>, a: Action)
    requires DisciplinedRun(regime, actions) && (a.End? || a.Grant?)
    ensures DisciplinedRun(regime, actions + [a]) && After(actions + [a]) == Next(After(actions), a)
  {
    var longer := actions + [a];
    assert longer[..|longer| - 1] == actions;
  }

  /** Running transactions can end one after the other, and only they are gone then. */
  lemma {:induction false} EndAll(regime: Regime, actions: seq<Action>, gone: set<TxId>) returns (ends: seq<Action>)
    requires DisciplinedRun(regime, actions)
    requires forall u <- gone :: u in After(actions).txs && u !in After(actions).queue
    ensures forall a <- ends :: a.End? && a.id in gone
    ensures DisciplinedRun(regime, actions + ends)
    ensures After(actions + ends) == State(After(actions).txs - gone, After(actions).queue)
    decreases |gone|
  {
    if gone == {} {
      ends := [];
      assert actions + ends == actions;
    } else {
      var u :| u in gone;
      var others := EndAll(regime, actions, gone - {u});
      ends := others + [End(u)];
      assert actions + ends == (actions + others) + [End(u)];
      RunOn(regime, actions + others, End(u));
      WithoutAbsent(After(actions).queue, u);
      assert After(actions).txs - (gone - {u}) - {u} == After(actions).txs - gone;
    }
  }

  /** Whenever somebody waits, some waiter gets its lock once the running transactions it waits for have ended. */
  lemma {:induction false} SomebodyIsServed(regime: Regime, actions: seq<Action>) returns (t: TxId, ends: seq<Action>)
    requires DisciplinedRun(regime, actions) && After(actions).queue != []
    ensures forall a <- ends :: a.End? && a.id in After(actions).txs && After(actions).txs[a.id].wanted.None?
    ensures DisciplinedRun(regime, actions + ends + [Grant(t)])
    ensures t in After(actions).queue && t in After(actions).txs && After(actions).txs[t].wanted.Some?
    ensures var s', tx := After(actions + ends + [Grant(t)]), After(actions).txs[t];
      && t !in s'.queue && t in s'.txs && s'.txs[t] == Tx(tx.kind, tx.held + {tx.wanted.value}, None)
  {
    var s := After(actions);
    RunKeepsInv(regime, actions);
    t := SomebodyCanProceed(regime, actions);
    var gone := set u | u in s.txs && WaitsFor(s, t, u);
    ends := EndAll(regime, actions, gone);
    RunKeepsInv(regime, actions + ends);
    var cleared := After(actions + ends);
    assert t !in gone;
    forall u | u in cleared.txs
      ensures !WaitsFor(cleared, t, u)
    {
      assert WaitsFor(cleared, t, u) ==> WaitsFor(s, t, u);
    }
    RunOn(regime, actions + ends, Grant(t));
    GrantServesIff(cleared, t);
  }

  // ---------------------------------------------------------------- the abandoned shape

  /** One migration transaction over requests and then grants, against one inference call. */
  const ABANDONED: seq<Action> := [
    Begin(0, Migration),
    Request(0, Lock(Requests, AccessExclusive)),
    Begin(1, Application),
    Request(1, Lock(Tickets, RowShare)),
    Request(1, Lock(Grants, RowShare)),
    Request(1, Lock(Requests, RowExclusive)),
    Request(0, Lock(Grants, AccessExclusive))
  ]

  lemma AfterOneMore(actions: seq<Action>, k: nat)
    requires k < |actions|
    ensures After(actions[..k + 1]) == Next(After(actions[..k]), actions[k])
  {
    assert actions[..k + 1][..k] == actions[..k];
  }

  /** A request that conflicts with somebody's lock is queued. */
  lemma RequestMustWait(s: State, id: TxId, holder: TxId, lock: Lock, other: Lock)
    requires id in s.txs && s.txs[id].wanted.None? && holder in s.txs && holder != id && other in s.txs[holder].held
    requires other.table == lock.table && Conflicts(other.mode, lock.mode)
    ensures HolderBlocks(s, holder, id, lock)
    ensures Next(s, Request(id, lock)) == State(s.txs[id := s.txs[id].(wanted := Some(lock))], s.queue + [id])
  {
    assert HolderBlocks(s, holder, id, lock);
  }

  const MIGRATOR := Tx(Migration, {Lock(Requests, AccessExclusive)}, None)

  lemma AbandonedMigratorLocks()
    ensures After(ABANDONED[..2]) == State(map[0 := MIGRATOR], [])
  {
    AfterOneMore(ABANDONED, 0);
    var s1 := After(ABANDONED[..1]);
    assert ABANDONED[..0] == [] && s1 == State(map[0 := Tx(Migration, {}, None)], []);
    AfterOneMore(ABANDONED, 1);
    assert s1.txs[0].held + {Lock(Requests, AccessExclusive)} == MIGRATOR.held;
    assert Free(s1, 0, Lock(Requests, AccessExclusive), []);
    assert After(ABANDONED[..2]).txs == map[0 := MIGRATOR];
  }

  lemma AbandonedCallerLocks()
    ensures After(ABANDONED[..4]) ==
      State(map[0 := MIGRATOR, 1 := Tx(Application, {Lock(Tickets, RowShare)}, None)], [])
  {
    AbandonedMigratorLocks();
    AfterOneMore(ABANDONED, 2);
    var s3 := After(ABANDONED[..3]);
    assert s3 == State(map[0 := MIGRATOR, 1 := Tx(Application, {}, None)], []);
    AfterOneMore(ABANDONED, 3);
    assert s3.txs[1].held + {Lock(Tickets, RowShare)} == {Lock(Tickets, RowShare)};
    assert After(ABANDONED[..4]).txs == map[0 := MIGRATOR, 1 := Tx(Application, {Lock(Tickets, RowShare)}, None)];
  }

  lemma AbandonedCallerLocksBoth()
    ensures After(ABANDONED[..5]) ==
      State(map[0 := MIGRATOR, 1 := Tx(Application, {Lock(Tickets, RowShare), Lock(Grants, RowShare)}, None)], [])
  {
    AbandonedCallerLocks();
    AfterOneMore(ABANDONED, 4);
    var s4 := After(ABANDONED[..4]);
    assert s4.txs[1].held + {Lock(Grants, RowShare)} == {Lock(Tickets, RowShare), Lock(Grants, RowShare)};
    assert Free(s4, 1, Lock(Grants, RowShare), []);
    assert After(ABANDONED[..5]).txs ==
      map[0 := MIGRATOR, 1 := Tx(Application, {Lock(Tickets, RowShare), Lock(Grants, RowShare)}, None)];
  }

  lemma AbandonedCallerWaits()
    ensures var s := After(ABANDONED[..6]);
      && s.txs == map[0 := MIGRATOR,
                      1 := Tx(Application, {Lock(Tickets, RowShare), Lock(Grants, RowShare)},
                              Some(Lock(Requests, RowExclusive)))]
      && s.queue == [1]
  {
    AbandonedCallerLocksBoth();
    AfterOneMore(ABANDONED, 5);
    RequestMustWait(After(ABANDONED[..5]), 1, 0, Lock(Requests, RowExclusive), Lock(Requests, AccessExclusive));
  }

  /** The abandoned transaction reaches a state where each waits for the other. */
  lemma AbandonedDeadlocks()
    ensures !Acyclic(WaitGraph(After(ABANDONED)))
    ensures forall regime :: !DisciplinedRun(regime, ABANDONED)
  {
    AbandonedCallerWaits();
    var before, s := After(ABANDONED[..6]), After(ABANDONED);
    assert ABANDONED[..|ABANDONED| - 1] == ABANDONED[..6];
    RequestMustWait(before, 0, 1, Lock(Grants, AccessExclusive), Lock(Grants, RowShare));
    assert s.txs[0].wanted == Some(Lock(Grants, AccessExclusive));
    assert HolderBlocks(s, 1, 0, Lock(Grants, AccessExclusive));
    assert Lock(Requests, AccessExclusive) in s.txs[0].held;
    assert HolderBlocks(s, 0, 1, Lock(Requests, RowExclusive));
    assert (0, 1) in WaitGraph(s) && (1, 0) in WaitGraph(s);
    assert Walk(WaitGraph(s), [0, 1, 0]);
    forall regime
      ensures !DisciplinedRun(regime, ABANDONED)
    {
      if DisciplinedRun(regime, ABANDONED) {
        NoDeadlock(regime, ABANDONED);
      }
    }
  }

  // ---------------------------------------------------------------- the migration's own transactions

  /** The locks each transaction of the split migration takes, statement by statement. */
  function LocksOf(tx: ChargeCeiling.Transaction): seq<Lock> {
    match tx
    case AddVersion => [Lock(Grants, AccessExclusive)]
    case AddColumn => [Lock(Requests, AccessExclusive)]
    case FillPages(_, _) => [Lock(Requests, RowExclusive)]
    case FillRows(_) => [Lock(Requests, RowExclusive), Lock(Requests, AccessShare)]
    case Finalize =>
      [Lock(Requests, AccessExclusive), Lock(Requests, RowExclusive), Lock(Requests, AccessExclusive)]
    case DropVersion => [Lock(Grants, AccessExclusive)]
    case DropColumn => [Lock(Requests, AccessExclusive)]
  }

  /** Each of them asks, at every statement, for something the discipline allows. */
  lemma SplitMigrationIsDisciplined(tx: ChargeCeiling.Transaction, k: nat, s: State, id: TxId)
    requires k < |LocksOf(tx)| && id in s.txs && s.txs[id].kind.Migration?
    requires s.txs[id].held == FirstLocks(tx, k)
    ensures Disciplined(s, Request(id, LocksOf(tx)[k]))
    ensures InTableOrder(s, Request(id, LocksOf(tx)[k])) && OneMigrator(s, Request(id, LocksOf(tx)[k]))
  {
    if k == 2 {
      assert LocksOf(tx)[0] in LocksOf(tx)[..k];
    }
  }

  /** Requests transaction `id` has made since it began, the last one perhaps still waiting. */
  ghost function Asked(actions: seq<Action>, id: TxId): nat {
    if actions == [] then 0
    else
      var init, last := actions[..|actions| - 1], actions[|actions| - 1];
      if last.id != id then Asked(init, id)
      else
        var s := After(init);
        match last
        case Begin(_, _) => if id in s.txs then Asked(init, id) else 0
        case Request(_, _) => if id in s.txs && s.txs[id].wanted.None? then Asked(init, id) + 1 else Asked(init, id)
        case _ => Asked(init, id)
  }

  type Work = TxId -> ChargeCeiling.Transaction

  /** A migrator runs the statements of its transaction one after the other, each once the last was served. */
  ghost predicate Performs(work: Work, actions: seq<Action>, a: Action) {
    var s := After(actions);
    a.Request? && a.id in s.txs && s.txs[a.id].kind.Migration? ==>
      && s.txs[a.id].wanted.None?
      && Asked(actions, a.id) < |LocksOf(work(a.id))|
      && a.lock == LocksOf(work(a.id))[Asked(actions, a.id)]
  }

  /** Application transactions take row-level modes only, and the regime holds. */
  ghost predicate Serves(regime: Regime, s: State, a: Action) {
    && (a.Request? && a.id in s.txs && s.txs[a.id].kind.Application? ==> a.lock.mode != AccessExclusive)
    && match regime case TableOrder => InTableOrder(s, a) case SingleMigrator => OneMigrator(s, a)
  }

  /** The split migration, any number of times and restarted at will, amid application transactions. */
  ghost predicate SplitMigrationRun(regime: Regime, work: Work, actions: seq<Action>) {
    actions == [] ||
    (var init, last := actions[..|actions| - 1], actions[|actions| - 1];
     SplitMigrationRun(regime, work, init) && Performs(work, init, last) && Serves(regime, After(init), last))
  }

  ghost function Wanted(tx: Tx): set<Lock> {
    if tx.wanted.None? then {} else {tx.wanted.value}
  }

  ghost function HeldOrWanted(tx: Tx): set<Lock> {
    tx.held + Wanted(tx)
  }

  /** Only a transaction's own request changes what it holds or waits for. */
  lemma OnlyRequestsAdd(s: State, a: Action, id: TxId)
    requires id in Next(s, a).txs
    ensures id !in s.txs ==> HeldOrWanted(Next(s, a).txs[id]) == {} && a.Begin? && a.id == id
    ensures id in s.txs ==>
      && Next(s, a).txs[id].kind == s.txs[id].kind
      && HeldOrWanted(Next(s, a).txs[id]) ==
           HeldOrWanted(s.txs[id]) + if a.Request? && a.id == id && s.txs[id].wanted.None? then {a.lock} else {}
  {
  }

  /** The locks the first `n` statements ask for. */
  ghost function FirstLocks(tx: ChargeCeiling.Transaction, n: nat): set<Lock>
    requires n <= |LocksOf(tx)|
  {
    set l | l in LocksOf(tx)[..n]
  }

  lemma OneMoreLock(tx: ChargeCeiling.Transaction, n: nat)
    requires n < |LocksOf(tx)|
    ensures FirstLocks(tx, n + 1) == FirstLocks(tx, n) + {LocksOf(tx)[n]}
  {
    var locks := LocksOf(tx);
    assert locks[..n + 1] == locks[..n] + [locks[n]];
  }

  ghost predicate HasAsked(tx: Tx, work: ChargeCeiling.Transaction, n: nat) {
    n <= |LocksOf(work)| && HeldOrWanted(tx) == FirstLocks(work, n)
  }

  /** One action, seen from a migrator that has made `n` requests so far. */
  lemma OneActionAsks(work: ChargeCeiling.Transaction, s: State, a: Action, id: TxId, n: nat)
    requires id in s.txs && id in Next(s, a).txs && HasAsked(s.txs[id], work, n)
    requires a.Request? && a.id == id ==> s.txs[id].wanted.None? && n < |LocksOf(work)| && a.lock == LocksOf(work)[n]
    ensures HasAsked(Next(s, a).txs[id], work, if a.Request? && a.id == id then n + 1 else n)
  {
    OnlyRequestsAdd(s, a, id);
    if a.Request? && a.id == id {
      OneMoreLock(work, n);
    }
  }

  /** At every point of a run a migrator holds, or waits for, what its statements so far ask for. */
  lemma {:induction false} HoldsWhatItAsked(regime: Regime, work: Work, actions: seq<Action>, id: TxId)
    requires SplitMigrationRun(regime, work, actions)
    requires id in After(actions).txs && After(actions).txs[id].kind.Migration?
    ensures HasAsked(After(actions).txs[id], work(id), Asked(actions, id))
  {
    var init, last := actions[..|actions| - 1], actions[|actions| - 1];
    OnlyRequestsAdd(After(init), last, id);
    if id in After(init).txs {
      HoldsWhatItAsked(regime, work, init, id);
      OneActionAsks(work(id), After(init), last, id, Asked(init, id));
    }
  }

  /** So every such run obeys the lock discipline, and none of its states has a cycle of waits. */
  lemma {:induction false} SplitMigrationNeverDeadlocks(regime: Regime, work: Work, actions: seq<Action>)
    requires SplitMigrationRun(regime, work, actions)
    ensures DisciplinedRun(regime, actions) && Acyclic(WaitGraph(After(actions)))
  {
    SplitMigrationObeys(regime, work, actions);
    NoDeadlock(regime, actions);
  }

  lemma {:induction false} SplitMigrationObeys(regime: Regime, work: Work, actions: seq<Action>)
    requires SplitMigrationRun(regime, work, actions)
    ensures DisciplinedRun(regime, actions)
  {
    if actions != [] {
      var init, last := actions[..|actions| - 1], actions[|actions| - 1];
      SplitMigrationObeys(regime, work, init);
      var s := After(init);
      if last.Request? && last.id in s.txs && s.txs[last.id].kind.Migration? {
        HoldsWhatItAsked(regime, work, init, last.id);
        SplitMigrationIsDisciplined(work(last.id), Asked(init, last.id), s, last.id);
      }
    }
  }

  /** The table a step of the migration changes. */
  ghost function Target(tx: ChargeCeiling.Transaction): HotTable {
    if tx.AddVersion? || tx.DropVersion? then Grants else Requests
  }

  /** While the final step, or a column change, runs on its table, nobody else holds any lock there. */
  lemma {:induction false} ExclusiveStepIsAlone(regime: Regime, work: Work, actions: seq<Action>, id: TxId, other: TxId)
    requires SplitMigrationRun(regime, work, actions) && !work(id).FillPages? && !work(id).FillRows?
    requires var s := After(actions);
      id in s.txs && other in s.txs && other != id && s.txs[id].kind.Migration? && s.txs[id].wanted.None?
    requires Asked(actions, id) > 0
    ensures !Holds(After(actions).txs[other], Target(work(id)))
  {
    var s := After(actions);
    HoldsWhatItAsked(regime, work, actions, id);
    SplitMigrationObeys(regime, work, actions);
    RunKeepsInv(regime, actions);
    var lock := LocksOf(work(id))[0];
    assert lock == Lock(Target(work(id)), AccessExclusive);
    assert lock in LocksOf(work(id))[..Asked(actions, id)];
    assert lock in s.txs[id].held;
  }

  /** Every step works on its one table, taking its strongest lock there first: a write lock to fill, else exclusive. */
  lemma OneTableEach(tx: ChargeCeiling.Transaction)
    ensures LocksOf(tx) != []
    ensures LocksOf(tx)[0] == Lock(Target(tx), if tx.FillPages? || tx.FillRows? then RowExclusive else AccessExclusive)
    ensures forall i :: 0 <= i < |LocksOf(tx)| ==> LocksOf(tx)[i].table == Target(tx)
  {
  }

  /** The backfill takes no lock that an application transaction would wait for. */
  lemma FillsCoexist(tx: ChargeCeiling.Transaction, l: Lock, mode: Mode)
    requires (tx.FillPages? || tx.FillRows?) && l in LocksOf(tx) && mode != AccessExclusive
    ensures !Conflicts(l.mode, mode)
  {
    var i :| 0 <= i < |LocksOf(tx)| && LocksOf(tx)[i] == l;
  }

  // ---------------------------------------------------------------- why one of the regimes must hold

  const ON_GRANTS := Lock(Grants, RowShare)
  const ON_REQUESTS := Lock(Requests, RowShare)
  const ALTER_GRANTS := Lock(Grants, AccessExclusive)
  const ALTER_REQUESTS := Lock(Requests, AccessExclusive)

  /** Two deploys at different stages, and two callers that take grants and requests in opposite orders. */
  const NEITHER: seq<Action> := [
    Begin(0, Migration), Begin(1, Migration), Begin(2, Application), Begin(3, Application),
    Request(2, ON_GRANTS), Request(3, ON_REQUESTS),
    Request(0, ALTER_GRANTS), Request(1, ALTER_REQUESTS),
    Request(2, ON_REQUESTS), Request(3, ON_GRANTS)
  ]

  ghost function Four(a: Tx, b: Tx, c: Tx, d: Tx, queue: seq<TxId>): State {
    State(map[0 := a, 1 := b, 2 := c, 3 := d], queue)
  }

  const IDLE := Tx(Migration, {}, None)
  const WAITING_FOR_GRANTS := Tx(Migration, {}, Some(ALTER_GRANTS))
  const WAITING_FOR_REQUESTS := Tx(Migration, {}, Some(ALTER_REQUESTS))
  const STARTING := Tx(Application, {}, None)
  const CALLER := Tx(Application, {ON_GRANTS}, None)
  const OTHER := Tx(Application, {ON_REQUESTS}, None)

  lemma FourUpdated(a: Tx, b: Tx, c: Tx, d: Tx, queue: seq<TxId>, tx: Tx)
    ensures var txs := Four(a, b, c, d, queue).txs;
      && txs[0 := tx] == Four(tx, b, c, d, queue).txs && txs[1 := tx] == Four(a, tx, c, d, queue).txs
      && txs[2 := tx] == Four(a, b, tx, d, queue).txs && txs[3 := tx] == Four(a, b, c, tx, queue).txs
  {
  }

  lemma NeitherBegins()
    ensures After(NEITHER[..4]) == Four(IDLE, IDLE, STARTING, STARTING, [])
  {
    assert NEITHER[..0] == [];
    AfterOneMore(NEITHER, 0);
    AfterOneMore(NEITHER, 1);
    AfterOneMore(NEITHER, 2);
    AfterOneMore(NEITHER, 3);
  }

  /** With nobody waiting and no conflicting holder a request is served at once. */
  lemma ServedAtOnce(s: State, id: TxId, lock: Lock)
    requires id in s.txs && s.txs[id].wanted.None? && s.queue == []
    requires forall u <- s.txs, l <- s.txs[u].held :: !Conflicts(l.mode, lock.mode)
    ensures Next(s, Request(id, lock)) == s.(txs := s.txs[id := s.txs[id].(held := s.txs[id].held + {lock})])
  {
    assert Free(s, id, lock, s.queue);
  }

  lemma NeitherFirstHolds()
    ensures After(NEITHER[..5]) == Four(IDLE, IDLE, CALLER, STARTING, [])
  {
    NeitherBegins();
    AfterOneMore(NEITHER, 4);
    var s := Four(IDLE, IDLE, STARTING, STARTING, []);
    ServedAtOnce(s, 2, ON_GRANTS);
    assert STARTING.held + {ON_GRANTS} == CALLER.held;
    FourUpdated(IDLE, IDLE, STARTING, STARTING, [], CALLER);
  }

  lemma NeitherHolds()
    ensures After(NEITHER[..6]) == Four(IDLE, IDLE, CALLER, OTHER, [])
  {
    NeitherFirstHolds();
    AfterOneMore(NEITHER, 5);
    var s := Four(IDLE, IDLE, CALLER, STARTING, []);
    ServedAtOnce(s, 3, ON_REQUESTS);
    assert STARTING.held + {ON_REQUESTS} == OTHER.held;
    FourUpdated(IDLE, IDLE, CALLER, STARTING, [], OTHER);
  }

  lemma NeitherFirstMigratorWaits()
    ensures After(NEITHER[..7]) == Four(WAITING_FOR_GRANTS, IDLE, CALLER, OTHER, [0])
  {
    NeitherHolds();
    AfterOneMore(NEITHER, 6);
    var s := Four(IDLE, IDLE, CALLER, OTHER, []);
    RequestMustWait(s, 0, 2, ALTER_GRANTS, ON_GRANTS);
    FourUpdated(IDLE, IDLE, CALLER, OTHER, [], WAITING_FOR_GRANTS);
  }

  lemma NeitherMigratorsWait()
    ensures After(NEITHER[..8]) == Four(WAITING_FOR_GRANTS, WAITING_FOR_REQUESTS, CALLER, OTHER, [0, 1])
  {
    NeitherFirstMigratorWaits();
    AfterOneMore(NEITHER, 7);
    var s := Four(WAITING_FOR_GRANTS, IDLE, CALLER, OTHER, [0]);
    RequestMustWait(s, 1, 3, ALTER_REQUESTS, ON_REQUESTS);
    FourUpdated(WAITING_FOR_GRANTS, IDLE, CALLER, OTHER, [0], WAITING_FOR_REQUESTS);
  }

  /** A request behind a conflicting one joins the queue. */
  lemma RequestMustQueue(s: State, id: TxId, u: TxId, lock: Lock)
    requires id in s.txs && s.txs[id].wanted.None? && !Holds(s.txs[id], lock.table)
    requires u in s.queue && WaiterBlocks(s, u, lock)
    ensures Next(s, Request(id, lock)) == State(s.txs[id := s.txs[id].(wanted := Some(lock))], s.queue + [id])
  {
  }

  lemma NeitherCallerWaits()
    ensures After(NEITHER[..9]) ==
      Four(WAITING_FOR_GRANTS, WAITING_FOR_REQUESTS, CALLER.(wanted := Some(ON_REQUESTS)), OTHER, [0, 1, 2])
  {
    NeitherMigratorsWait();
    AfterOneMore(NEITHER, 8);
    var s := Four(WAITING_FOR_GRANTS, WAITING_FOR_REQUESTS, CALLER, OTHER, [0, 1]);
    assert WaiterBlocks(s, 1, ON_REQUESTS) && s.queue[1] == 1;
    RequestMustQueue(s, 2, 1, ON_REQUESTS);
    FourUpdated(WAITING_FOR_GRANTS, WAITING_FOR_REQUESTS, CALLER, OTHER, [0, 1], CALLER.(wanted := Some(ON_REQUESTS)));
  }

  lemma NeitherAllWait()
    ensures After(NEITHER) ==
      Four(WAITING_FOR_GRANTS, WAITING_FOR_REQUESTS, CALLER.(wanted := Some(ON_REQUESTS)),
           OTHER.(wanted := Some(ON_GRANTS)), [0, 1, 2, 3])
  {
    NeitherCallerWaits();
    AfterOneMore(NEITHER, 9);
    var s := Four(WAITING_FOR_GRANTS, WAITING_FOR_REQUESTS, CALLER.(wanted := Some(ON_REQUESTS)), OTHER, [0, 1, 2]);
    assert WaiterBlocks(s, 0, ON_GRANTS) && s.queue[0] == 0;
    RequestMustQueue(s, 3, 0, ON_GRANTS);
    FourUpdated(WAITING_FOR_GRANTS, WAITING_FOR_REQUESTS, CALLER.(wanted := Some(ON_REQUESTS)), OTHER, [0, 1, 2],
                OTHER.(wanted := Some(ON_GRANTS)));
    assert NEITHER[..10] == NEITHER;
  }

  /** Only the two migrators' requests need a look: they are first requests. */
  lemma NeitherIsDisciplined(n: nat)
    requires n < |NEITHER|
    ensures Disciplined(After(NEITHER[..n]), NEITHER[n])
  {
    if n == 4 { NeitherBegins(); }
    if n == 5 { NeitherFirstHolds(); }
    if n == 6 { NeitherHolds(); }
    if n == 7 { NeitherFirstMigratorWaits(); }
    if n == 8 { NeitherMigratorsWait(); }
    if n == 9 { NeitherCallerWaits(); }
  }

  lemma NeitherWaits(s: State)
    requires s == Four(WAITING_FOR_GRANTS, WAITING_FOR_REQUESTS, CALLER.(wanted := Some(ON_REQUESTS)),
                       OTHER.(wanted := Some(ON_GRANTS)), [0, 1, 2, 3])
    ensures WaitsFor(s, 0, 2) && WaitsFor(s, 2, 1) && WaitsFor(s, 1, 3) && WaitsFor(s, 3, 0)
    ensures !Acyclic(WaitGraph(s))
  {
    assert ON_GRANTS in s.txs[2].held && ON_REQUESTS in s.txs[3].held;
    assert s.queue[1..][1..][1..] == [3] && s.queue[1..][1..] == [2, 3] && s.queue[1..] == [1, 2, 3];
    assert Ahead(s.queue, 2) == [0, 1] && Ahead(s.queue, 3) == [0, 1, 2];
    assert 1 in Ahead(s.queue, 2) && 0 in Ahead(s.queue, 3);
    RingIsCycle(s, 0, 2, 1, 3);
  }

  lemma RingIsCycle(s: State, a: TxId, b: TxId, c: TxId, d: TxId)
    requires WaitsFor(s, a, b) && WaitsFor(s, b, c) && WaitsFor(s, c, d) && WaitsFor(s, d, a)
    ensures !Acyclic(WaitGraph(s))
  {
    var ring := [a, b, c, d, a];
    assert Walk(WaitGraph(s), ring);
    assert ring[0] == ring[|ring| - 1];
  }

  /** Single-table transactions and row-level callers are not enough: without either regime they can deadlock. */
  lemma WithoutRegimeDeadlocks()
    ensures forall n :: 0 <= n < |NEITHER| ==> Disciplined(After(NEITHER[..n]), NEITHER[n])
    ensures !Acyclic(WaitGraph(After(NEITHER)))
  {
    forall n | 0 <= n < |NEITHER|
      ensures Disciplined(After(NEITHER[..n]), NEITHER[n])
    {
      NeitherIsDisciplined(n);
    }
    NeitherAllWait();
    NeitherWaits(After(NEITHER));
  }
}
