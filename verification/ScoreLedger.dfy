/** The score ledgers under a NOT VALID bench-version floor: retired rows can only be read or deleted. */
module ScoreLedger {
  import opened TicketTable

  type Ledger<T> = map<Key, T>

  /** An UPDATE may also move a row to another key. */
  datatype Statement<T> =
    | Put(key: Key, contents: T)
    | Rewrite(key: Key, moved: Key, contents: T)
    | Erase(key: Key)

  /** NOT VALID skips the existing rows but checks every new row version. */
  function After<T>(ledger: Ledger<T>, st: Statement<T>): Ledger<T> {
    match st
    case Put(key, contents) =>
      if key in ledger || key.bench < FLOOR then ledger else ledger[key := contents]
    case Rewrite(key, moved, contents) =>
      if key !in ledger || (moved != key && moved in ledger) || moved.bench < FLOOR then ledger
      else (ledger - {key})[moved := contents]
    case Erase(key) => ledger - {key}
  }

  /** A score of a current benchmark is stored as written; a retired one is refused, wherever it comes from. */
  lemma {:induction false} StoredIff<T>(ledger: Ledger<T>, k: Key, moved: Key, contents: T)
    ensures After(ledger, Put(k, contents)) ==
      if k !in ledger && k.bench >= 7 then ledger[k := contents] else ledger
    ensures After(ledger, Rewrite(k, moved, contents)) ==
      if k in ledger && moved.bench >= 7 && (moved == k || moved !in ledger)
      then map j | j in ledger.Keys - {k} + {moved} :: if j == moved then contents else ledger[j]
      else ledger
    ensures After(ledger, Erase(k)) == map j | j in ledger && j != k :: ledger[j]
  {
  }

  function RunTo<T>(ledger: Ledger<T>, sts: seq<Statement<T>>): Ledger<T> {
    if sts == [] then ledger else After(RunTo(ledger, sts[..|sts| - 1]), sts[|sts| - 1])
  }

  /** A run is its statements one after the other. */
  lemma RunOneMore<T>(ledger: Ledger<T>, sts: seq<Statement<T>>, st: Statement<T>)
    ensures RunTo(ledger, []) == ledger
    ensures RunTo(ledger, sts + [st]) == After(RunTo(ledger, sts), st)
  {
    var longer := sts + [st];
    assert longer[..|longer| - 1] == sts;
  }

  /** Any retired score seen later was present at install, unchanged. */
  lemma {:induction false} RetiredScoresAreFrozen<T>(install: Ledger<T>, sts: seq<Statement<T>>, k: Key)
    requires k in RunTo(install, sts) && k.bench < FLOOR
    ensures k in install && RunTo(install, sts)[k] == install[k]
  {
    if sts != [] {
      RetiredScoresAreFrozen(install, sts[..|sts| - 1], k);
    }
  }
}
