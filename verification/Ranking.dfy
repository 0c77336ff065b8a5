/**
 The canonical order of submissions: the Python sort key and its SQL twin, and what ranking by
 them promises. Scores are reals; NaN is not modelled.
 */
module Ranking {
  import opened Options
  import opened Sequences
  import Lexicographic
  import Uuid

  /** `eligible` is None on pools that do not carry the flag. */
  datatype Row = Row(agent: nat, firstSeen: int, composite: real, eligible: Option<bool>)

  datatype SortKey = SortKey(unranked: bool, negated: real, firstSeen: int, id: string)

  /** Continual means by agent; an agent without one ranks on its stored composite. */
  type Scores = map<nat, real>

  function Score(row: Row, scores: Scores): real {
    if row.agent in scores then scores[row.agent] else row.composite
  }

  function ScoreOrderKey(row: Row, scores: Scores): SortKey {
    SortKey(row.eligible == Some(false), -Score(row, scores), row.firstSeen, Uuid.Text(row.agent))
  }

  /** Python tuple comparison. */
  predicate KeyLess(a: SortKey, b: SortKey) {
    if a.unranked != b.unranked then b.unranked
    else if a.negated != b.negated then a.negated < b.negated
    else if a.firstSeen != b.firstSeen then a.firstSeen < b.firstSeen
    else Lexicographic.Less(a.id, b.id)
  }

  predicate Before(scores: Scores, a: Row, b: Row) {
    KeyLess(ScoreOrderKey(a, scores), ScoreOrderKey(b, scores))
  }

  /** ORDER BY eligible DESC, composite DESC, first_seen ASC, agent_id ASC, on 128-bit ids. */
  predicate SqlBefore(a: Row, b: Row) {
    var ea, eb := a.eligible != Some(false), b.eligible != Some(false);
    || (ea && !eb)
    || (ea == eb && a.composite > b.composite)
    || (ea == eb && a.composite == b.composite && a.firstSeen < b.firstSeen)
    || (ea == eb && a.composite == b.composite && a.firstSeen == b.firstSeen && a.agent < b.agent)
  }

  ghost predicate Uuids(rows: seq<Row>) {
    forall r <- rows :: r.agent < Uuid.Pow16(32)
  }

  ghost predicate DistinctAgents(rows: seq<Row>) {
    forall i, j :: 0 <= i < j < |rows| ==> rows[i].agent != rows[j].agent
  }

  /** The row with its continual mean, where it has one, stored as its composite. */
  function Substituted(row: Row, scores: Scores): Row {
    Row(row.agent, row.firstSeen, if row.agent in scores then scores[row.agent] else row.composite, row.eligible)
  }

  // ---------------------------------------------------------------- one order, written twice

  /** The two forms of the comparator agree on every pair of rows and every partial score map. */
  lemma {:induction false} PythonAgreesWithSql(scores: Scores, a: Row, b: Row)
    requires a.agent < Uuid.Pow16(32) && b.agent < Uuid.Pow16(32)
    ensures Before(scores, a, b) <==> SqlBefore(Substituted(a, scores), Substituted(b, scores))
  {
    Uuid.TextOrder(a.agent, b.agent);
    var x, y := Substituted(a, scores), Substituted(b, scores);
    var key, other := ScoreOrderKey(a, scores), ScoreOrderKey(b, scores);
    assert key == SortKey(x.eligible == Some(false), -x.composite, x.firstSeen, Uuid.Text(x.agent));
    assert other == SortKey(y.eligible == Some(false), -y.composite, y.firstSeen, Uuid.Text(y.agent));
    assert Lexicographic.Less(key.id, other.id) <==> x.agent < y.agent;
  }

  lemma KeyTransitive(a: SortKey, b: SortKey, c: SortKey)
    requires KeyLess(a, b) && KeyLess(b, c)
    ensures KeyLess(a, c)
  {
    if Lexicographic.Less(a.id, b.id) && Lexicographic.Less(b.id, c.id) {
      Lexicographic.Transitive(a.id, b.id, c.id);
    }
  }

  /** Strict and total on distinct agents. */
  lemma {:induction false} BeforeIsStrictTotal(scores: Scores, a: Row, b: Row)
    requires a.agent < Uuid.Pow16(32) && b.agent < Uuid.Pow16(32)
    ensures !Before(scores, a, a)
    ensures Before(scores, a, b) ==> !Before(scores, b, a)
    ensures a.agent != b.agent ==> Before(scores, a, b) || Before(scores, b, a)
  {
    Uuid.TextOrder(a.agent, b.agent);
    Uuid.TextOrder(b.agent, a.agent);
    Uuid.TextOrder(a.agent, a.agent);
  }

  // ---------------------------------------------------------------- ranking

  /** Stable insertion: `row` came first, so it goes ahead of rows that do not beat it. */
  function Insert(scores: Scores, row: Row, ranked: seq<Row>): seq<Row> {
    if ranked == [] || !Before(scores, ranked[0], row) then [row] + ranked
    else [ranked[0]] + Insert(scores, row, ranked[1..])
  }

  function RankSubmissions(rows: seq<Row>, scores: Scores): seq<Row> {
    if rows == [] then [] else Insert(scores, rows[0], RankSubmissions(rows[1..], scores))
  }

  /** No later row beats an earlier one. */
  ghost predicate InOrder(scores: Scores, rows: seq<Row>) {
    forall i, j :: 0 <= i < j < |rows| ==> !Before(scores, rows[j], rows[i])
  }

  lemma {:induction false} InsertIsPermutation(scores: Scores, row: Row, ranked: seq<Row>)
    ensures multiset(Insert(scores, row, ranked)) == multiset{row} + multiset(ranked)
  {
    if ranked != [] && Before(scores, ranked[0], row) {
      InsertIsPermutation(scores, row, ranked[1..]);
      assert ranked == [ranked[0]] + ranked[1..];
    }
  }

  lemma KeyComparable(scores: Scores, a: Row, b: Row, c: Row)
    requires !Before(scores, b, a) && !Before(scores, c, b)
    ensures !Before(scores, c, a)
  {
    var ka, kb, kc := ScoreOrderKey(a, scores), ScoreOrderKey(b, scores), ScoreOrderKey(c, scores);
    if KeyLess(kc, ka) {
      Lexicographic.Connected(kb.id, ka.id);
      if KeyLess(ka, kb) {
        KeyTransitive(kc, ka, kb);
      }
    }
  }

  lemma {:induction false} InsertKeepsOrder(scores: Scores, row: Row, ranked: seq<Row>)
    requires InOrder(scores, ranked)
    ensures InOrder(scores, Insert(scores, row, ranked))
  {
    var r := Insert(scores, row, ranked);
    if ranked == [] || !Before(scores, ranked[0], row) {
      forall j | 1 <= j < |r|
        ensures !Before(scores, r[j], row)
      {
        if j > 1 {
          KeyComparable(scores, row, ranked[0], ranked[j - 1]);
        }
      }
    } else {
      InsertKeepsOrder(scores, row, ranked[1..]);
      InsertIsPermutation(scores, row, ranked[1..]);
      forall j | 1 <= j < |r|
        ensures !Before(scores, r[j], ranked[0])
      {
        assert r[j] in multiset(Insert(scores, row, ranked[1..]));
        if r[j] == row {
          Asymmetric(scores, ranked[0], row);
        } else {
          assert r[j] in ranked[1..];
        }
      }
    }
  }

  lemma Asymmetric(scores: Scores, a: Row, b: Row)
    requires Before(scores, a, b)
    ensures !Before(scores, b, a)
  {
    var ka, kb := ScoreOrderKey(a, scores), ScoreOrderKey(b, scores);
    if KeyLess(kb, ka) {
      KeyTransitive(ka, kb, ka);
      Lexicographic.Irreflexive(ka.id);
    }
  }

  /** Ranking sorts and loses nobody. */
  lemma {:induction false} RankingIsSortedPermutation(rows: seq<Row>, scores: Scores)
    ensures InOrder(scores, RankSubmissions(rows, scores))
    ensures multiset(RankSubmissions(rows, scores)) == multiset(rows)
  {
    if rows != [] {
      RankingIsSortedPermutation(rows[1..], scores);
      InsertKeepsOrder(scores, rows[0], RankSubmissions(rows[1..], scores));
      InsertIsPermutation(scores, rows[0], RankSubmissions(rows[1..], scores));
      assert rows == [rows[0]] + rows[1..];
    }
  }

  // ---------------------------------------------------------------- one ranking per pool

  lemma SameMembers(s: seq<Row>, t: seq<Row>)
    requires multiset(s) == multiset(t)
    ensures |s| == |t| && forall r :: r in s <==> r in t
  {
    assert |s| == |multiset(s)| == |multiset(t)| == |t|;
    forall r
      ensures r in s <==> r in t
    {
      assert r in multiset(s) <==> r in multiset(t);
    }
  }

  lemma SameHead(scores: Scores, s: seq<Row>, t: seq<Row>)
    requires InOrder(scores, s) && InOrder(scores, t) && multiset(s) == multiset(t)
    requires DistinctAgents(s) && Uuids(s) && s != [] && t != []
    ensures s[0] == t[0]
  {
    SameMembers(s, t);
    assert t[0] in s && s[0] in t;
    var i :| 0 <= i < |s| && s[i] == t[0];
    var j :| 0 <= j < |t| && t[j] == s[0];
    if i > 0 && j > 0 {
      assert !Before(scores, s[i], s[0]) && !Before(scores, t[j], t[0]);
      BeforeIsStrictTotal(scores, s[0], s[i]);
    }
  }

  lemma TailInOrder(scores: Scores, s: seq<Row>)
    requires InOrder(scores, s) && s != []
    ensures InOrder(scores, s[1..]) && s == [s[0]] + s[1..]
    ensures multiset(s[1..]) == multiset(s) - multiset{s[0]}
  {
    TailMultiset(s);
    forall i, j | 0 <= i < j < |s[1..]|
      ensures !Before(scores, s[1..][j], s[1..][i])
    {
      assert s[1..][j] == s[j + 1] && s[1..][i] == s[i + 1];
    }
  }

  lemma {:induction false} OrderedListingUnique(scores: Scores, s: seq<Row>, t: seq<Row>)
    requires InOrder(scores, s) && InOrder(scores, t) && multiset(s) == multiset(t)
    requires DistinctAgents(s) && Uuids(s)
    ensures s == t
  {
    SameMembers(s, t);
    if s != [] {
      SameHead(scores, s, t);
      TailInOrder(scores, s);
      TailInOrder(scores, t);
      assert DistinctAgents(s[1..]) && Uuids(s[1..]);
      OrderedListingUnique(scores, s[1..], t[1..]);
    }
  }

  /** The order in which the rows arrive does not matter. */
  lemma RankingIgnoresInputOrder(rows: seq<Row>, shuffled: seq<Row>, scores: Scores)
    requires multiset(rows) == multiset(shuffled) && DistinctAgents(rows) && Uuids(rows)
    ensures RankSubmissions(rows, scores) == RankSubmissions(shuffled, scores)
  {
    RankingIsSortedPermutation(rows, scores);
    RankingIsSortedPermutation(shuffled, scores);
    var ranked := RankSubmissions(rows, scores);
    PermutationKeepsDistinct(rows, ranked);
    OrderedListingUnique(scores, ranked, RankSubmissions(shuffled, scores));
  }

  lemma PermutationKeepsDistinct(rows: seq<Row>, ranked: seq<Row>)
    requires multiset(rows) == multiset(ranked) && DistinctAgents(rows) && Uuids(rows)
    ensures DistinctAgents(ranked) && Uuids(ranked)
  {
    forall r | r in ranked
      ensures r in rows
    {
      assert r in multiset(ranked);
    }
    forall i, j | 0 <= i < j < |ranked|
      ensures ranked[i].agent != ranked[j].agent
    {
      if ranked[i] == ranked[j] {
        TwicePresent(ranked, i, j);
        AtMostOnce(rows, ranked[i]);
        assert false;
      }
      assert ranked[i] in rows && ranked[j] in rows;
    }
  }

  lemma TwicePresent(s: seq<Row>, i: nat, j: nat)
    requires i < j < |s| && s[i] == s[j]
    ensures multiset(s)[s[i]] >= 2
  {
    assert s == s[..i] + [s[i]] + s[i + 1..j] + [s[j]] + s[j + 1..];
  }

  lemma {:induction false} AtMostOnce(rows: seq<Row>, r: Row)
    requires DistinctAgents(rows)
    ensures multiset(rows)[r] <= 1
  {
    if rows != [] {
      assert rows == [rows[0]] + rows[1..];
      AtMostOnce(rows[1..], r);
      assert r == rows[0] ==> r !in rows[1..];
    }
  }

  /** Listed in Python's order, the rows are in the order SQL would give them on the scores that count. */
  lemma RankingIsSqlOrder(rows: seq<Row>, scores: Scores)
    requires DistinctAgents(rows) && Uuids(rows)
    ensures var ranked := RankSubmissions(rows, scores);
      forall i, j :: 0 <= i < j < |ranked| ==> SqlBefore(Substituted(ranked[i], scores), Substituted(ranked[j], scores))
  {
    var ranked := RankSubmissions(rows, scores);
    RankingIsSortedPermutation(rows, scores);
    PermutationKeepsDistinct(rows, ranked);
    forall i, j | 0 <= i < j < |ranked|
      ensures SqlBefore(Substituted(ranked[i], scores), Substituted(ranked[j], scores))
    {
      BeforeIsStrictTotal(scores, ranked[i], ranked[j]);
      PythonAgreesWithSql(scores, ranked[i], ranked[j]);
    }
  }

  // ---------------------------------------------------------------- ranking on a partial score map

  function SubstitutedAll(rows: seq<Row>, scores: Scores): seq<Row> {
    seq(|rows|, i requires 0 <= i < |rows| => Substituted(rows[i], scores))
  }

  lemma {:induction false} InsertSubstituted(scores: Scores, row: Row, ranked: seq<Row>)
    ensures SubstitutedAll(Insert(scores, row, ranked), scores) ==
            Insert(map[], Substituted(row, scores), SubstitutedAll(ranked, scores))
  {
    if ranked != [] && Before(scores, ranked[0], row) {
      InsertSubstituted(scores, row, ranked[1..]);
      assert SubstitutedAll(ranked, scores)[1..] == SubstitutedAll(ranked[1..], scores);
      assert SubstitutedAll([ranked[0]] + Insert(scores, row, ranked[1..]), scores) ==
             [Substituted(ranked[0], scores)] + SubstitutedAll(Insert(scores, row, ranked[1..]), scores);
    } else {
      assert SubstitutedAll([row] + ranked, scores) == [Substituted(row, scores)] + SubstitutedAll(ranked, scores);
    }
  }

  /** Passing a partial map of scores is the same as storing them in the rows first. */
  lemma {:induction false} RankingOnScores(rows: seq<Row>, scores: Scores)
    ensures SubstitutedAll(RankSubmissions(rows, scores), scores) ==
            RankSubmissions(SubstitutedAll(rows, scores), map[])
  {
    if rows != [] {
      RankingOnScores(rows[1..], scores);
      assert SubstitutedAll(rows, scores)[1..] == SubstitutedAll(rows[1..], scores);
      InsertSubstituted(scores, rows[0], RankSubmissions(rows[1..], scores));
    }
  }

  // ---------------------------------------------------------------- raising one score

  /** The rows of everybody but `agent`. */
  function Others(rows: seq<Row>, agent: nat): seq<Row> {
    if rows == [] then []
    else if rows[0].agent == agent then Others(rows[1..], agent)
    else [rows[0]] + Others(rows[1..], agent)
  }

  lemma {:induction false} OthersAreRows(rows: seq<Row>, agent: nat)
    ensures forall r :: r in Others(rows, agent) <==> r in rows && r.agent != agent
  {
    if rows != [] {
      OthersAreRows(rows[1..], agent);
      assert rows == [rows[0]] + rows[1..];
    }
  }

  lemma {:induction false} InsertAmongOthers(scores: Scores, row: Row, ranked: seq<Row>, agent: nat)
    requires InOrder(scores, ranked)
    ensures Others(Insert(scores, row, ranked), agent) ==
            if row.agent == agent then Others(ranked, agent) else Insert(scores, row, Others(ranked, agent))
  {
    var r := Insert(scores, row, ranked);
    if ranked == [] || !Before(scores, ranked[0], row) {
      assert r[1..] == ranked;
      OthersAreRows(ranked, agent);
      var rest := Others(ranked, agent);
      if rest != [] && Before(scores, rest[0], row) {
        assert rest[0] in ranked;
        var k :| 0 <= k < |ranked| && ranked[k] == rest[0];
        assert k > 0;
        KeyComparable(scores, row, ranked[0], ranked[k]);
        assert false;
      }
    } else {
      assert r[1..] == Insert(scores, row, ranked[1..]);
      InsertAmongOthers(scores, row, ranked[1..], agent);
      if ranked[0].agent == agent {
        assert Others(ranked, agent) == Others(ranked[1..], agent);
      }
    }
  }

  lemma {:induction false} RankingOfOthers(rows: seq<Row>, scores: Scores, agent: nat)
    ensures Others(RankSubmissions(rows, scores), agent) == RankSubmissions(Others(rows, agent), scores)
  {
    if rows != [] {
      RankingOfOthers(rows[1..], scores, agent);
      RankingIsSortedPermutation(rows[1..], scores);
      InsertAmongOthers(scores, rows[0], RankSubmissions(rows[1..], scores), agent);
    }
  }

  lemma {:induction false} InsertSameScores(one: Scores, two: Scores, row: Row, ranked: seq<Row>)
    requires Score(row, one) == Score(row, two) && forall r <- ranked :: Score(r, one) == Score(r, two)
    ensures Insert(one, row, ranked) == Insert(two, row, ranked)
  {
    if ranked != [] {
      assert ranked[0] in ranked;
      InsertSameScores(one, two, row, ranked[1..]);
    }
  }

  lemma {:induction false} RankSameScores(one: Scores, two: Scores, rows: seq<Row>)
    requires forall r <- rows :: Score(r, one) == Score(r, two)
    ensures RankSubmissions(rows, one) == RankSubmissions(rows, two)
  {
    if rows != [] {
      RankSameScores(one, two, rows[1..]);
      RankingIsSortedPermutation(rows[1..], one);
      forall r | r in RankSubmissions(rows[1..], one)
        ensures r in rows[1..]
      {
        assert r in multiset(RankSubmissions(rows[1..], one));
      }
      InsertSameScores(one, two, rows[0], RankSubmissions(rows[1..], one));
    }
  }

  /** Changing one agent's score leaves everybody else in the same order. */
  lemma OthersKeepTheirOrder(rows: seq<Row>, scores: Scores, agent: nat, score: real)
    ensures Others(RankSubmissions(rows, scores), agent) == Others(RankSubmissions(rows, scores[agent := score]), agent)
  {
    RankingOfOthers(rows, scores, agent);
    RankingOfOthers(rows, scores[agent := score], agent);
    OthersAreRows(rows, agent);
    RankSameScores(scores, scores[agent := score], Others(rows, agent));
  }

  ghost function Rivals(rows: seq<Row>, scores: Scores, x: Row): set<Row> {
    set r | r in rows && Before(scores, r, x)
  }

  lemma BeforeIffEarlier(scores: Scores, ranked: seq<Row>, i: nat, j: nat)
    requires InOrder(scores, ranked) && DistinctAgents(ranked) && Uuids(ranked)
    requires i < |ranked| && j < |ranked|
    ensures Before(scores, ranked[j], ranked[i]) <==> j < i
  {
    BeforeIsStrictTotal(scores, ranked[j], ranked[i]);
    if j < i {
      assert !Before(scores, ranked[i], ranked[j]);
    } else if i < j {
      assert !Before(scores, ranked[j], ranked[i]);
    }
  }

  lemma RivalIffAhead(scores: Scores, ranked: seq<Row>, i: nat, r: Row)
    requires InOrder(scores, ranked) && DistinctAgents(ranked) && Uuids(ranked) && i < |ranked|
    ensures r in ranked && Before(scores, r, ranked[i]) <==> r in ranked[..i]
  {
    if r in ranked {
      var j :| 0 <= j < |ranked| && ranked[j] == r;
      BeforeIffEarlier(scores, ranked, i, j);
      assert j < i ==> ranked[..i][j] == r;
    }
    if r in ranked[..i] {
      var j :| 0 <= j < i && ranked[j] == r;
      BeforeIffEarlier(scores, ranked, i, j);
    }
  }

  /** A row's place in a ranking is the number of rows that beat it. */
  lemma PlaceIsCount(rows: seq<Row>, scores: Scores, i: nat)
    requires DistinctAgents(rows) && Uuids(rows) && i < |RankSubmissions(rows, scores)|
    ensures |Rivals(rows, scores, RankSubmissions(rows, scores)[i])| == i
  {
    var ranked := RankSubmissions(rows, scores);
    RankingIsSortedPermutation(rows, scores);
    PermutationKeepsDistinct(rows, ranked);
    SameMembers(rows, ranked);
    forall r
      ensures r in Rivals(rows, scores, ranked[i]) <==> r in ranked[..i]
    {
      RivalIffAhead(scores, ranked, i, r);
    }
    assert Rivals(rows, scores, ranked[i]) == Elements(ranked[..i]);
    assert NoRepeats(ranked[..i]);
    ElementsSize(ranked[..i]);
  }

  lemma RivalWasAhead(rows: seq<Row>, scores: Scores, score: real, x: Row, r: Row)
    requires DistinctAgents(rows) && Uuids(rows) && x in rows && r in rows && Score(x, scores) <= score
    requires Before(scores[x.agent := score], r, x)
    ensures Before(scores, r, x)
  {
    if r.agent == x.agent {
      assert r == x;
      BeforeIsStrictTotal(scores[x.agent := score], x, x);
    }
  }

  /** Raising an agent's score never worsens its place. */
  lemma RaisingNeverHurts(rows: seq<Row>, scores: Scores, score: real, i: nat, j: nat)
    requires DistinctAgents(rows) && Uuids(rows) && i < |RankSubmissions(rows, scores)|
    requires var x := RankSubmissions(rows, scores)[i];
      && Score(x, scores) <= score
      && j < |RankSubmissions(rows, scores[x.agent := score])|
      && RankSubmissions(rows, scores[x.agent := score])[j] == x
    ensures j <= i
  {
    var x := RankSubmissions(rows, scores)[i];
    var raised := scores[x.agent := score];
    PlaceIsCount(rows, scores, i);
    PlaceIsCount(rows, raised, j);
    RankingIsSortedPermutation(rows, scores);
    SameMembers(rows, RankSubmissions(rows, scores));
    forall r | r in Rivals(rows, raised, x)
      ensures r in Rivals(rows, scores, x)
    {
      RivalWasAhead(rows, scores, score, x, r);
    }
    SubsetSize(Rivals(rows, raised, x), Rivals(rows, scores, x));
  }
}
