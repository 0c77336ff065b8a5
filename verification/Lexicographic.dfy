/** The order Python and PostgreSQL's "C" collation give to text: code point by code point. */
module Lexicographic {

  predicate Less(a: string, b: string) {
    && b != []
    && (a == [] || a[0] < b[0] || (a[0] == b[0] && Less(a[1..], b[1..])))
  }

  lemma {:induction false} Irreflexive(a: string)
    ensures !Less(a, a)
  {
    if a != [] {
      Irreflexive(a[1..]);
    }
  }

  lemma {:induction false} Transitive(a: string, b: string, c: string)
    requires Less(a, b) && Less(b, c)
    ensures Less(a, c)
  {
    if a != [] && a[0] == b[0] == c[0] {
      Transitive(a[1..], b[1..], c[1..]);
    }
  }

  lemma {:induction false} Connected(a: string, b: string)
    ensures Less(a, b) || a == b || Less(b, a)
  {
    if a != [] && b != [] && a[0] == b[0] {
      Connected(a[1..], b[1..]);
      assert a == [a[0]] + a[1..] && b == [b[0]] + b[1..];
    }
  }

  lemma Asymmetric(a: string, b: string)
    requires Less(a, b)
    ensures !Less(b, a) && a != b
  {
    if Less(b, a) {
      Transitive(a, b, a);
    }
    Irreflexive(a);
  }

  /** The first position where two texts differ decides. */
  lemma {:induction false} DecidedAt(a: string, b: string, k: nat)
    requires k < |a| && k < |b| && a[..k] == b[..k] && a[k] < b[k]
    ensures Less(a, b)
  {
    if k > 0 {
      assert a[0] == a[..k][0] == b[..k][0] == b[0];
      assert a[1..][..k - 1] == a[..k][1..] == b[..k][1..] == b[1..][..k - 1];
      DecidedAt(a[1..], b[1..], k - 1);
    }
  }

  /** A proper prefix comes first. */
  lemma {:induction false} PrefixFirst(a: string, rest: string)
    requires rest != ""
    ensures Less(a, a + rest)
  {
    if a != [] {
      assert (a + rest)[1..] == a[1..] + rest;
      PrefixFirst(a[1..], rest);
    }
  }

  ghost predicate Least(texts: set<string>, t: string) {
    t in texts && forall u <- texts :: u == t || Less(t, u)
  }

  /** A nonempty finite set of texts has a first member. */
  lemma {:induction false} HasLeast(texts: set<string>) returns (t: string)
    requires texts != {}
    ensures Least(texts, t)
    decreases |texts|
  {
    var x :| x in texts;
    if texts == {x} {
      t := x;
    } else {
      var rest := texts - {x};
      var least := HasLeast(rest);
      Connected(x, least);
      t := if Less(x, least) then x else least;
      forall u | u in texts
        ensures u == t || Less(t, u)
      {
        if u != x && t == x && u != least {
          Transitive(x, least, u);
        }
      }
    }
  }
}
