/**
 The identifier-renaming transform of the clone ladder. The renames of a mapping are carried out
 one after the other, each in the text the earlier ones left behind. A whole-word pattern matches
 exactly the maximal runs of word characters, so text is a list of words and gaps. Without a mapping
 from the caller, defined name number i is renamed to "r_i".
 */
module IdentifierRename {
  import opened Printing
  import opened Sequences

  datatype Piece = Word(text: string) | Gap(text: string)

  type Text = seq<Piece>

  datatype Rename = Rename(from: string, to: string)

  /** A dictionary in iteration order. */
  type Mapping = seq<Rename>

  function Replaced(w: string, r: Rename): string {
    if w == r.from then r.to else w
  }

  /** What becomes of one word under renames i, i+1, ... */
  function Renamed(w: string, m: Mapping, i: nat): string
    requires i <= |m|
    decreases |m| - i
  {
    if i == |m| then w else Renamed(Replaced(w, m[i]), m, i + 1)
  }

  function RenamedPiece(p: Piece, m: Mapping, i: nat): Piece
    requires i <= |m|
  {
    if p.Word? then Word(Renamed(p.text, m, i)) else p
  }

  /** re.sub with one whole-word pattern. */
  method Substitute(text: Text, r: Rename) returns (out: Text)
    ensures |out| == |text|
    ensures forall k :: 0 <= k < |text| ==> out[k] == if text[k].Word? then Word(Replaced(text[k].text, r)) else text[k]
  {
    out := [];
    for k := 0 to |text|
      invariant |out| == k
      invariant forall n :: 0 <= n < k ==> out[n] == if text[n].Word? then Word(Replaced(text[n].text, r)) else text[n]
    {
      out := out + [if text[k] == Word(r.from) then Word(r.to) else text[k]];
    }
  }

  method RenameIdents(text: Text, m: Mapping) returns (out: Text)
    ensures |out| == |text|
    ensures forall k :: 0 <= k < |text| ==> out[k] == RenamedPiece(text[k], m, 0)
  {
    out := text;
    for i := 0 to |m|
      invariant |out| == |text|
      invariant forall k :: 0 <= k < |text| ==> RenamedPiece(out[k], m, i) == RenamedPiece(text[k], m, 0)
    {
      out := Substitute(out, m[i]);
    }
  }

  // ---------------------------------------------------------------- when it is a renaming

  ghost predicate Occurs(text: Text, w: string) {
    Word(w) in text
  }

  /** Different identifiers stay different. */
  ghost predicate Consistent(text: Text, m: Mapping) {
    Injective(WordsOf(text), m, 0)
  }

  ghost function WordsOf(text: Text): set<string> {
    set p | p in text && p.Word? :: p.text
  }

  ghost predicate Injective(words: set<string>, m: Mapping, i: nat)
    requires i <= |m|
  {
    forall u, v :: u in words && v in words && Renamed(u, m, i) == Renamed(v, m, i) ==> u == v
  }

  /** The words left after one rename. */
  ghost function WordsAfter(words: set<string>, r: Rename): set<string> {
    set w | w in words :: Replaced(w, r)
  }

  /** At every rename, the new name is not yet a word of the text, unless there is nothing to rename. */
  ghost predicate EachNameFree(words: set<string>, m: Mapping, i: nat)
    requires i <= |m|
    decreases |m| - i
  {
    i == |m| ||
    (&& !(m[i].from in words && m[i].to in words && m[i].from != m[i].to)
     && EachNameFree(WordsAfter(words, m[i]), m, i + 1))
  }

  lemma {:induction false} InjectiveIff(words: set<string>, m: Mapping, i: nat)
    requires i <= |m|
    ensures Injective(words, m, i) <==> EachNameFree(words, m, i)
    decreases |m| - i
  {
    if i < |m| {
      var r, after := m[i], WordsAfter(words, m[i]);
      InjectiveIff(after, m, i + 1);
      if Injective(words, m, i) {
        assert Renamed(r.from, m, i) == Renamed(r.to, m, i + 1);
        assert r.from != r.to ==> Renamed(r.to, m, i) == Renamed(r.to, m, i + 1);
        forall u, v | u in after && v in after && Renamed(u, m, i + 1) == Renamed(v, m, i + 1)
          ensures u == v
        {
          var x :| x in words && Replaced(x, r) == u;
          var y :| y in words && Replaced(y, r) == v;
          assert x == y;
        }
      }
      if EachNameFree(words, m, i) {
        forall u, v | u in words && v in words && Renamed(u, m, i) == Renamed(v, m, i)
          ensures u == v
        {
          assert Replaced(u, r) in after && Replaced(v, r) in after;
        }
      }
    }
  }

  /** Any mapping is a renaming of a text exactly when each of its new names is free when its turn comes. */
  lemma {:induction false} MappingConsistentIff(text: Text, m: Mapping)
    ensures Consistent(text, m) <==> EachNameFree(WordsOf(text), m, 0)
  {
    InjectiveIff(WordsOf(text), m, 0);
  }

  // ---------------------------------------------------------------- the default mapping

  function NewName(i: nat): string {
    "r_" + Decimal(i)
  }

  /** The sorted defined names, each with its number. */
  function DefaultMapping(names: seq<string>): Mapping {
    seq(|names|, i requires 0 <= i < |names| => Rename(names[i], NewName(i)))
  }

  lemma NewNamesDiffer(i: nat, j: nat)
    requires NewName(i) == NewName(j)
    ensures i == j
  {
    assert Decimal(i) == NewName(i)[2..] == NewName(j)[2..] == Decimal(j);
    DecimalRoundTrip(i);
    DecimalRoundTrip(j);
  }

  /** A word of the text that looks like new name i is itself a defined name, renamed no later than i. */
  ghost predicate NewNamesAreFree(text: Text, names: seq<string>) {
    forall i :: 0 <= i < |names| && Occurs(text, NewName(i)) ==> NewName(i) in names[..i + 1]
  }

  /** Renames that do not concern a word can be skipped. */
  lemma {:induction false} Skip(w: string, names: seq<string>, i: nat, k: nat)
    requires i <= k <= |names| && w !in names[i..k]
    ensures Renamed(w, DefaultMapping(names), i) == Renamed(w, DefaultMapping(names), k)
    decreases k - i
  {
    if i < k {
      assert names[i] == names[i..k][0] && names[i..k][1..] == names[i + 1..k];
      Skip(w, names, i + 1, k);
    }
  }

  /** A defined name goes through its own new name. */
  lemma Via(names: seq<string>, i: nat)
    requires i < |names| && NoRepeats(names)
    ensures Renamed(names[i], DefaultMapping(names), 0) == Renamed(NewName(i), DefaultMapping(names), i + 1)
  {
    assert names[i] !in names[0..i];
    Skip(names[i], names, 0, i);
  }

  lemma NotTwice(names: seq<string>, k: nat, w: string)
    requires k <= |names| && NoRepeats(names) && w in names[..k]
    ensures w !in names[k..]
  {
    var i :| 0 <= i < k && names[i] == w;
  }

  lemma {:induction false} Settles(text: Text, names: seq<string>, i: nat)
    requires i < |names| && NoRepeats(names) && NewNamesAreFree(text, names)
    requires forall n <- names :: Occurs(text, n)
    ensures Renamed(names[i], DefaultMapping(names), 0) == NewName(i)
  {
    Via(names, i);
    if Occurs(text, NewName(i)) {
      NotTwice(names, i + 1, NewName(i));
    } else {
      assert NewName(i) !in names;
    }
    Skip(NewName(i), names, i + 1, |names|);
  }

  lemma FreeIsConsistent(text: Text, names: seq<string>, u: string, v: string)
    requires NoRepeats(names) && NewNamesAreFree(text, names) && forall n <- names :: Occurs(text, n)
    requires Occurs(text, u) && Occurs(text, v)
    requires Renamed(u, DefaultMapping(names), 0) == Renamed(v, DefaultMapping(names), 0)
    ensures u == v
  {
    if u in names {
      var i :| 0 <= i < |names| && names[i] == u;
      Settles(text, names, i);
      if v in names {
        var j :| 0 <= j < |names| && names[j] == v;
        Settles(text, names, j);
        NewNamesDiffer(i, j);
      } else {
        Untouched(names, v);
      }
    } else {
      Untouched(names, u);
      if v in names {
        var j :| 0 <= j < |names| && names[j] == v;
        Settles(text, names, j);
      } else {
        Untouched(names, v);
      }
    }
  }

  lemma Untouched(names: seq<string>, w: string)
    requires w !in names
    ensures Renamed(w, DefaultMapping(names), 0) == w
  {
    assert names[0..|names|] == names;
    Skip(w, names, 0, |names|);
  }

  /** Two words of the text that end up the same because new name i was not free. */
  lemma {:induction false} Clash(text: Text, names: seq<string>, i: nat) returns (u: string, v: string)
    requires NoRepeats(names) && forall n <- names :: Occurs(text, n)
    requires i < |names| && Occurs(text, NewName(i)) && NewName(i) !in names[..i + 1]
    ensures u != v && Occurs(text, u) && Occurs(text, v)
    ensures Renamed(u, DefaultMapping(names), 0) == Renamed(v, DefaultMapping(names), 0)
  {
    u, v := names[i], NewName(i);
    assert u in names[..i + 1] by { assert names[..i + 1][i] == u; }
    Via(names, i);
    assert names[..i + 1] == names[0..i + 1];
    Skip(v, names, 0, i + 1);
  }

  /**
   The default mapping is a renaming exactly when no word of the text already is one of the new
   names, unless that word is itself a defined name whose turn comes no later.
   */
  lemma ConsistentIff(text: Text, names: seq<string>)
    requires NoRepeats(names) && forall n <- names :: Occurs(text, n)
    ensures Consistent(text, DefaultMapping(names)) <==> NewNamesAreFree(text, names)
  {
    var m := DefaultMapping(names);
    assert forall w :: w in WordsOf(text) <==> Occurs(text, w);
    if NewNamesAreFree(text, names) {
      forall u, v | u in WordsOf(text) && v in WordsOf(text) && Renamed(u, m, 0) == Renamed(v, m, 0)
        ensures u == v
      {
        FreeIsConsistent(text, names, u, v);
      }
    } else {
      var i :| 0 <= i < |names| && Occurs(text, NewName(i)) && NewName(i) !in names[..i + 1];
      var u, v := Clash(text, names, i);
    }
  }

  /** Two defined names, `a` and `r_0`, come out as one. */
  lemma ChainedRenameMerges()
    ensures var m := DefaultMapping(["a", "r_0"]);
      Renamed("a", m, 0) == Renamed("r_0", m, 0) == "r_1"
  {
    assert Decimal(0) == "0" && Decimal(1) == "1";
    var m := DefaultMapping(["a", "r_0"]);
    assert m[0] == Rename("a", "r_0") && m[1] == Rename("r_0", "r_1");
  }
}
