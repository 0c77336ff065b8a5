/**
 Compact JSON with sorted keys, as json.dumps(sort_keys=True, separators=(",", ":")) prints it,
 for values whose strings need no escaping. Printing is a prefix code up to a following digit, so
 it is injective, and length-prefixed payloads can be concatenated without ambiguity.
 */
module CanonicalJson {
  import opened Lexicographic
  import opened Options
  import opened Printing

  datatype Json =
    | Null
    | Bool(b: bool)
    | Num(n: nat)
    | Str(s: string)
    | Arr(items: seq<Json>)
    | Obj(fields: seq<Field>)

  datatype Field = Field(key: string, value: Json)

  /** Printable ASCII without quote or backslash: what json.dumps leaves as it is. */
  predicate Plain(s: string) {
    forall c <- s :: ' ' <= c <= '~' && c != '"' && c != '\\'
  }

  ghost predicate SortedKeys(fields: seq<Field>) {
    forall i, j :: 0 <= i < j < |fields| ==> Less(fields[i].key, fields[j].key)
  }

  /** Plain strings and, as sort_keys gives them, keys in strictly ascending order. */
  ghost predicate WellFormed(j: Json) {
    match j
    case Str(s) => Plain(s)
    case Arr(items) => forall i <- items :: WellFormed(i)
    case Obj(fields) => SortedKeys(fields) && forall f <- fields :: Plain(f.key) && WellFormed(f.value)
    case _ => true
  }

  /** It is enough that each key precedes the next. */
  lemma {:induction false} NeighboursSorted(fields: seq<Field>)
    requires forall i :: 0 <= i < |fields| - 1 ==> Less(fields[i].key, fields[i + 1].key)
    ensures SortedKeys(fields)
  {
    if |fields| > 1 {
      var front := fields[..|fields| - 1];
      NeighboursSorted(front);
      forall i | 0 <= i < |fields| - 2
        ensures Less(fields[i].key, fields[|fields| - 1].key)
      {
        assert Less(front[i].key, front[|front| - 1].key);
        Transitive(fields[i].key, fields[|fields| - 2].key, fields[|fields| - 2 + 1].key);
      }
    }
  }

  lemma WellFormedObject(fields: seq<Field>)
    requires forall i :: 0 <= i < |fields| ==> Plain(fields[i].key) && WellFormed(fields[i].value)
    requires forall i :: 0 <= i < |fields| - 1 ==> Less(fields[i].key, fields[i + 1].key)
    ensures WellFormed(Obj(fields))
  {
    NeighboursSorted(fields);
    forall f | f in fields
      ensures Plain(f.key) && WellFormed(f.value)
    {
      var i :| 0 <= i < |fields| && fields[i] == f;
    }
  }

  function Quoted(s: string): string {
    "\"" + s + "\""
  }

  function Print(j: Json): string
    decreases j, 1
  {
    match j
    case Null => "null"
    case Bool(b) => if b then "true" else "false"
    case Num(n) => Decimal(n)
    case Str(s) => Quoted(s)
    case Arr(items) => "[" + PrintItems(items) + "]"
    case Obj(fields) => "{" + PrintFields(fields) + "}"
  }

  function PrintItems(items: seq<Json>): string
    decreases items, 0
  {
    if items == [] then ""
    else if |items| == 1 then Print(items[0])
    else Print(items[0]) + "," + PrintItems(items[1..])
  }

  function PrintFields(fields: seq<Field>): string
    decreases fields, 0
  {
    if fields == [] then ""
    else if |fields| == 1 then Quoted(fields[0].key) + ":" + Print(fields[0].value)
    else Quoted(fields[0].key) + ":" + Print(fields[0].value) + "," + PrintFields(fields[1..])
  }

  // ---------------------------------------------------------------- what is printed

  ghost function Texts(items: seq<Json>): seq<string> {
    seq(|items|, i requires 0 <= i < |items| => Print(items[i]))
  }

  /** `"key":value` for each field. */
  ghost function Members(fields: seq<Field>): seq<string> {
    seq(|fields|, i requires 0 <= i < |fields| => Quoted(fields[i].key) + ":" + Print(fields[i].value))
  }

  /** An array is its values between brackets with commas and nothing else between them. */
  lemma {:induction false} ArrayText(items: seq<Json>)
    ensures Print(Arr(items)) == "[" + (if items == [] then "" else Join(Texts(items))) + "]"
  {
    if items != [] {
      ItemsAreJoined(items);
    }
  }

  lemma {:induction false} ItemsAreJoined(items: seq<Json>)
    requires items != []
    ensures PrintItems(items) == Join(Texts(items))
  {
    if |items| > 1 {
      ItemsAreJoined(items[1..]);
      assert Texts(items)[1..] == Texts(items[1..]);
    }
  }

  /** An object is its members between braces with commas and nothing else between them. */
  lemma {:induction false} ObjectText(fields: seq<Field>)
    ensures Print(Obj(fields)) == "{" + (if fields == [] then "" else Join(Members(fields))) + "}"
  {
    if fields != [] {
      FieldsAreJoined(fields);
    }
  }

  lemma {:induction false} FieldsAreJoined(fields: seq<Field>)
    requires fields != []
    ensures PrintFields(fields) == Join(Members(fields))
  {
    if |fields| > 1 {
      FieldsAreJoined(fields[1..]);
      assert Members(fields)[1..] == Members(fields[1..]);
    }
  }

  // ---------------------------------------------------------------- where one piece ends

  predicate StartsOutside(s: string, body: char -> bool) {
    s == "" || !body(s[0])
  }

  /** Two texts that agree agree on their longest body prefix. */
  lemma SameSpan(a: string, b: string, x: string, y: string, body: char -> bool)
    requires (forall c <- a :: body(c)) && (forall c <- b :: body(c))
    requires StartsOutside(x, body) && StartsOutside(y, body)
    requires a + x == b + y
    ensures a == b && x == y
  {
    var w := a + x;
    assert |a| < |w| ==> !body(w[|a|]);
    assert |b| < |w| ==> !body(w[|b|]);
    assert forall i :: 0 <= i < |a| ==> body(w[i]);
    assert forall i :: 0 <= i < |b| ==> body(w[i]);
    assert |a| == |b|;
    assert a == (a + x)[..|a|] && b == (b + y)[..|b|];
    assert x == (a + x)[|a|..] && y == (b + y)[|b|..];
  }

  predicate NoDigitFirst(s: string) {
    s == "" || !IsDigit(s[0])
  }

  lemma DecimalEnds(m: nat, n: nat, x: string, y: string)
    requires NoDigitFirst(x) && NoDigitFirst(y) && Decimal(m) + x == Decimal(n) + y
    ensures m == n && x == y
  {
    SameSpan(Decimal(m), Decimal(n), x, y, c => IsDigit(c));
    DecimalRoundTrip(m);
    DecimalRoundTrip(n);
  }

  lemma QuotedEnds(s: string, t: string, x: string, y: string)
    requires Plain(s) && Plain(t) && Quoted(s) + x == Quoted(t) + y
    ensures s == t && x == y
  {
    assert (Quoted(s) + x)[1..] == s + ("\"" + x);
    assert (Quoted(t) + y)[1..] == t + ("\"" + y);
    SameSpan(s, t, "\"" + x, "\"" + y, c => c != '"');
    assert x == ("\"" + x)[1..] && y == ("\"" + y)[1..];
  }

  // ---------------------------------------------------------------- printing is a prefix code

  /** The first character tells the kind of value. */
  lemma FirstCharacter(j: Json)
    ensures Print(j) != ""
    ensures var c := Print(j)[0];
      match j
      case Null => c == 'n'
      case Bool(b) => c == if b then 't' else 'f'
      case Num(_) => IsDigit(c)
      case Str(_) => c == '"'
      case Arr(_) => c == '['
      case Obj(_) => c == '{'
  {
    if j.Num? {
      assert Decimal(j.n)[0] in Decimal(j.n);
    }
  }

  lemma SameKind(a: Json, b: Json, x: string, y: string)
    requires Print(a) + x == Print(b) + y
    ensures a.Null? == b.Null? && a.Bool? == b.Bool? && a.Num? == b.Num? && a.Str? == b.Str? && a.Arr? == b.Arr?
    ensures a.Bool? ==> a == b
    ensures a.Null? || a.Bool? ==> x == y
  {
    FirstCharacter(a);
    FirstCharacter(b);
    assert Print(a)[0] == (Print(a) + x)[0] == (Print(b) + y)[0] == Print(b)[0];
    if a.Null? || a.Bool? {
      assert Print(a) == Print(b);
      assert x == (Print(a) + x)[|Print(a)|..] && y == (Print(b) + y)[|Print(b)|..];
    }
  }

  lemma BracketOpens(items: seq<Json>, x: string)
    ensures (Print(Arr(items)) + x)[1..] == PrintItems(items) + ("]" + x)
  {
  }

  lemma BraceOpens(fields: seq<Field>, x: string)
    ensures (Print(Obj(fields)) + x)[1..] == PrintFields(fields) + ("}" + x)
  {
  }

  lemma {:induction false} PrefixCode(a: Json, b: Json, x: string, y: string)
    requires WellFormed(a) && WellFormed(b) && NoDigitFirst(x) && NoDigitFirst(y)
    requires Print(a) + x == Print(b) + y
    ensures a == b && x == y
    decreases a, 1
  {
    SameKind(a, b, x, y);
    match a
    case Null =>
    case Bool(_) =>
    case Num(n) => DecimalEnds(n, b.n, x, y);
    case Str(s) => QuotedEnds(s, b.s, x, y);
    case Arr(items) =>
      BracketOpens(items, x);
      BracketOpens(b.items, y);
      ItemsCode(items, b.items, x, y);
    case Obj(fields) =>
      BraceOpens(fields, x);
      BraceOpens(b.fields, y);
      FieldsCode(fields, b.fields, x, y);
  }

  /** What follows the first item of a nonempty array. */
  function AfterItem(items: seq<Json>, x: string): string
    requires items != []
  {
    if |items| == 1 then "]" + x else "," + (PrintItems(items[1..]) + ("]" + x))
  }

  lemma Regroup(a: string, b: string, c: string, d: string)
    ensures a + b + c + d == a + (b + (c + d))
  {
  }

  lemma FirstItem(items: seq<Json>, x: string)
    requires items != []
    ensures PrintItems(items) + ("]" + x) == Print(items[0]) + AfterItem(items, x)
  {
    if |items| > 1 {
      Regroup(Print(items[0]), ",", PrintItems(items[1..]), "]" + x);
    }
  }

  /** A closing bracket comes first exactly when there are no items. */
  lemma ClosesAtOnce(items: seq<Json>, x: string)
    ensures (PrintItems(items) + ("]" + x))[0] == ']' <==> items == []
  {
    if items == [] {
      assert PrintItems(items) + ("]" + x) == "]" + x;
    } else {
      FirstItem(items, x);
      FirstCharacter(items[0]);
      assert (Print(items[0]) + AfterItem(items, x))[0] == Print(items[0])[0];
    }
  }

  lemma SameRest(items: seq<Json>, others: seq<Json>, x: string, y: string)
    requires items != [] && others != [] && AfterItem(items, x) == AfterItem(others, y)
    ensures |items| == 1 <==> |others| == 1
    ensures |items| == 1 ==> x == y
    ensures |items| > 1 ==> PrintItems(items[1..]) + ("]" + x) == PrintItems(others[1..]) + ("]" + y)
  {
    var ax, ay := AfterItem(items, x), AfterItem(others, y);
    assert ax[0] == ay[0] && ax[1..] == ay[1..];
    assert |items| == 1 ==> ax[1..] == x;
    assert |others| == 1 ==> ay[1..] == y;
    assert |items| > 1 ==> ax[1..] == PrintItems(items[1..]) + ("]" + x);
    assert |others| > 1 ==> ay[1..] == PrintItems(others[1..]) + ("]" + y);
  }

  lemma EmptyItems(items: seq<Json>, others: seq<Json>, x: string, y: string)
    requires items == [] || others == []
    requires PrintItems(items) + ("]" + x) == PrintItems(others) + ("]" + y)
    ensures items == others && x == y
  {
    ClosesAtOnce(items, x);
    ClosesAtOnce(others, y);
    assert PrintItems([]) + ("]" + x) == "]" + x && PrintItems([]) + ("]" + y) == "]" + y;
    assert ("]" + x)[1..] == x && ("]" + y)[1..] == y;
  }

  lemma TailWellFormed(items: seq<Json>)
    requires items != [] && forall i <- items :: WellFormed(i)
    ensures WellFormed(items[0]) && forall i <- items[1..] :: WellFormed(i)
    ensures items == [items[0]] + items[1..]
  {
    assert forall i <- items[1..] :: i in items;
  }

  lemma {:induction false} ItemsCode(items: seq<Json>, others: seq<Json>, x: string, y: string)
    requires (forall i <- items :: WellFormed(i)) && (forall i <- others :: WellFormed(i))
    requires PrintItems(items) + ("]" + x) == PrintItems(others) + ("]" + y)
    ensures items == others && x == y
    decreases items, 0
  {
    if items == [] || others == [] {
      EmptyItems(items, others, x, y);
    } else {
      FirstItem(items, x);
      FirstItem(others, y);
      TailWellFormed(items);
      TailWellFormed(others);
      PrefixCode(items[0], others[0], AfterItem(items, x), AfterItem(others, y));
      SameRest(items, others, x, y);
      if |items| > 1 {
        ItemsCode(items[1..], others[1..], x, y);
      }
    }
  }

  /** What follows the first value of a nonempty object. */
  function AfterField(fields: seq<Field>, x: string): string
    requires fields != []
  {
    if |fields| == 1 then "}" + x else "," + (PrintFields(fields[1..]) + ("}" + x))
  }

  lemma FirstField(fields: seq<Field>, x: string)
    requires fields != []
    ensures PrintFields(fields) + ("}" + x) ==
            Quoted(fields[0].key) + (":" + (Print(fields[0].value) + AfterField(fields, x)))
  {
    var key, value := Quoted(fields[0].key), Print(fields[0].value);
    if |fields| == 1 {
      Regroup(key, ":", value, "}" + x);
    } else {
      var tail := PrintFields(fields[1..]);
      Regroup(key + ":" + value, ",", tail, "}" + x);
      Regroup(key, ":", value, "," + (tail + ("}" + x)));
    }
  }

  /** A closing brace comes first exactly when there are no fields. */
  lemma EndsAtOnce(fields: seq<Field>, x: string)
    ensures (PrintFields(fields) + ("}" + x))[0] == '}' <==> fields == []
  {
    if fields == [] {
      assert PrintFields(fields) + ("}" + x) == "}" + x;
    } else {
      FirstField(fields, x);
      assert Quoted(fields[0].key)[0] == '"';
    }
  }

  lemma SameFieldRest(fields: seq<Field>, others: seq<Field>, x: string, y: string)
    requires fields != [] && others != [] && AfterField(fields, x) == AfterField(others, y)
    ensures |fields| == 1 <==> |others| == 1
    ensures |fields| == 1 ==> x == y
    ensures |fields| > 1 ==> PrintFields(fields[1..]) + ("}" + x) == PrintFields(others[1..]) + ("}" + y)
  {
    var ax, ay := AfterField(fields, x), AfterField(others, y);
    assert ax[0] == ay[0] && ax[1..] == ay[1..];
    assert |fields| == 1 ==> ax[1..] == x;
    assert |others| == 1 ==> ay[1..] == y;
    assert |fields| > 1 ==> ax[1..] == PrintFields(fields[1..]) + ("}" + x);
    assert |others| > 1 ==> ay[1..] == PrintFields(others[1..]) + ("}" + y);
  }

  lemma EmptyFields(fields: seq<Field>, others: seq<Field>, x: string, y: string)
    requires fields == [] || others == []
    requires PrintFields(fields) + ("}" + x) == PrintFields(others) + ("}" + y)
    ensures fields == others && x == y
  {
    EndsAtOnce(fields, x);
    EndsAtOnce(others, y);
    assert PrintFields([]) + ("}" + x) == "}" + x && PrintFields([]) + ("}" + y) == "}" + y;
    assert ("}" + x)[1..] == x && ("}" + y)[1..] == y;
  }

  lemma TailFieldsWellFormed(fields: seq<Field>)
    requires fields != [] && forall f <- fields :: Plain(f.key) && WellFormed(f.value)
    ensures Plain(fields[0].key) && WellFormed(fields[0].value)
    ensures forall f <- fields[1..] :: Plain(f.key) && WellFormed(f.value)
    ensures fields == [fields[0]] + fields[1..]
  {
    assert forall f <- fields[1..] :: f in fields;
  }

  /** Equal texts have the same first key, and agree on what follows it. */
  lemma {:induction false} SameFirstKey(fields: seq<Field>, others: seq<Field>, x: string, y: string)
    requires fields != [] && others != [] && Plain(fields[0].key) && Plain(others[0].key)
    requires PrintFields(fields) + ("}" + x) == PrintFields(others) + ("}" + y)
    ensures fields[0].key == others[0].key
    ensures Print(fields[0].value) + AfterField(fields, x) == Print(others[0].value) + AfterField(others, y)
  {
    FirstField(fields, x);
    FirstField(others, y);
    var vx, vy := Print(fields[0].value) + AfterField(fields, x), Print(others[0].value) + AfterField(others, y);
    QuotedEnds(fields[0].key, others[0].key, ":" + vx, ":" + vy);
    assert vx == (":" + vx)[1..] && vy == (":" + vy)[1..];
  }

  lemma {:induction false} FieldsCode(fields: seq<Field>, others: seq<Field>, x: string, y: string)
    requires (forall f <- fields :: Plain(f.key) && WellFormed(f.value))
    requires (forall f <- others :: Plain(f.key) && WellFormed(f.value))
    requires PrintFields(fields) + ("}" + x) == PrintFields(others) + ("}" + y)
    ensures fields == others && x == y
    decreases fields, 0
  {
    if fields == [] || others == [] {
      EmptyFields(fields, others, x, y);
    } else {
      TailFieldsWellFormed(fields);
      TailFieldsWellFormed(others);
      SameFirstKey(fields, others, x, y);
      PrefixCode(fields[0].value, others[0].value, AfterField(fields, x), AfterField(others, y));
      SameFieldRest(fields, others, x, y);
      if |fields| > 1 {
        FieldsCode(fields[1..], others[1..], x, y);
      }
    }
  }

  /** Different values print differently. */
  lemma PrintInjective(a: Json, b: Json)
    requires WellFormed(a) && WellFormed(b) && Print(a) == Print(b)
    ensures a == b
  {
    assert Print(a) + "" == Print(a) && Print(b) + "" == Print(b);
    PrefixCode(a, b, "", "");
  }

  // ---------------------------------------------------------------- length-prefixed tokens

  /** One character in UTF-8 (section 3 of RFC 3629). */
  function Utf8Bytes(c: char): seq<int> {
    var n := c as int;
    if n < 0x80 then [n]
    else if n < 0x800 then [0xC0 + n / 64, 0x80 + n % 64]
    else if n < 0x1_0000 then [0xE0 + n / 64 / 64, 0x80 + n / 64 % 64, 0x80 + n % 64]
    else [0xF0 + n / 64 / 64 / 64, 0x80 + n / 64 / 64 % 64, 0x80 + n / 64 % 64, 0x80 + n % 64]
  }

  /** The first byte tells how many follow; each of those carries six bits. */
  function CodePoint(bytes: seq<int>): int {
    if |bytes| == 1 then bytes[0]
    else if |bytes| == 2 then (bytes[0] - 0xC0) * 64 + (bytes[1] - 0x80)
    else if |bytes| == 3 then ((bytes[0] - 0xE0) * 64 + (bytes[1] - 0x80)) * 64 + (bytes[2] - 0x80)
    else if |bytes| == 4 then (((bytes[0] - 0xF0) * 64 + (bytes[1] - 0x80)) * 64 + (bytes[2] - 0x80)) * 64 + (bytes[3] - 0x80)
    else 0
  }

  lemma Utf8ReadsBack(c: char)
    ensures CodePoint(Utf8Bytes(c)) == c as int
    ensures |Utf8Bytes(c)| ==
      if Utf8Bytes(c)[0] < 0x80 then 1 else if Utf8Bytes(c)[0] < 0xE0 then 2 else if Utf8Bytes(c)[0] < 0xF0 then 3 else 4
  {
    var n := c as int;
    var a, b := n / 64, n / 64 / 64;
    assert n == a * 64 + n % 64 && a == b * 64 + a % 64 && b == b / 64 * 64 + b % 64;
  }

  /** `len(payload.encode("utf-8"))` */
  function Utf8Length(s: string): nat {
    if s == "" then 0 else Utf8Length(s[..|s| - 1]) + |Utf8Bytes(s[|s| - 1])|
  }

  /** The byte length in decimal, a colon, the payload. */
  function Token(payload: string): string {
    Decimal(Utf8Length(payload)) + ":" + payload
  }

  function Concat(payloads: seq<string>): string {
    if payloads == [] then "" else Token(payloads[0]) + Concat(payloads[1..])
  }

  /** Every character past a prefix adds to the byte length. */
  lemma {:induction false} LongerHasMoreBytes(s: string, n: nat)
    requires n <= |s|
    ensures Utf8Length(s) >= Utf8Length(s[..n]) + (|s| - n)
  {
    if n < |s| {
      assert s[..|s| - 1][..n] == s[..n];
      LongerHasMoreBytes(s[..|s| - 1], n);
    } else {
      assert s[..n] == s;
    }
  }

  /** Two prefixes of one text with the same number of bytes are the same prefix. */
  lemma SameBytesSplit(p: string, q: string, x: string, y: string)
    requires Utf8Length(p) == Utf8Length(q) && p + x == q + y
    ensures p == q && x == y
  {
    var w := p + x;
    assert p == w[..|p|] && q == w[..|q|];
    if |p| <= |q| {
      assert p == q[..|p|];
      LongerHasMoreBytes(q, |p|);
    } else {
      assert q == p[..|q|];
      LongerHasMoreBytes(p, |q|);
    }
    assert x == w[|p|..] && y == (q + y)[|q|..];
  }

  lemma TokenEnds(p: string, q: string, x: string, y: string)
    requires Token(p) + x == Token(q) + y
    ensures p == q && x == y
  {
    var px, qy := ":" + (p + x), ":" + (q + y);
    assert Token(p) + x == Decimal(Utf8Length(p)) + px && Token(q) + y == Decimal(Utf8Length(q)) + qy;
    DecimalEnds(Utf8Length(p), Utf8Length(q), px, qy);
    assert p + x == px[1..] && q + y == qy[1..];
    SameBytesSplit(p, q, x, y);
  }

  /** Any concatenation of tokens decodes in exactly one way. */
  lemma {:induction false} ConcatenationUnique(ps: seq<string>, qs: seq<string>)
    requires Concat(ps) == Concat(qs)
    ensures ps == qs
  {
    if ps == [] || qs == [] {
      assert forall s: seq<string> :: s != [] ==> |Concat(s)| > 0;
    } else {
      TokenEnds(ps[0], qs[0], Concat(ps[1..]), Concat(qs[1..]));
      ConcatenationUnique(ps[1..], qs[1..]);
      assert ps == [ps[0]] + ps[1..] && qs == [qs[0]] + qs[1..];
    }
  }

  // ---------------------------------------------------------------- one byte per character

  predicate Ascii(s: string) {
    forall c <- s :: ' ' <= c <= '~'
  }

  /** Nothing printed needs more than one byte per character. */
  lemma {:induction false} PrintIsAscii(j: Json)
    requires WellFormed(j)
    ensures Ascii(Print(j)) && Utf8Length(Print(j)) == |Print(j)|
    decreases j, 1
  {
    match j {
      case Arr(items) => ItemsAreAscii(items);
      case Obj(fields) => FieldsAreAscii(fields);
      case _ =>
    }
    AsciiLength(Print(j));
  }

  lemma {:induction false} ItemsAreAscii(items: seq<Json>)
    requires forall i <- items :: WellFormed(i)
    ensures Ascii(PrintItems(items))
    decreases items, 0
  {
    if items != [] {
      PrintIsAscii(items[0]);
      ItemsAreAscii(items[1..]);
    }
  }

  lemma {:induction false} FieldsAreAscii(fields: seq<Field>)
    requires forall f <- fields :: Plain(f.key) && WellFormed(f.value)
    ensures Ascii(PrintFields(fields))
    decreases fields, 0
  {
    if fields != [] {
      assert fields[0] in fields;
      PrintIsAscii(fields[0].value);
      FieldsAreAscii(fields[1..]);
    }
  }

  /** So the byte length a token announces is the number of characters. */
  lemma {:induction false} AsciiLength(s: string)
    requires Ascii(s)
    ensures Utf8Length(s) == |s|
  {
    if s != "" {
      var front, last := s[..|s| - 1], s[|s| - 1];
      assert s == front + [last];
      assert last in s && forall c <- front :: c in s;
      AsciiLength(front);
    }
  }

  // ---------------------------------------------------------------- exclude_none

  datatype Entry = Entry(key: string, value: Option<Json>)

  /** Drop the absent entries, keep the order. */
  function Compact(entries: seq<Entry>): seq<Field> {
    if entries == [] then []
    else if entries[0].value.None? then Compact(entries[1..])
    else [Field(entries[0].key, entries[0].value.value)] + Compact(entries[1..])
  }

  /** The texts that are present, in order. */
  ghost function Present(texts: seq<Option<string>>): seq<string> {
    if texts == [] then []
    else if texts[0].None? then Present(texts[1..])
    else [texts[0].value] + Present(texts[1..])
  }

  ghost function EntryText(e: Entry): Option<string> {
    if e.value.None? then None else Some(Quoted(e.key) + ":" + Print(e.value.value))
  }

  /** Dropping absent entries and printing is printing and dropping the absent texts. */
  lemma {:induction false} CompactMembers(entries: seq<Entry>, texts: seq<Option<string>>)
    requires |texts| == |entries| && forall i :: 0 <= i < |texts| ==> texts[i] == EntryText(entries[i])
    ensures Members(Compact(entries)) == Present(texts)
  {
    if entries != [] {
      CompactMembers(entries[1..], texts[1..]);
      if entries[0].value.Some? {
        assert Members(Compact(entries))[1..] == Members(Compact(entries[1..]));
      }
    }
  }

  /** Every key, present or not. */
  ghost function AllKeys(entries: seq<Entry>): seq<Field> {
    seq(|entries|, i requires 0 <= i < |entries| => Field(entries[i].key, Null))
  }

  ghost predicate SortedEntries(entries: seq<Entry>) {
    forall i, j :: 0 <= i < j < |entries| ==> Less(entries[i].key, entries[j].key)
  }

  lemma NeighbouringEntriesSorted(entries: seq<Entry>)
    requires forall i :: 0 <= i < |entries| - 1 ==> Less(entries[i].key, entries[i + 1].key)
    ensures SortedEntries(entries)
  {
    var full := AllKeys(entries);
    forall i | 0 <= i < |full| - 1
      ensures Less(full[i].key, full[i + 1].key)
    {
      assert Less(entries[i].key, entries[i + 1].key);
    }
    NeighboursSorted(full);
    forall i, j | 0 <= i < j < |entries|
      ensures Less(entries[i].key, entries[j].key)
    {
      assert Less(full[i].key, full[j].key);
    }
  }

  lemma ThreeSorted(a: Entry, b: Entry, c: Entry)
    requires Less(a.key, b.key) && Less(b.key, c.key)
    ensures SortedEntries([a, b, c])
  {
    NeighbouringEntriesSorted([a, b, c]);
  }

  lemma SixSorted(a: Entry, b: Entry, c: Entry, d: Entry, e: Entry, f: Entry)
    requires Less(a.key, b.key) && Less(b.key, c.key) && Less(c.key, d.key) && Less(d.key, e.key) && Less(e.key, f.key)
    ensures SortedEntries([a, b, c, d, e, f])
  {
    NeighbouringEntriesSorted([a, b, c, d, e, f]);
  }

  lemma {:induction false} CompactKeys(entries: seq<Entry>)
    ensures forall f <- Compact(entries) :: exists e <- entries :: e.key == f.key && e.value == Some(f.value)
  {
    if entries != [] {
      CompactKeys(entries[1..]);
      assert entries == [entries[0]] + entries[1..];
      assert entries[0] in entries && forall e <- entries[1..] :: e in entries;
    }
  }

  /** The first key precedes every later one that is kept. */
  lemma HeadPrecedes(entries: seq<Entry>, f: Field)
    requires entries != [] && SortedEntries(entries) && f in Compact(entries[1..])
    ensures Less(entries[0].key, f.key)
  {
    CompactKeys(entries[1..]);
    var e :| e in entries[1..] && e.key == f.key;
    var i :| 0 <= i < |entries[1..]| && entries[1..][i] == e;
    assert entries[i + 1] == e;
  }

  lemma {:induction false} CompactSorted(entries: seq<Entry>)
    requires SortedEntries(entries)
    ensures SortedKeys(Compact(entries))
  {
    if entries != [] {
      CompactSorted(entries[1..]);
      var rest := Compact(entries[1..]);
      forall j | 0 <= j < |rest|
        ensures Less(entries[0].key, rest[j].key)
      {
        HeadPrecedes(entries, rest[j]);
      }
    }
  }

  /** With the same keys in the same order, nothing is lost by dropping the absent ones. */
  lemma {:induction false} CompactInjective(a: seq<Entry>, b: seq<Entry>)
    requires |a| == |b| && SortedEntries(a) && forall i :: 0 <= i < |a| ==> a[i].key == b[i].key
    requires Compact(a) == Compact(b)
    ensures a == b
  {
    if a != [] {
      if a[0].value.None? {
        HeadAbsent(a, b);
      } else if b[0].value.None? {
        HeadAbsent(b, a);
      }
      assert a[0].value.Some? ==> Compact(a)[1..] == Compact(a[1..]) && Compact(b)[1..] == Compact(b[1..]);
      assert a[0] == b[0] && Compact(a[1..]) == Compact(b[1..]);
      CompactInjective(a[1..], b[1..]);
      assert a == [a[0]] + a[1..] && b == [b[0]] + b[1..];
    }
  }

  /** If the first entry is absent here, it is absent there. */
  lemma {:induction false} HeadAbsent(a: seq<Entry>, b: seq<Entry>)
    requires |a| == |b| > 0 && SortedEntries(a) && forall i :: 0 <= i < |a| ==> a[i].key == b[i].key
    requires Compact(a) == Compact(b) && a[0].value.None?
    ensures b[0].value.None?
  {
    if b[0].value.Some? {
      var f := Compact(b)[0];
      assert f in Compact(a[1..]);
      HeadPrecedes(a, f);
      Irreflexive(f.key);
    }
  }
}
