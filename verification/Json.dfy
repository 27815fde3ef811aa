/** JSON values and their compact text, as sequences of UTF-16 code units. String quoting follows
    section 7 of RFC 8259 and escapes lone surrogates. The text determines the value. */
module Json {
  import opened Common

  type Unit = n: int | 0 <= n < 0x1_0000 witness 0
  type Units = seq<Unit>

  datatype Field = Field(key: Units, value: Json)

  /** An object lists its fields in the order in which its keys are enumerated; a number is its
      canonical decimal text. */
  datatype Json =
    | Null
    | Bool(b: bool)
    | Number(text: Units)
    | Str(s: Units)
    | Arr(items: seq<Json>)
    | Obj(fields: seq<Field>)

  predicate NumberUnit(u: Unit) {
    48 <= u <= 57 || u in {43, 45, 46, 69, 101}
  }

  predicate NumberText(text: Units) {
    text != [] && (48 <= text[0] <= 57 || text[0] == 45) && forall i :: 0 <= i < |text| ==> NumberUnit(text[i])
  }

  predicate DistinctKeys(fields: seq<Field>) {
    forall i, j :: 0 <= i < j < |fields| ==> fields[i].key != fields[j].key
  }

  /** Objects do not repeat keys, numbers are decimal text. */
  predicate Valid(j: Json) {
    match j
    case Number(text) => NumberText(text)
    case Arr(items) => forall i :: 0 <= i < |items| ==> Valid(items[i])
    case Obj(fields) => DistinctKeys(fields) && forall i :: 0 <= i < |fields| ==> Valid(fields[i].value)
    case _ => true
  }

  // ----- Reading properties ------------------------------------------------

  function Lookup(fields: seq<Field>, key: Units): (r: Option<Json>)
    ensures r.Some? ==> Field(key, r.value) in fields
  {
    if fields == [] then None
    else if fields[0].key == key then Some(fields[0].value)
    else Lookup(fields[1..], key)
  }

  /** `value?.[key]`, missing on anything but an object. */
  function Prop(value: Option<Json>, key: Units): Option<Json> {
    if value.Some? && value.value.Obj? then Lookup(value.value.fields, key) else None
  }

  predicate Truthy(value: Option<Json>) {
    match value
    case None => false
    case Some(Null) => false
    case Some(Bool(b)) => b
    case Some(Number(text)) => text != [48]
    case Some(Str(s)) => s != []
    case Some(_) => true
  }

  /** `a === b` on values that come from different documents: objects are never identical. */
  predicate Identical(a: Option<Json>, b: Option<Json>) {
    a == b && (a.Some? ==> !a.value.Arr? && !a.value.Obj?)
  }

  /** The one field with a key is what a lookup finds. */
  lemma {:induction false} LookupIff(fields: seq<Field>, key: Units, v: Json)
    requires DistinctKeys(fields)
    ensures Lookup(fields, key) == Some(v) <==> Field(key, v) in fields
  {
    if fields != [] {
      assert fields == [fields[0]] + fields[1..];
      if fields[0].key != key { LookupIff(fields[1..], key, v); }
    }
  }

  // ----- Quoting -----------------------------------------------------------

  const QUOTE: Unit := 34
  const BACKSLASH: Unit := 92
  const LETTER_U: Unit := 117
  const COMMA: Unit := 44
  const COLON: Unit := 58
  const OPEN_BRACKET: Unit := 91
  const CLOSE_BRACKET: Unit := 93
  const OPEN_BRACE: Unit := 123
  const CLOSE_BRACE: Unit := 125

  predicate HighSurrogate(u: Unit) { 0xD800 <= u < 0xDC00 }
  predicate LowSurrogate(u: Unit) { 0xDC00 <= u < 0xE000 }

  function HexDigit(d: nat): Unit
    requires d < 16
  {
    if d < 10 then 48 + d else 87 + d
  }

  function Hex(u: Unit): Units {
    [HexDigit(u / 16 / 16 / 16), HexDigit(u / 16 / 16 % 16), HexDigit(u / 16 % 16), HexDigit(u % 16)]
  }

  /** The short escape letter of a unit, or 0. */
  function ShortEscape(u: Unit): Unit {
    if u == 34 || u == 92 then u
    else if u == 8 then 98
    else if u == 9 then 116
    else if u == 10 then 110
    else if u == 12 then 102
    else if u == 13 then 114
    else 0
  }

  function Escape(u: Unit): Units {
    if ShortEscape(u) != 0 then [BACKSLASH, ShortEscape(u)]
    else if u < 32 || HighSurrogate(u) || LowSurrogate(u) then [BACKSLASH, LETTER_U] + Hex(u)
    else [u]
  }

  /** Surrogate pairs are written as they are, everything else unit by unit. */
  function Body(s: Units): Units {
    if s == [] then []
    else if StartsPair(s) then s[..2] + Body(s[2..])
    else Escape(s[0]) + Body(s[1..])
  }

  function Quote(s: Units): Units {
    [QUOTE] + Body(s) + [QUOTE]
  }

  // ----- Reading a quoted string back --------------------------------------

  datatype Read = Nothing | Read(s: Units, rest: Units)

  function HexValue(u: Unit): int {
    if 48 <= u <= 57 then u - 48 else u - 87
  }

  function Letter(u: Unit): Unit {
    if u == 98 then 8 else if u == 116 then 9 else if u == 110 then 10 else if u == 102 then 12
    else if u == 114 then 13 else u
  }

  predicate IsHex(u: Unit) {
    48 <= u <= 57 || 97 <= u <= 102
  }

  function Cons(u: Unit, r: Read): Read {
    if r.Nothing? then Nothing else Read([u] + r.s, r.rest)
  }

  /** The string whose body starts here, and what follows its closing quote. */
  function Unquote(ts: Units): Read {
    if ts == [] then Nothing
    else if ts[0] == QUOTE then Read([], ts[1..])
    else if ts[0] != BACKSLASH then Cons(ts[0], Unquote(ts[1..]))
    else if |ts| < 2 then Nothing
    else if ts[1] != LETTER_U then Cons(Letter(ts[1]), Unquote(ts[2..]))
    else if |ts| < 6 || !IsHex(ts[2]) || !IsHex(ts[3]) || !IsHex(ts[4]) || !IsHex(ts[5]) then Nothing
    else
      var u := HexValue(ts[2]) * 4096 + HexValue(ts[3]) * 256 + HexValue(ts[4]) * 16 + HexValue(ts[5]);
      Cons(u, Unquote(ts[6..]))
  }

  lemma DigitRoundTrip(d: nat)
    requires d < 16
    ensures IsHex(HexDigit(d)) && HexValue(HexDigit(d)) == d
  {
  }

  lemma HexRoundTrip(u: Unit)
    ensures var h := Hex(u);
            && IsHex(h[0]) && IsHex(h[1]) && IsHex(h[2]) && IsHex(h[3])
            && HexValue(h[0]) * 4096 + HexValue(h[1]) * 256 + HexValue(h[2]) * 16 + HexValue(h[3]) == u
  {
    var a, b, c := u / 16, u / 16 / 16, u / 16 / 16 / 16;
    assert u == 16 * a + u % 16 && a == 16 * b + a % 16 && b == 16 * c + b % 16;
    DigitRoundTrip(c);
    DigitRoundTrip(b % 16);
    DigitRoundTrip(a % 16);
    DigitRoundTrip(u % 16);
  }

  lemma UnquoteRaw(u: Unit, ts: Units)
    requires u != QUOTE && u != BACKSLASH
    ensures Unquote([u] + ts) == Cons(u, Unquote(ts))
  {
    assert ([u] + ts)[1..] == ts;
  }

  lemma UnquoteEscape(u: Unit, ts: Units)
    ensures Unquote(Escape(u) + ts) == Cons(u, Unquote(ts))
  {
    var all := Escape(u) + ts;
    if ShortEscape(u) != 0 {
      assert all[2..] == ts;
    } else if u < 32 || HighSurrogate(u) || LowSurrogate(u) {
      HexRoundTrip(u);
      assert all[6..] == ts;
      assert all[2] == Hex(u)[0] && all[3] == Hex(u)[1] && all[4] == Hex(u)[2] && all[5] == Hex(u)[3];
    } else {
      assert all[1..] == ts;
    }
  }

  predicate StartsPair(s: Units) {
    2 <= |s| && HighSurrogate(s[0]) && LowSurrogate(s[1])
  }

  lemma BodyEmpty(rest: Units)
    ensures Unquote(Body([]) + [QUOTE] + rest) == Read([], rest)
  {
    assert Body([]) + [QUOTE] + rest == [QUOTE] + rest;
    assert ([QUOTE] + rest)[1..] == rest;
  }

  lemma BodyPair(s: Units, rest: Units)
    requires StartsPair(s)
    ensures Body(s) + [QUOTE] + rest == [s[0]] + ([s[1]] + (Body(s[2..]) + [QUOTE] + rest))
    ensures QUOTE !in s[..2] && BACKSLASH !in s[..2]
  {
    hide Body, StartsPair;
    PairLength(s);
    PairBody(s);
    PairUnquoted(s);
    TwoFirst(s[0], s[1], Body(s[2..]), [QUOTE], rest);
  }

  lemma PairBody(s: Units)
    requires StartsPair(s)
    ensures Body(s) == [s[0], s[1]] + Body(s[2..])
  {
    assert s[..2] == [s[0], s[1]];
  }

  lemma PairUnquoted(s: Units)
    requires StartsPair(s)
    ensures QUOTE !in s[..2] && BACKSLASH !in s[..2]
  {
    hide Body;
    assert s[..2] == [s[0], s[1]];
  }

  lemma TwoFirst(a: Unit, b: Unit, t: Units, q: Units, rest: Units)
    ensures [a, b] + t + q + rest == [a] + ([b] + (t + q + rest))
  {
  }

  lemma BodyUnit(s: Units, rest: Units)
    requires s != [] && !StartsPair(s)
    ensures Body(s) + [QUOTE] + rest == Escape(s[0]) + (Body(s[1..]) + [QUOTE] + rest)
  {
  }

  /** Quoting loses nothing, and the closing quote is recognised. */
  lemma {:induction false} UnquoteBody(s: Units, rest: Units)
    ensures Unquote(Body(s) + [QUOTE] + rest) == Read(s, rest)
    decreases |s|
  {
    hide Unquote, Body, Escape, StartsPair;
    if s == [] {
      BodyEmpty(rest);
    } else if StartsPair(s) {
      PairLength(s);
      BodyPair(s, rest);
      UnquoteBody(s[2..], rest);
      assert s[0] in s[..2] && s[1] in s[..2];
      UnquoteRaw(s[0], [s[1]] + (Body(s[2..]) + [QUOTE] + rest));
      UnquoteRaw(s[1], Body(s[2..]) + [QUOTE] + rest);
      assert [s[0]] + ([s[1]] + s[2..]) == s;
    } else {
      BodyUnit(s, rest);
      UnquoteBody(s[1..], rest);
      UnquoteEscape(s[0], Body(s[1..]) + [QUOTE] + rest);
      assert [s[0]] + s[1..] == s;
    }
  }

  lemma PairLength(s: Units)
    requires StartsPair(s)
    ensures 2 <= |s|
  {
  }

  lemma QuotePrefix(s: Units, t: Units, x: Units, y: Units)
    requires Quote(s) + x == Quote(t) + y
    ensures s == t && x == y
  {
    assert (Quote(s) + x)[1..] == Body(s) + [QUOTE] + x;
    assert (Quote(t) + y)[1..] == Body(t) + [QUOTE] + y;
    UnquoteBody(s, x);
    UnquoteBody(t, y);
  }

  // ----- Compact text: JSON.stringify --------------------------------------

  function Print(j: Json): (r: Units)
    ensures r != []
    decreases j, 1
  {
    match j
    case Null => [110, 117, 108, 108]
    case Bool(b) => if b then [116, 114, 117, 101] else [102, 97, 108, 115, 101]
    case Number(text) => if text == [] then [48] else text
    case Str(s) => Quote(s)
    case Arr(items) => [OPEN_BRACKET] + PrintItems(items) + [CLOSE_BRACKET]
    case Obj(fields) => [OPEN_BRACE] + PrintFields(fields) + [CLOSE_BRACE]
  }

  function PrintItems(items: seq<Json>): Units
    decreases items, 0
  {
    if items == [] then []
    else Print(items[0]) + if |items| == 1 then [] else [COMMA] + PrintItems(items[1..])
  }

  function PrintField(f: Field): Units
    decreases f, 2
  {
    Quote(f.key) + [COLON] + Print(f.value)
  }

  function PrintFields(fields: seq<Field>): Units
    decreases fields, 3
  {
    if fields == [] then []
    else PrintField(fields[0]) + if |fields| == 1 then [] else [COMMA] + PrintFields(fields[1..])
  }

  // ----- The text determines the value -------------------------------------

  /** What may follow a value inside a text: nothing, a comma or a closer. */
  predicate Ends(x: Units) {
    x == [] || x[0] == COMMA || x[0] == CLOSE_BRACKET || x[0] == CLOSE_BRACE
  }

  /** How many number units come first. */
  function NumberRun(ts: Units): nat {
    if ts == [] || !NumberUnit(ts[0]) then 0 else 1 + NumberRun(ts[1..])
  }

  lemma {:induction false} NumberRunLength(s: Units, x: Units)
    requires Ends(x) && forall i :: 0 <= i < |s| ==> NumberUnit(s[i])
    ensures NumberRun(s + x) == |s|
  {
    if s == [] {
      assert s + x == x;
    } else {
      assert (s + x)[1..] == s[1..] + x;
      NumberRunLength(s[1..], x);
    }
  }

  lemma NumberPrefix(s: Units, t: Units, x: Units, y: Units)
    requires s + x == t + y && Ends(x) && Ends(y)
    requires forall i :: 0 <= i < |s| ==> NumberUnit(s[i])
    requires forall i :: 0 <= i < |t| ==> NumberUnit(t[i])
    ensures s == t && x == y
  {
    NumberRunLength(s, x);
    NumberRunLength(t, y);
    DropSame(s, t, x, y);
  }

  /** The first unit of a value's text tells its kind and closes nothing. */
  lemma Heads(j: Json)
    requires Valid(j)
    ensures var h := Print(j)[0];
            match j
            case Null => h == 110
            case Bool(b) => h == if b then 116 else 102
            case Number(_) => 48 <= h <= 57 || h == 45
            case Str(_) => h == QUOTE
            case Arr(_) => h == OPEN_BRACKET
            case Obj(_) => h == OPEN_BRACE
  {
  }

  lemma DropSame(s: Units, t: Units, x: Units, y: Units)
    requires |s| == |t| && s + x == t + y
    ensures s == t && x == y
  {
    assert s == (s + x)[..|s|] && t == (t + y)[..|t|];
    assert x == (s + x)[|s|..] && y == (t + y)[|t|..];
  }

  /** Two texts that agree up to what follows come from the same value, and are followed by the same. */
  lemma {:induction false} PrintPrefix(a: Json, b: Json, x: Units, y: Units)
    requires Valid(a) && Valid(b) && Ends(x) && Ends(y) && Print(a) + x == Print(b) + y
    ensures a == b && x == y
    decreases a, 1
  {
    SameKind(a, b, x, y);
    hide Print;
    match a
    case Null => PrintSame(a, b, x, y);
    case Bool(_) => PrintSame(a, b, x, y);
    case Number(text) =>
      PrintNumber(a);
      PrintNumber(b);
      NumberPrefix(text, b.text, x, y);
    case Str(s) =>
      PrintString(a);
      PrintString(b);
      QuotePrefix(s, b.s, x, y);
    case Arr(items) =>
      OpenArray(items, b.items, x, y);
      ItemsPrefix(items, b.items, x, y);
    case Obj(fields) =>
      OpenObject(fields, b.fields, x, y);
      FieldsPrefix(fields, b.fields, x, y);
  }

  /** Equal texts start alike, so the values are of one kind. */
  lemma SameKind(a: Json, b: Json, x: Units, y: Units)
    requires Valid(a) && Valid(b) && Print(a) + x == Print(b) + y
    ensures a.Null? == b.Null? && a.Bool? == b.Bool? && a.Number? == b.Number? && a.Str? == b.Str?
    ensures a.Arr? == b.Arr? && a.Obj? == b.Obj?
    ensures a.Bool? ==> a == b
  {
    Heads(a);
    Heads(b);
    assert (Print(a) + x)[0] == Print(a)[0];
    assert (Print(b) + y)[0] == Print(b)[0];
    hide Print;
  }

  lemma PrintSame(a: Json, b: Json, x: Units, y: Units)
    requires a == b && Print(a) + x == Print(b) + y
    ensures x == y
  {
    DropSame(Print(a), Print(b), x, y);
  }

  lemma PrintNumber(a: Json)
    requires a.Number? && Valid(a)
    ensures Print(a) == a.text && forall i :: 0 <= i < |a.text| ==> NumberUnit(a.text[i])
  {
  }

  lemma PrintString(a: Json)
    requires a.Str?
    ensures Print(a) == Quote(a.s)
  {
  }

  lemma OpenArray(a: seq<Json>, b: seq<Json>, x: Units, y: Units)
    requires Print(Arr(a)) + x == Print(Arr(b)) + y
    ensures PrintItems(a) + [CLOSE_BRACKET] + x == PrintItems(b) + [CLOSE_BRACKET] + y
  {
    var p, q := PrintItems(a) + [CLOSE_BRACKET] + x, PrintItems(b) + [CLOSE_BRACKET] + y;
    assert Print(Arr(a)) + x == [OPEN_BRACKET] + p && Print(Arr(b)) + y == [OPEN_BRACKET] + q;
    DropSame([OPEN_BRACKET], [OPEN_BRACKET], p, q);
  }

  lemma OpenObject(a: seq<Field>, b: seq<Field>, x: Units, y: Units)
    requires Print(Obj(a)) + x == Print(Obj(b)) + y
    ensures PrintFields(a) + [CLOSE_BRACE] + x == PrintFields(b) + [CLOSE_BRACE] + y
  {
    var p, q := PrintFields(a) + [CLOSE_BRACE] + x, PrintFields(b) + [CLOSE_BRACE] + y;
    assert Print(Obj(a)) + x == [OPEN_BRACE] + p && Print(Obj(b)) + y == [OPEN_BRACE] + q;
    DropSame([OPEN_BRACE], [OPEN_BRACE], p, q);
  }

  /** After the first item: the end, or a comma and the rest. */
  function AfterItem(items: seq<Json>, x: Units): Units
    requires items != []
  {
    if |items| == 1 then [CLOSE_BRACKET] + x else [COMMA] + (PrintItems(items[1..]) + [CLOSE_BRACKET] + x)
  }

  lemma ItemsSplit(items: seq<Json>, x: Units)
    requires items != [] && Valid(items[0])
    ensures PrintItems(items) + [CLOSE_BRACKET] + x == Print(items[0]) + AfterItem(items, x)
    ensures (PrintItems(items) + [CLOSE_BRACKET] + x)[0] != CLOSE_BRACKET
  {
    Heads(items[0]);
  }

  lemma ItemsEnd(items: seq<Json>, x: Units)
    requires items != []
    ensures AfterItem(items, x) != [] && Ends(AfterItem(items, x))
    ensures AfterItem(items, x)[0] == CLOSE_BRACKET <==> |items| == 1
    ensures AfterItem(items, x) == if |items| == 1 then [CLOSE_BRACKET] + x else [COMMA] + (PrintItems(items[1..]) + [CLOSE_BRACKET] + x)
  {
    hide PrintItems;
  }

  lemma NoItems(x: Units)
    ensures PrintItems([]) + [CLOSE_BRACKET] + x == [CLOSE_BRACKET] + x
  {
    assert [] + [CLOSE_BRACKET] + x == [CLOSE_BRACKET] + x;
  }

  lemma {:induction false} ItemsPrefix(a: seq<Json>, b: seq<Json>, x: Units, y: Units)
    requires (forall i :: 0 <= i < |a| ==> Valid(a[i])) && (forall i :: 0 <= i < |b| ==> Valid(b[i]))
    requires PrintItems(a) + [CLOSE_BRACKET] + x == PrintItems(b) + [CLOSE_BRACKET] + y
    ensures a == b && x == y
    decreases a, 0
  {
    hide Print, PrintItems, AfterItem, Valid, Ends;
    NoItems(x);
    NoItems(y);
    if a != [] { ItemsSplit(a, x); }
    if b != [] { ItemsSplit(b, y); }
    if a == [] && b == [] {
      DropSame([CLOSE_BRACKET], [CLOSE_BRACKET], x, y);
    } else if a == [] || b == [] {
      assert false;
    } else {
      ItemsEnd(a, x);
      ItemsEnd(b, y);
      PrintPrefix(a[0], b[0], AfterItem(a, x), AfterItem(b, y));
      if |a| == 1 {
        DropSame([CLOSE_BRACKET], [CLOSE_BRACKET], x, y);
      } else {
        DropSame([COMMA], [COMMA], PrintItems(a[1..]) + [CLOSE_BRACKET] + x, PrintItems(b[1..]) + [CLOSE_BRACKET] + y);
        ItemsPrefix(a[1..], b[1..], x, y);
      }
      assert a == [a[0]] + a[1..] && b == [b[0]] + b[1..];
    }
  }

  function AfterField(fields: seq<Field>, x: Units): Units
    requires fields != []
  {
    if |fields| == 1 then [CLOSE_BRACE] + x else [COMMA] + (PrintFields(fields[1..]) + [CLOSE_BRACE] + x)
  }

  lemma FieldsSplit(fields: seq<Field>, x: Units)
    requires fields != []
    ensures PrintFields(fields) + [CLOSE_BRACE] + x ==
            Quote(fields[0].key) + ([COLON] + (Print(fields[0].value) + AfterField(fields, x)))
    ensures (PrintFields(fields) + [CLOSE_BRACE] + x)[0] == QUOTE
  {
    hide Print, Quote;
    var rest := if |fields| == 1 then [] else [COMMA] + PrintFields(fields[1..]);
    assert PrintFields(fields) == PrintField(fields[0]) + rest;
    RestOfFields(fields, x);
    QuoteStarts(fields[0].key);
    Regroup(Quote(fields[0].key), [COLON], Print(fields[0].value), rest, [CLOSE_BRACE], x);
  }

  lemma RestOfFields(fields: seq<Field>, x: Units)
    requires fields != []
    ensures (if |fields| == 1 then [] else [COMMA] + PrintFields(fields[1..])) + [CLOSE_BRACE] + x == AfterField(fields, x)
  {
    hide PrintFields;
  }

  lemma QuoteStarts(s: Units)
    ensures Quote(s) != [] && Quote(s)[0] == QUOTE
  {
  }

  lemma Regroup(a: Units, b: Units, c: Units, d: Units, e: Units, x: Units)
    ensures a + b + c + d + e + x == a + (b + (c + (d + e + x)))
  {
  }

  lemma FieldsEnd(fields: seq<Field>, x: Units)
    requires fields != []
    ensures AfterField(fields, x) != [] && Ends(AfterField(fields, x))
    ensures AfterField(fields, x)[0] == CLOSE_BRACE <==> |fields| == 1
    ensures AfterField(fields, x) == if |fields| == 1 then [CLOSE_BRACE] + x else [COMMA] + (PrintFields(fields[1..]) + [CLOSE_BRACE] + x)
  {
    hide PrintFields;
  }

  lemma NoFields(x: Units)
    ensures PrintFields([]) + [CLOSE_BRACE] + x == [CLOSE_BRACE] + x
  {
    assert [] + [CLOSE_BRACE] + x == [CLOSE_BRACE] + x;
  }

  lemma FirstField(a: Field, b: Field, x: Units, y: Units)
    requires Quote(a.key) + ([COLON] + (Print(a.value) + x)) == Quote(b.key) + ([COLON] + (Print(b.value) + y))
    ensures a.key == b.key && Print(a.value) + x == Print(b.value) + y
  {
    hide Print, Quote;
    QuotePrefix(a.key, b.key, [COLON] + (Print(a.value) + x), [COLON] + (Print(b.value) + y));
    DropSame([COLON], [COLON], Print(a.value) + x, Print(b.value) + y);
  }

  lemma {:induction false} FieldsPrefix(a: seq<Field>, b: seq<Field>, x: Units, y: Units)
    requires (forall i :: 0 <= i < |a| ==> Valid(a[i].value)) && (forall i :: 0 <= i < |b| ==> Valid(b[i].value))
    requires PrintFields(a) + [CLOSE_BRACE] + x == PrintFields(b) + [CLOSE_BRACE] + y
    ensures a == b && x == y
    decreases a, 0
  {
    hide Print, PrintFields, AfterField, Valid, Ends, Quote;
    NoFields(x);
    NoFields(y);
    if a != [] { FieldsSplit(a, x); }
    if b != [] { FieldsSplit(b, y); }
    if a == [] && b == [] {
      DropSame([CLOSE_BRACE], [CLOSE_BRACE], x, y);
    } else if a == [] || b == [] {
      assert false;
    } else {
      FieldsEnd(a, x);
      FieldsEnd(b, y);
      FirstField(a[0], b[0], AfterField(a, x), AfterField(b, y));
      PrintPrefix(a[0].value, b[0].value, AfterField(a, x), AfterField(b, y));
      if |a| == 1 {
        DropSame([CLOSE_BRACE], [CLOSE_BRACE], x, y);
      } else {
        DropSame([COMMA], [COMMA], PrintFields(a[1..]) + [CLOSE_BRACE] + x, PrintFields(b[1..]) + [CLOSE_BRACE] + y);
        FieldsPrefix(a[1..], b[1..], x, y);
      }
      assert a == [a[0]] + a[1..] && b == [b[0]] + b[1..];
    }
  }

  /** Compact JSON text is injective on valid values. */
  lemma PrintInjective(a: Json, b: Json)
    requires Valid(a) && Valid(b)
    ensures Print(a) == Print(b) <==> a == b
  {
    if Print(a) == Print(b) {
      assert Print(a) + [] == Print(b) + [];
      PrintPrefix(a, b, [], []);
    }
  }
}
