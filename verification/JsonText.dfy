/**
 `JSON.stringify` on plain data, as code units (RFC 8259, sections 3 to 7), and the fact
 that the text determines the value: no two values share a text, even when more text
 follows. Strings are quoted with the short escapes where there are any, and the halves
 of a surrogate pair that stand alone are escaped by number.
 */
module JsonText {
  import opened Prelude
  import opened Utf16

  /** Plain data. The fields of an object are listed in own-property order. */
  datatype Json =
    | JNull
    | JBool(flag: bool)
    | JNum(number: int)
    | JStr(text: Text)
    | JArr(items: seq<Json>)
    | JObj(fields: seq<Field>)

  datatype Field = Field(key: Text, value: Json)

  const QUOTE: Unit := 34
  const COMMA: Unit := 44
  const COLON: Unit := 58
  const OPEN_BRACKET: Unit := 91
  const BACKSLASH: Unit := 92
  const CLOSE_BRACKET: Unit := 93
  const OPEN_BRACE: Unit := 123
  const CLOSE_BRACE: Unit := 125

  // ---- strings ----

  predicate IsHigh(u: Unit) { 0xD800 <= u < 0xDC00 }

  predicate IsLow(u: Unit) { 0xDC00 <= u < 0xE000 }

  function HexDigit(d: int): Unit
    requires 0 <= d < 16
  {
    if d < 10 then 48 + d else 87 + d
  }

  function HexValue(u: Unit): int {
    if IsDigit(u) then u - 48 else u - 87
  }

  function UnicodeEscape(u: Unit): Text {
    [BACKSLASH, 117, HexDigit(u / 4096), HexDigit(u / 256 % 16), HexDigit(u / 16 % 16), HexDigit(u % 16)]
  }

  /** The text of one code unit that is not half of a surrogate pair. */
  function UnitCode(u: Unit): Text {
    if u == 8 then [BACKSLASH, 98]
    else if u == 9 then [BACKSLASH, 116]
    else if u == 10 then [BACKSLASH, 110]
    else if u == 12 then [BACKSLASH, 102]
    else if u == 13 then [BACKSLASH, 114]
    else if u == QUOTE || u == BACKSLASH then [BACKSLASH, u]
    else if u < 0x20 || IsHigh(u) || IsLow(u) then UnicodeEscape(u)
    else [u]
  }

  /** How many code units of a nonempty string are encoded together. */
  function TokenLength(s: Text): (n: nat)
    requires s != []
    ensures 1 <= n <= |s|
  {
    if IsHigh(s[0]) && |s| > 1 && IsLow(s[1]) then 2 else 1
  }

  function TokenCode(s: Text): (t: Text)
    requires s != []
    ensures t != [] && t[0] != QUOTE
  {
    if TokenLength(s) == 2 then s[..2] else UnitCode(s[0])
  }

  function QuoteBody(s: Text): Text {
    if s == [] then [] else TokenCode(s) + QuoteBody(s[TokenLength(s)..])
  }

  function Quote(s: Text): Text {
    [QUOTE] + QuoteBody(s) + [QUOTE]
  }

  /** What a reader takes off the front of a string body: the code units meant
      and the number of code units read. */
  function ReadToken(t: Text): (Text, nat)
    requires t != []
  {
    if t[0] != BACKSLASH then
      if IsHigh(t[0]) && |t| > 1 then (t[..2], 2) else ([t[0]], 1)
    else if |t| == 1 then ([], 0)
    else if t[1] == 98 then ([8], 2)
    else if t[1] == 116 then ([9], 2)
    else if t[1] == 110 then ([10], 2)
    else if t[1] == 102 then ([12], 2)
    else if t[1] == 114 then ([13], 2)
    else if t[1] == 117 && |t| >= 6 then
      ([(HexValue(t[2]) * 4096 + HexValue(t[3]) * 256 + HexValue(t[4]) * 16 + HexValue(t[5])) % 0x1_0000], 6)
    else ([t[1]], 2)
  }

  lemma {:induction false} HexDigitValue(d: int)
    requires 0 <= d < 16
    ensures HexValue(HexDigit(d)) == d
  {
  }

  lemma {:induction false} HexSum(u: Unit)
    ensures u / 4096 * 4096 + u / 256 % 16 * 256 + u / 16 % 16 * 16 + u % 16 == u
  {
    var a: int := u / 16;
    var b := a / 16;
    assert b == u / 256 && b / 16 == u / 4096;
    assert u == 16 * a + u % 16 && a == 16 * b + a % 16 && b == 16 * (b / 16) + b % 16;
  }

  lemma {:induction false} ReadEscape(u: Unit, rest: Text)
    ensures ReadToken(UnicodeEscape(u) + rest) == ([u], 6)
  {
    var t := UnicodeEscape(u) + rest;
    assert |t| >= 6 && t[0] == BACKSLASH && t[1] == 117;
    assert t[2] == HexDigit(u / 4096) && t[3] == HexDigit(u / 256 % 16);
    assert t[4] == HexDigit(u / 16 % 16) && t[5] == HexDigit(u % 16);
    HexDigitValue(u / 4096);
    HexDigitValue(u / 256 % 16);
    HexDigitValue(u / 16 % 16);
    HexDigitValue(u % 16);
    HexSum(u);
  }

  lemma {:induction false} ReadTokenOfCode(s: Text, rest: Text)
    requires s != []
    ensures ReadToken(TokenCode(s) + rest) == (s[..TokenLength(s)], |TokenCode(s)|)
  {
    var code := TokenCode(s);
    var t := code + rest;
    assert t[..|code|] == code;
    if TokenLength(s) == 2 {
      assert t[..2] == s[..2];
    } else {
      var u := s[0];
      assert s[..1] == [u];
      if code == UnicodeEscape(u) {
        ReadEscape(u, rest);
      } else {
        assert t[0] == code[0] && (|code| == 2 ==> t[1] == code[1]);
      }
    }
  }

  /** A string body and its closing quote, seen from the front. */
  lemma {:induction false} BodyFront(s: Text, x: Text)
    ensures s == [] ==> QuoteBody(s) + ([QUOTE] + x) == [QUOTE] + x
    ensures s != [] ==>
      QuoteBody(s) + ([QUOTE] + x) == TokenCode(s) + (QuoteBody(s[TokenLength(s)..]) + ([QUOTE] + x))
    ensures (QuoteBody(s) + ([QUOTE] + x))[0] == QUOTE <==> s == []
  {
    if s == [] {
      assert QuoteBody(s) + ([QUOTE] + x) == [QUOTE] + x;
    } else {
      var code := TokenCode(s);
      Regroup3(code, QuoteBody(s[TokenLength(s)..]), [QUOTE] + x);
      assert (code + (QuoteBody(s[TokenLength(s)..]) + ([QUOTE] + x)))[0] == code[0];
    }
  }

  /** A reader of string bodies by section 7 of RFC 8259: the text read up to the closing
      quote, and what follows it. Control characters must be escaped. */
  function ReadBody(t: Text): Option<(Text, Text)>
    decreases |t|
  {
    if t == [] || t[0] < 0x20 then None
    else if t[0] == QUOTE then Some(([], t[1..]))
    else
      var token := ReadToken(t);
      if token.1 == 0 then None
      else
        var rest := ReadBody(t[token.1..]);
        if rest.None? then None else Some((token.0 + rest.value.0, rest.value.1))
  }

  lemma {:induction false} ReadBodyNext(code: Text, meant: Text, rest: Text, s: Text, x: Text)
    requires code != [] && code[0] >= 0x20 && code[0] != QUOTE
    requires ReadToken(code + rest) == (meant, |code|) && ReadBody(rest) == Some((s, x))
    ensures ReadBody(code + rest) == Some((meant + s, x))
  {
    assert (code + rest)[0] == code[0] && (code + rest)[|code|..] == rest;
  }

  /** Reading a quoted string gives the string, whatever it holds and whatever follows. */
  lemma {:induction false} QuoteIsRead(s: Text, x: Text)
    ensures ReadBody(QuoteBody(s) + ([QUOTE] + x)) == Some((s, x))
    decreases |s|
  {
    BodyFront(s, x);
    if s == [] {
      HeadTail(QUOTE, x);
    } else {
      var n := TokenLength(s);
      var rest := QuoteBody(s[n..]) + ([QUOTE] + x);
      ReadTokenOfCode(s, rest);
      QuoteIsRead(s[n..], x);
      ReadBodyNext(TokenCode(s), s[..n], rest, s[n..], x);
      assert s[..n] + s[n..] == s;
    }
  }

  lemma {:induction false} BodyUnambiguous(s: Text, t: Text, x: Text, y: Text)
    requires QuoteBody(s) + ([QUOTE] + x) == QuoteBody(t) + ([QUOTE] + y)
    ensures s == t && x == y
    decreases |s|
  {
    BodyFront(s, x);
    BodyFront(t, y);
    if s == [] {
      SplitEqual([QUOTE], x, [QUOTE], y);
    } else {
      var m, n := TokenLength(s), TokenLength(t);
      var restS, restT := QuoteBody(s[m..]) + ([QUOTE] + x), QuoteBody(t[n..]) + ([QUOTE] + y);
      ReadTokenOfCode(s, restS);
      ReadTokenOfCode(t, restT);
      SplitEqual(TokenCode(s), restS, TokenCode(t), restT);
      BodyUnambiguous(s[m..], t[n..], x, y);
      assert s == s[..m] + s[m..] && t == t[..n] + t[n..];
    }
  }

  lemma {:induction false} QuoteUnambiguous(s: Text, t: Text, x: Text, y: Text)
    requires Quote(s) + x == Quote(t) + y
    ensures s == t && x == y
  {
    Regroup4([QUOTE], QuoteBody(s), [QUOTE], x);
    Regroup4([QUOTE], QuoteBody(t), [QUOTE], y);
    SplitEqual([QUOTE], QuoteBody(s) + ([QUOTE] + x), [QUOTE], QuoteBody(t) + ([QUOTE] + y));
    BodyUnambiguous(s, t, x, y);
  }

  // ---- values ----

  function Stringify(v: Json): Text
    decreases v, 0
  {
    match v
    case JNull => [110, 117, 108, 108]
    case JBool(flag) => if flag then [116, 114, 117, 101] else [102, 97, 108, 115, 101]
    case JNum(n) => Decimal(n)
    case JStr(s) => Quote(s)
    case JArr(items) => [OPEN_BRACKET] + StringifyItems(items) + [CLOSE_BRACKET]
    case JObj(fields) => [OPEN_BRACE] + StringifyFields(fields) + [CLOSE_BRACE]
  }

  function StringifyItems(items: seq<Json>): Text
    decreases items, 0
  {
    if items == [] then []
    else if |items| == 1 then Stringify(items[0])
    else Stringify(items[0]) + [COMMA] + StringifyItems(items[1..])
  }

  function StringifyFields(fields: seq<Field>): Text
    decreases fields, 0
  {
    if fields == [] then []
    else if |fields| == 1 then StringifyField(fields[0])
    else StringifyField(fields[0]) + [COMMA] + StringifyFields(fields[1..])
  }

  function StringifyField(f: Field): Text
    decreases f, 1
  {
    Quote(f.key) + [COLON] + Stringify(f.value)
  }

  /** The literal names, brackets and quotes of sections 3 to 7 of RFC 8259. */
  lemma {:induction false} TextsOfValues(n: int, s: Text)
    ensures Stringify(JNull) == Lit("null") && Stringify(JBool(true)) == Lit("true") && Stringify(JBool(false)) == Lit("false")
    ensures Stringify(JNum(n)) == Decimal(n) && Stringify(JStr(s)) == Lit("\"") + QuoteBody(s) + Lit("\"")
    ensures Stringify(JArr([])) == Lit("[]") && Stringify(JObj([])) == Lit("{}")
  {
    assert Lit("\"") == [QUOTE];
    assert [OPEN_BRACKET] + [] + [CLOSE_BRACKET] == Lit("[]") && [OPEN_BRACE] + [] + [CLOSE_BRACE] == Lit("{}");
  }

  lemma {:induction false} OneUnit(u: Unit)
    ensures QuoteBody([u]) == UnitCode(u)
  {
    assert [u][1..] == [];
    assert UnitCode(u) + [] == UnitCode(u);
  }

  /** The short escapes. */
  lemma {:induction false} ShortEscapes()
    ensures QuoteBody([8]) == Lit("\\b") && QuoteBody([9]) == Lit("\\t") && QuoteBody([10]) == Lit("\\n")
    ensures QuoteBody([12]) == Lit("\\f") && QuoteBody([13]) == Lit("\\r")
    ensures QuoteBody([34]) == Lit("\\\"") && QuoteBody([92]) == Lit("\\\\")
  {
    OneUnit(8);
    OneUnit(9);
    OneUnit(10);
    OneUnit(12);
    OneUnit(13);
    OneUnit(34);
    OneUnit(92);
  }

  /** Other controls and halves of surrogate pairs are escaped by number; anything else, and
      a pair, stands for itself. */
  lemma {:induction false} OtherUnits(u: Unit, high: Unit, low: Unit)
    ensures QuoteBody([31]) == Lit("\\u001f") && QuoteBody([0xD834]) == Lit("\\ud834")
    ensures 0x20 <= u && u != 34 && u != 92 && !(0xD800 <= u < 0xE000) ==> QuoteBody([u]) == [u]
    ensures 0xD800 <= high < 0xDC00 <= low < 0xE000 ==> QuoteBody([high, low]) == [high, low]
  {
    OneUnit(31);
    OneUnit(0xD834);
    OneUnit(u);
    assert [high, low][2..] == [] && [high, low][..2] == [high, low];
  }

  lemma {:induction false} Flatten(a: Text, b: Text, c: Text, d: Text, e: Text)
    ensures a + (b + c + d) + e == a + b + c + d + e
  {
  }

  /** Items are separated by commas. */
  lemma {:induction false} TextOfArray(v: Json, w: Json)
    ensures Stringify(JArr([v, w])) == Lit("[") + Stringify(v) + Lit(",") + Stringify(w) + Lit("]")
  {
    assert [v, w][1..] == [w];
    assert StringifyItems([v, w]) == Stringify(v) + [COMMA] + Stringify(w);
    assert Lit("[") == [OPEN_BRACKET] && Lit(",") == [COMMA] && Lit("]") == [CLOSE_BRACKET];
    Flatten([OPEN_BRACKET], Stringify(v), [COMMA], Stringify(w), [CLOSE_BRACKET]);
  }

  /** A field is its quoted key, a colon and its value. */
  lemma {:induction false} TextOfObject(f: Field, g: Field)
    ensures var text := (x: Field) => Stringify(JStr(x.key)) + Lit(":") + Stringify(x.value);
      Stringify(JObj([f, g])) == Lit("{") + text(f) + Lit(",") + text(g) + Lit("}")
  {
    assert [f, g][1..] == [g];
    assert Lit("{") == [OPEN_BRACE] && Lit(",") == [COMMA] && Lit("}") == [CLOSE_BRACE] && Lit(":") == [COLON];
    assert StringifyFields([f, g]) == StringifyField(f) + [COMMA] + StringifyField(g);
    Flatten([OPEN_BRACE], StringifyField(f), [COMMA], StringifyField(g), [CLOSE_BRACE]);
  }

  /** What can follow a value inside a JSON text. */
  predicate Follows(x: Text) {
    x == [] || x[0] == COMMA || x[0] == CLOSE_BRACKET || x[0] == CLOSE_BRACE
  }

  /** The first code unit of a value's text tells its kind. */
  lemma {:induction false} FirstUnit(v: Json)
    ensures Stringify(v) != []
    ensures Stringify(v)[0] == 110 <==> v.JNull?
    ensures Stringify(v)[0] == 116 <==> v == JBool(true)
    ensures Stringify(v)[0] == 102 <==> v == JBool(false)
    ensures Stringify(v)[0] == 45 || IsDigit(Stringify(v)[0]) <==> v.JNum?
    ensures Stringify(v)[0] == QUOTE <==> v.JStr?
    ensures Stringify(v)[0] == OPEN_BRACKET <==> v.JArr?
    ensures Stringify(v)[0] == OPEN_BRACE <==> v.JObj?
    ensures Stringify(v)[0] != CLOSE_BRACKET && Stringify(v)[0] != CLOSE_BRACE
  {
    if v.JNum? {
      DecimalSign(v.number);
      if v.number >= 0 {
        assert IsDigit(Digits(v.number)[0]);
      }
    }
  }

  /** The text determines the value: reading a value back is unambiguous, whatever
      follows it. */
  lemma {:induction false} StringifyUnambiguous(a: Json, b: Json, x: Text, y: Text)
    requires Stringify(a) + x == Stringify(b) + y
    requires Follows(x) && Follows(y)
    ensures a == b && x == y
    decreases a, 0
  {
    FirstUnit(a);
    FirstUnit(b);
    assert Stringify(a)[0] == (Stringify(a) + x)[0] && Stringify(b)[0] == (Stringify(b) + y)[0];
    match a
    case JNull =>
      SplitEqual(Stringify(a), x, Stringify(b), y);
    case JBool(_) =>
      SplitEqual(Stringify(a), x, Stringify(b), y);
    case JNum(n) =>
      DecimalUnambiguous(n, b.number, x, y);
    case JStr(s) =>
      QuoteUnambiguous(s, b.text, x, y);
    case JArr(items) =>
      Unbracket(OPEN_BRACKET, StringifyItems(items), CLOSE_BRACKET, x, StringifyItems(b.items), y);
      ItemsUnambiguous(items, b.items, x, y);
    case JObj(fields) =>
      Unbracket(OPEN_BRACE, StringifyFields(fields), CLOSE_BRACE, x, StringifyFields(b.fields), y);
      FieldsUnambiguous(fields, b.fields, x, y);
  }

  lemma {:induction false} Unbracket(open: Unit, p: Text, close: Unit, x: Text, q: Text, y: Text)
    requires [open] + p + [close] + x == [open] + q + [close] + y
    ensures p + ([close] + x) == q + ([close] + y)
  {
    Regroup4([open], p, [close], x);
    Regroup4([open], q, [close], y);
    SplitEqual([open], p + ([close] + x), [open], q + ([close] + y));
  }

  /** The text after the first of several items, up to and past the closing mark. */
  function AfterItem(items: seq<Json>, x: Text): (t: Text)
    requires items != []
    ensures t != [] && t[0] == if |items| == 1 then CLOSE_BRACKET else COMMA
  {
    if |items| == 1 then [CLOSE_BRACKET] + x
    else [COMMA] + (StringifyItems(items[1..]) + ([CLOSE_BRACKET] + x))
  }

  lemma {:induction false} ItemsFront(items: seq<Json>, x: Text)
    ensures items == [] ==> StringifyItems(items) + ([CLOSE_BRACKET] + x) == [CLOSE_BRACKET] + x
    ensures items != [] ==>
      StringifyItems(items) + ([CLOSE_BRACKET] + x) == Stringify(items[0]) + AfterItem(items, x)
    ensures (StringifyItems(items) + ([CLOSE_BRACKET] + x))[0] == CLOSE_BRACKET <==> items == []
  {
    if items == [] {
      assert StringifyItems(items) + ([CLOSE_BRACKET] + x) == [CLOSE_BRACKET] + x;
    } else {
      FirstUnit(items[0]);
      var head := Stringify(items[0]);
      if |items| > 1 {
        Regroup4(head, [COMMA], StringifyItems(items[1..]), [CLOSE_BRACKET] + x);
      }
      assert (head + AfterItem(items, x))[0] == head[0];
    }
  }

  lemma {:induction false} AfterItemEqual(a: seq<Json>, b: seq<Json>, x: Text, y: Text)
    requires a != [] && b != []
    requires AfterItem(a, x) == AfterItem(b, y)
    ensures |a| == 1 <==> |b| == 1
    ensures |a| == 1 ==> x == y
    ensures |a| > 1 ==>
      StringifyItems(a[1..]) + ([CLOSE_BRACKET] + x) == StringifyItems(b[1..]) + ([CLOSE_BRACKET] + y)
  {
    if |a| == 1 {
      SplitEqual([CLOSE_BRACKET], x, [CLOSE_BRACKET], y);
    } else {
      SplitEqual([COMMA], StringifyItems(a[1..]) + ([CLOSE_BRACKET] + x),
                 [COMMA], StringifyItems(b[1..]) + ([CLOSE_BRACKET] + y));
    }
  }

  lemma {:induction false} ItemsUnambiguous(a: seq<Json>, b: seq<Json>, x: Text, y: Text)
    requires StringifyItems(a) + ([CLOSE_BRACKET] + x) == StringifyItems(b) + ([CLOSE_BRACKET] + y)
    ensures a == b && x == y
    decreases a, 1
  {
    ItemsFront(a, x);
    ItemsFront(b, y);
    if a == [] {
      SplitEqual([CLOSE_BRACKET], x, [CLOSE_BRACKET], y);
    } else {
      StringifyUnambiguous(a[0], b[0], AfterItem(a, x), AfterItem(b, y));
      AfterItemEqual(a, b, x, y);
      if |a| > 1 {
        ItemsUnambiguous(a[1..], b[1..], x, y);
      }
      ConsEqual(a, b);
    }
  }

  function AfterField(fields: seq<Field>, x: Text): (t: Text)
    requires fields != []
    ensures t != [] && t[0] == if |fields| == 1 then CLOSE_BRACE else COMMA
  {
    if |fields| == 1 then [CLOSE_BRACE] + x
    else [COMMA] + (StringifyFields(fields[1..]) + ([CLOSE_BRACE] + x))
  }

  lemma {:induction false} FieldsFront(fields: seq<Field>, x: Text)
    ensures fields == [] ==> StringifyFields(fields) + ([CLOSE_BRACE] + x) == [CLOSE_BRACE] + x
    ensures fields != [] ==>
      StringifyFields(fields) + ([CLOSE_BRACE] + x) == StringifyField(fields[0]) + AfterField(fields, x)
    ensures (StringifyFields(fields) + ([CLOSE_BRACE] + x))[0] == CLOSE_BRACE <==> fields == []
  {
    if fields == [] {
      assert StringifyFields(fields) + ([CLOSE_BRACE] + x) == [CLOSE_BRACE] + x;
    } else {
      var head := StringifyField(fields[0]);
      assert head[0] == QUOTE;
      if |fields| > 1 {
        Regroup4(head, [COMMA], StringifyFields(fields[1..]), [CLOSE_BRACE] + x);
      }
      assert (head + AfterField(fields, x))[0] == head[0];
    }
  }

  lemma {:induction false} AfterFieldEqual(a: seq<Field>, b: seq<Field>, x: Text, y: Text)
    requires a != [] && b != []
    requires AfterField(a, x) == AfterField(b, y)
    ensures |a| == 1 <==> |b| == 1
    ensures |a| == 1 ==> x == y
    ensures |a| > 1 ==>
      StringifyFields(a[1..]) + ([CLOSE_BRACE] + x) == StringifyFields(b[1..]) + ([CLOSE_BRACE] + y)
  {
    if |a| == 1 {
      SplitEqual([CLOSE_BRACE], x, [CLOSE_BRACE], y);
    } else {
      SplitEqual([COMMA], StringifyFields(a[1..]) + ([CLOSE_BRACE] + x),
                 [COMMA], StringifyFields(b[1..]) + ([CLOSE_BRACE] + y));
    }
  }

  lemma {:induction false} FieldsUnambiguous(a: seq<Field>, b: seq<Field>, x: Text, y: Text)
    requires StringifyFields(a) + ([CLOSE_BRACE] + x) == StringifyFields(b) + ([CLOSE_BRACE] + y)
    ensures a == b && x == y
    decreases a, 1
  {
    FieldsFront(a, x);
    FieldsFront(b, y);
    if a == [] {
      SplitEqual([CLOSE_BRACE], x, [CLOSE_BRACE], y);
    } else {
      FieldUnambiguous(a[0], b[0], AfterField(a, x), AfterField(b, y));
      AfterFieldEqual(a, b, x, y);
      if |a| > 1 {
        FieldsUnambiguous(a[1..], b[1..], x, y);
      }
      ConsEqual(a, b);
    }
  }

  lemma {:induction false} FieldUnambiguous(a: Field, b: Field, x: Text, y: Text)
    requires StringifyField(a) + x == StringifyField(b) + y
    requires Follows(x) && Follows(y)
    ensures a == b && x == y
    decreases a, 0
  {
    var va, vb := Stringify(a.value), Stringify(b.value);
    Regroup4(Quote(a.key), [COLON], va, x);
    Regroup4(Quote(b.key), [COLON], vb, y);
    QuoteUnambiguous(a.key, b.key, [COLON] + (va + x), [COLON] + (vb + y));
    SplitEqual([COLON], va + x, [COLON], vb + y);
    StringifyUnambiguous(a.value, b.value, x, y);
  }

  /** Two values have the same JSON text exactly when they are the same value. */
  lemma {:induction false} StringifyInjective(a: Json, b: Json)
    ensures Stringify(a) == Stringify(b) <==> a == b
  {
    if Stringify(a) == Stringify(b) {
      assert Stringify(a) + [] == Stringify(b) + [];
      StringifyUnambiguous(a, b, [], []);
    }
  }
}
