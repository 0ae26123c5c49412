/**
 The canonical JSON used for hashing: `normalise` sorts keys and turns values without a JSON
 form into ones that have one, `canonicalJson` prints the result. Two values get the same
 string exactly when they are equal as data.
 */
module CanonicalJson {
  import opened Prelude
  import opened Utf16
  import opened JsonText

  /** A value handed to `canonicalJson`. The fields of an object are listed in
      insertion order; `Opaque` stands for functions and symbols; a `Date` is given
      by its ISO string. */
  datatype Js =
    | Null
    | Undefined
    | Bool(flag: bool)
    | Num(number: int)
    | BigInt(number: int)
    | Str(text: Text)
    | Date(iso: Text)
    | Arr(items: seq<Js>)
    | Obj(fields: seq<Property>)
    | Opaque

  datatype Property = Property(key: Text, value: Js)

  /** An object never has two properties with one key. */
  predicate WellFormed(v: Js) {
    match v
    case Arr(items) => forall x <- items :: WellFormed(x)
    case Obj(fields) =>
      && (forall i, j :: 0 <= i < j < |fields| ==> fields[i].key != fields[j].key)
      && forall p <- fields :: WellFormed(p.value)
    case _ => true
  }

  // ---- own-property order of JavaScript objects ----

  /** Assigning to this key sets the prototype instead of adding a property. */
  const PROTO: Text := Lit("__proto__")

  predicate IsArrayIndex(key: Text) {
    key != [] && (forall i :: 0 <= i < |key| ==> IsDigit(key[i]))
    && DigitsValue(key) < 4294967295 && Digits(DigitsValue(key)) == key
  }

  /** Array-index keys come first, by number; the others follow. `normalise` adds
      those in code-unit order. */
  predicate KeyLess(a: Text, b: Text) {
    if IsArrayIndex(a) && IsArrayIndex(b) then DigitsValue(a) < DigitsValue(b)
    else if IsArrayIndex(a) || IsArrayIndex(b) then IsArrayIndex(a)
    else TextLess(a, b)
  }

  lemma {:induction false} KeyLessTotal(a: Text, b: Text)
    ensures a == b || KeyLess(a, b) || KeyLess(b, a)
    ensures !(KeyLess(a, b) && KeyLess(b, a))
    ensures !KeyLess(a, a)
  {
    TextLessTotal(a, b);
  }

  lemma {:induction false} KeyLessTransitive(a: Text, b: Text, c: Text)
    requires KeyLess(a, b) && KeyLess(b, c)
    ensures KeyLess(a, c)
  {
    if !IsArrayIndex(a) && !IsArrayIndex(b) && !IsArrayIndex(c) {
      TextLessTransitive(a, b, c);
    }
  }

  ghost predicate Sorted(fields: seq<Field>) {
    forall i, j :: 0 <= i < j < |fields| ==> KeyLess(fields[i].key, fields[j].key)
  }

  /** Strictly sorted field lists with the same fields are the same list. */
  lemma {:induction false} SortedUnique(a: seq<Field>, b: seq<Field>)
    requires Sorted(a) && Sorted(b)
    requires Elements(a) == Elements(b)
    ensures a == b
  {
    if a == [] {
      assert forall i :: 0 <= i < |b| ==> b[i] in Elements(b);
    } else {
      assert a[0] in Elements(a) && a[0] in b;
      var i :| 0 <= i < |b| && b[i] == a[0];
      assert b[0] in Elements(b) && b[0] in a;
      var j :| 0 <= j < |a| && a[j] == b[0];
      KeyLessTotal(a[0].key, b[0].key);
      assert i == 0;
      forall f ensures f in a[1..] <==> f in b[1..] {
        KeyLessTotal(a[0].key, a[0].key);
        assert f in a <==> f in Elements(a);
        assert f in b <==> f in Elements(b);
        assert a == [a[0]] + a[1..] && b == [b[0]] + b[1..];
        assert a[0] !in a[1..] && b[0] !in b[1..];
      }
      assert Elements(a[1..]) == Elements(b[1..]);
      SortedUnique(a[1..], b[1..]);
      assert a == [a[0]] + a[1..] && b == [b[0]] + b[1..];
    }
  }

  function InsertField(fields: seq<Field>, f: Field): seq<Field> {
    if fields == [] || KeyLess(f.key, fields[0].key) then [f] + fields
    else [fields[0]] + InsertField(fields[1..], f)
  }

  lemma {:induction false} InsertFieldSorted(fields: seq<Field>, f: Field)
    requires Sorted(fields)
    requires forall g <- fields :: g.key != f.key
    ensures Sorted(InsertField(fields, f))
    ensures Elements(InsertField(fields, f)) == Elements(fields) + {f}
  {
    if fields == [] {
    } else if KeyLess(f.key, fields[0].key) {
      forall i | 0 <= i < |fields| ensures KeyLess(f.key, fields[i].key) {
        if i > 0 {
          KeyLessTransitive(f.key, fields[0].key, fields[i].key);
        }
      }
    } else {
      var rest := InsertField(fields[1..], f);
      InsertFieldSorted(fields[1..], f);
      KeyLessTotal(f.key, fields[0].key);
      forall i | 0 <= i < |rest| ensures KeyLess(fields[0].key, rest[i].key) {
        assert rest[i] in Elements(rest);
        assert rest[i] == f || rest[i] in fields[1..];
      }
      assert Elements(fields) == {fields[0]} + Elements(fields[1..]);
      assert Elements([fields[0]] + rest) == {fields[0]} + Elements(rest);
    }
  }

  // ---- the normal form ----

  /** What `normalise` computes: keys in own-property order, `__proto__` dropped. */
  function Normal(v: Js): Json
    decreases v, 0
  {
    match v
    case Null => JNull
    case Undefined => JNull
    case Opaque => JNull
    case Bool(flag) => JBool(flag)
    case Num(n) => JNum(n)
    case BigInt(n) => JStr(Decimal(n))
    case Str(s) => JStr(s)
    case Date(iso) => JStr(iso)
    case Arr(items) => JArr(NormalItems(items))
    case Obj(fields) => JObj(NormalFields(fields))
  }

  function NormalItems(items: seq<Js>): (r: seq<Json>)
    ensures |r| == |items|
    decreases items, 0
  {
    if items == [] then [] else [Normal(items[0])] + NormalItems(items[1..])
  }

  function NormalFields(fields: seq<Property>): seq<Field>
    decreases fields, 0
  {
    if fields == [] then []
    else if fields[0].key == PROTO then NormalFields(fields[1..])
    else InsertField(NormalFields(fields[1..]), Field(fields[0].key, Normal(fields[0].value)))
  }

  lemma {:induction false} NormalItemsAt(items: seq<Js>, i: nat)
    requires i < |items|
    ensures NormalItems(items)[i] == Normal(items[i])
  {
    if i > 0 {
      NormalItemsAt(items[1..], i - 1);
    }
  }

  /** The fields that survive normalisation, as a set. */
  ghost function FieldsOf(fields: seq<Property>): set<Field> {
    set p | p in fields && p.key != PROTO :: Field(p.key, Normal(p.value))
  }

  ghost predicate DistinctKeys(fields: seq<Property>) {
    forall i, j :: 0 <= i < j < |fields| ==> fields[i].key != fields[j].key
  }

  lemma {:induction false} NormalFieldsSorted(fields: seq<Property>)
    requires DistinctKeys(fields)
    ensures Sorted(NormalFields(fields))
    ensures Elements(NormalFields(fields)) == FieldsOf(fields)
  {
    if fields != [] {
      var rest := NormalFields(fields[1..]);
      NormalFieldsSorted(fields[1..]);
      assert fields == [fields[0]] + fields[1..];
      if fields[0].key == PROTO {
        assert FieldsOf(fields) == FieldsOf(fields[1..]);
      } else {
        var f := Field(fields[0].key, Normal(fields[0].value));
        forall g | g in rest ensures g.key != f.key {
          assert g in Elements(rest);
        }
        InsertFieldSorted(rest, f);
        assert FieldsOf(fields) == FieldsOf(fields[1..]) + {f};
      }
    }
  }

  /** The numeral of a natural below 2 to the 32 less one. */
  ghost predicate IsIndexNumeral(key: Text, n: nat) {
    IsNatural(key, n) && n < 0xFFFF_FFFF
  }

  lemma {:induction false} ArrayIndexMeans(key: Text, n: nat)
    ensures IsIndexNumeral(key, n) ==> IsArrayIndex(key) && DigitsValue(key) == n
    ensures IsArrayIndex(key) ==> IsIndexNumeral(key, DigitsValue(key))
  {
    NaturalIsDigits(key, n);
    if IsArrayIndex(key) {
      NaturalIsDigits(key, DigitsValue(key));
    }
  }

  /** The keys of a normal form come as JavaScript lists those of an object: index numerals
      first, by value, and then the others, in code-unit order. */
  lemma {:induction false} KeysInOrder(fields: seq<Property>, i: nat, j: nat, m: nat, n: nat)
    requires DistinctKeys(fields) && i < j < |NormalFields(fields)|
    ensures var before, after := NormalFields(fields)[i].key, NormalFields(fields)[j].key;
      && (IsIndexNumeral(before, m) && IsIndexNumeral(after, n) ==> m < n)
      && (IsIndexNumeral(after, n) ==> exists k: nat :: IsIndexNumeral(before, k))
      && ((forall k: nat :: !IsIndexNumeral(before, k)) ==> TextLess(before, after))
  {
    NormalFieldsSorted(fields);
    ArrayIndexMeans(NormalFields(fields)[i].key, m);
    ArrayIndexMeans(NormalFields(fields)[j].key, n);
    if IsArrayIndex(NormalFields(fields)[j].key) {
      ArrayIndexMeans(NormalFields(fields)[j].key, DigitsValue(NormalFields(fields)[j].key));
    }
  }

  function Canonical(v: Js): Text {
    Stringify(Normal(v))
  }

  // ---- equality of data, defined without any normal form ----

  /** Nothing that JSON could carry: such a value stands for null. */
  predicate Blank(v: Js) { v.Null? || v.Undefined? || v.Opaque? }

  /** What a value that stands for a string says: itself, the ISO text of a date, or the
      decimal numeral of a bigint. */
  predicate Says(v: Js, text: Text) {
    match v
    case Str(s) => text == s
    case Date(iso) => text == iso
    case BigInt(n) => IsNumeral(text, n)
    case _ => false
  }

  /** A decimal numeral: a minus sign if the value is negative, digits without a leading
      zero, and their value. */
  predicate IsNumeral(text: Text, n: int) {
    if n < 0 then text != [] && text[0] == 45 && IsNatural(text[1..], -n) else IsNatural(text, n)
  }

  /** Two scalars are the same data when both are blank, both the same flag or number, or
      both say the same text. */
  ghost predicate SameScalar(a: Js, b: Js) {
    || (Blank(a) && Blank(b))
    || (a.Bool? && b == a)
    || (a.Num? && b == a)
    || exists text :: Says(a, text) && Says(b, text)
  }

  /** `a` and `b` are the same data: scalars as above, arrays item by item, objects as maps
      from keys to data. */
  ghost predicate Same(a: Js, b: Js)
    decreases a, 1
  {
    match a
    case Arr(items) => b.Arr? && SameItems(items, b.items)
    case Obj(fields) => b.Obj? && Covers(fields, b.fields) && CoveredBy(fields, b.fields)
    case _ => SameScalar(a, b)
  }

  ghost predicate SameItems(a: seq<Js>, b: seq<Js>)
    decreases a, 0
  {
    |a| == |b| && forall i :: 0 <= i < |a| ==> Same(a[i], b[i])
  }

  /** Every field of `a` is also in `b`. */
  ghost predicate Covers(a: seq<Property>, b: seq<Property>)
    decreases a, 0
  {
    forall p <- a | p.key != PROTO :: exists q <- b :: q.key == p.key && Same(p.value, q.value)
  }

  /** Every field of `b` is also in `a`. */
  ghost predicate CoveredBy(a: seq<Property>, b: seq<Property>)
    decreases a, 0
  {
    forall q <- b | q.key != PROTO :: exists p <- a :: p.key == q.key && Same(p.value, q.value)
  }

  lemma {:induction false} NumeralIsDecimal(text: Text, n: int)
    ensures IsNumeral(text, n) <==> text == Decimal(n)
  {
    if n < 0 {
      if text != [] {
        NaturalIsDigits(text[1..], -n);
      }
      if text == Decimal(n) {
        HeadTail(45, Digits(-n));
      }
      assert text != [] && text[0] == 45 ==> text == [45] + text[1..];
    } else {
      NaturalIsDigits(text, n);
    }
  }

  /** What a scalar says is the string its normal form is. */
  lemma {:induction false} SaysNormal(v: Js, text: Text)
    ensures Says(v, text) <==> !v.Arr? && !v.Obj? && Normal(v) == JStr(text)
  {
    if v.BigInt? {
      NumeralIsDecimal(text, v.number);
    }
  }

  lemma {:induction false} NormalDecidesScalar(a: Js, b: Js)
    requires !a.Arr? && !a.Obj?
    ensures Normal(a) == Normal(b) <==> SameScalar(a, b)
  {
    forall text ensures Says(a, text) <==> Normal(a) == JStr(text) {
      SaysNormal(a, text);
    }
    forall text ensures Says(b, text) <==> !b.Arr? && !b.Obj? && Normal(b) == JStr(text) {
      SaysNormal(b, text);
    }
    if Normal(a).JStr? && Normal(a) == Normal(b) {
      assert Says(a, Normal(a).text) && Says(b, Normal(a).text);
    }
  }

  /** The normal forms agree exactly when the data do. */
  lemma {:induction false} NormalDecidesSame(a: Js, b: Js)
    requires WellFormed(a) && WellFormed(b)
    ensures Normal(a) == Normal(b) <==> Same(a, b)
    decreases a
  {
    match a
    case Arr(items) =>
      if b.Arr? {
        NormalDecidesItems(items, b.items);
      }
    case Obj(fields) =>
      if b.Obj? {
        NormalDecidesFields(fields, b.fields);
      }
    case _ => NormalDecidesScalar(a, b);
  }

  lemma {:induction false} NormalDecidesItems(a: seq<Js>, b: seq<Js>)
    requires (forall x <- a :: WellFormed(x)) && (forall x <- b :: WellFormed(x))
    ensures NormalItems(a) == NormalItems(b) <==> SameItems(a, b)
    decreases a
  {
    if |a| == |b| {
      forall i | 0 <= i < |a| ensures NormalItems(a)[i] == NormalItems(b)[i] <==> Same(a[i], b[i]) {
        NormalItemsAt(a, i);
        NormalItemsAt(b, i);
        NormalDecidesSame(a[i], b[i]);
      }
    }
  }

  lemma {:induction false} NormalDecidesFields(a: seq<Property>, b: seq<Property>)
    requires DistinctKeys(a) && DistinctKeys(b)
    requires (forall p <- a :: WellFormed(p.value)) && (forall p <- b :: WellFormed(p.value))
    ensures NormalFields(a) == NormalFields(b) <==> Covers(a, b) && CoveredBy(a, b)
    decreases a
  {
    NormalFieldsSorted(a);
    NormalFieldsSorted(b);
    forall p, q | p in a && q in b ensures Normal(p.value) == Normal(q.value) <==> Same(p.value, q.value) {
      NormalDecidesSame(p.value, q.value);
    }
    if FieldsOf(a) == FieldsOf(b) {
      SortedUnique(NormalFields(a), NormalFields(b));
      FieldsCovered(a, b);
    }
    if Covers(a, b) && CoveredBy(a, b) {
      CoveredFields(a, b);
    }
  }

  lemma {:induction false} FieldsCovered(a: seq<Property>, b: seq<Property>)
    requires FieldsOf(a) == FieldsOf(b)
    requires forall p, q :: p in a && q in b && Normal(p.value) == Normal(q.value) ==> Same(p.value, q.value)
    ensures Covers(a, b) && CoveredBy(a, b)
  {
    forall p | p in a && p.key != PROTO
      ensures exists q <- b :: q.key == p.key && Same(p.value, q.value)
    {
      assert Field(p.key, Normal(p.value)) in FieldsOf(b);
    }
    forall q | q in b && q.key != PROTO
      ensures exists p <- a :: p.key == q.key && Same(p.value, q.value)
    {
      assert Field(q.key, Normal(q.value)) in FieldsOf(a);
    }
  }

  lemma {:induction false} FieldsIncluded(a: seq<Property>, b: seq<Property>)
    requires forall p <- a | p.key != PROTO ::
      exists q <- b :: q.key == p.key && Normal(q.value) == Normal(p.value)
    ensures FieldsOf(a) <= FieldsOf(b)
  {
    forall f | f in FieldsOf(a) ensures f in FieldsOf(b) {
      var p :| p in a && p.key != PROTO && f == Field(p.key, Normal(p.value));
      var q :| q in b && q.key == p.key && Normal(q.value) == Normal(p.value);
      InFieldsOf(b, q);
    }
  }

  lemma {:induction false} CoveredFields(a: seq<Property>, b: seq<Property>)
    requires Covers(a, b) && CoveredBy(a, b)
    requires forall p, q :: p in a && q in b && Same(p.value, q.value) ==> Normal(p.value) == Normal(q.value)
    ensures FieldsOf(a) == FieldsOf(b)
  {
    FieldsIncluded(a, b);
    FieldsIncluded(b, a);
  }

  lemma {:induction false} InFieldsOf(fields: seq<Property>, p: Property)
    requires p in fields && p.key != PROTO
    ensures Field(p.key, Normal(p.value)) in FieldsOf(fields)
  {
  }

  /** The main result: equal strings exactly for equal data. */
  lemma {:induction false} CanonicalDecidesSame(a: Js, b: Js)
    requires WellFormed(a) && WellFormed(b)
    ensures Canonical(a) == Canonical(b) <==> Same(a, b)
  {
    StringifyInjective(Normal(a), Normal(b));
    NormalDecidesSame(a, b);
  }

  /** So dates with different ISO texts have different strings, and a date has the string
      of its text. */
  lemma {:induction false} DatesDiffer(iso: Text, iso': Text)
    ensures Canonical(Date(iso)) == Canonical(Date(iso')) <==> iso == iso'
    ensures Canonical(Date(iso)) == Quote(iso)
  {
    CanonicalDecidesSame(Date(iso), Date(iso'));
    assert Says(Date(iso), iso);
  }

  /** Different bigints have different strings, and a bigint that of its numeral. */
  lemma {:induction false} BigintsDiffer(n: int, n': int, text: Text)
    ensures Canonical(BigInt(n)) == Canonical(BigInt(n')) <==> n == n'
    ensures IsNumeral(text, n) ==> Canonical(BigInt(n)) == Quote(text)
  {
    StringifyInjective(Normal(BigInt(n)), Normal(BigInt(n')));
    NumeralIsDecimal(text, n);
    if Decimal(n) == Decimal(n') {
      DecimalUnambiguous(n, n', [], []);
    }
  }

  /** The order in which keys were inserted does not matter. */
  lemma {:induction false} InsertionOrderIrrelevant(a: seq<Property>, b: seq<Property>)
    requires DistinctKeys(a) && DistinctKeys(b)
    requires Elements(a) == Elements(b)
    ensures Canonical(Obj(a)) == Canonical(Obj(b))
  {
    NormalFieldsSorted(a);
    NormalFieldsSorted(b);
    FieldsOfElements(a, b);
    SortedUnique(NormalFields(a), NormalFields(b));
  }

  /** A `__proto__` entry never reaches the string, whatever it holds. */
  lemma {:induction false} ProtoEntryIsLost(fields: seq<Property>, v: Js)
    ensures Canonical(Obj(fields + [Property(Lit("__proto__"), v)])) == Canonical(Obj(fields))
  {
    NormalWithoutProto(fields, v);
  }

  lemma {:induction false} NormalWithoutProto(fields: seq<Property>, v: Js)
    ensures NormalFields(fields + [Property(PROTO, v)]) == NormalFields(fields)
  {
    var more := fields + [Property(PROTO, v)];
    if fields == [] {
      assert more[1..] == [];
    } else {
      assert more[0] == fields[0] && more[1..] == fields[1..] + [Property(PROTO, v)];
      NormalWithoutProto(fields[1..], v);
    }
  }

  // ---- normalising twice ----

  /** A normal form seen again as a JavaScript value. */
  function Embed(v: Json): Js
    decreases v, 0
  {
    match v
    case JNull => Null
    case JBool(flag) => Bool(flag)
    case JNum(n) => Num(n)
    case JStr(s) => Str(s)
    case JArr(items) => Arr(EmbedItems(items))
    case JObj(fields) => Obj(EmbedFields(fields))
  }

  function EmbedItems(items: seq<Json>): (r: seq<Js>)
    decreases items, 0
  {
    if items == [] then [] else [Embed(items[0])] + EmbedItems(items[1..])
  }

  function EmbedFields(fields: seq<Field>): (r: seq<Property>)
    decreases fields, 0
  {
    if fields == [] then []
    else [Property(fields[0].key, Embed(fields[0].value))] + EmbedFields(fields[1..])
  }

  ghost predicate InNormalForm(v: Json)
    decreases v
  {
    match v
    case JArr(items) => forall x <- items :: InNormalForm(x)
    case JObj(fields) =>
      Sorted(fields) && forall f <- fields :: f.key != PROTO && InNormalForm(f.value)
    case _ => true
  }

  lemma {:induction false} NormalIsInNormalForm(v: Js)
    requires WellFormed(v)
    ensures InNormalForm(Normal(v))
    decreases v
  {
    match v
    case Arr(items) =>
      forall i | 0 <= i < |items| ensures InNormalForm(NormalItems(items)[i]) {
        NormalItemsAt(items, i);
        NormalIsInNormalForm(items[i]);
      }
    case Obj(fields) =>
      NormalFieldsSorted(fields);
      forall f | f in NormalFields(fields) ensures f.key != PROTO && InNormalForm(f.value) {
        assert f in FieldsOf(fields);
        var p :| p in fields && p.key != PROTO && f == Field(p.key, Normal(p.value));
        NormalIsInNormalForm(p.value);
      }
    case _ =>
  }

  lemma {:induction false} NormalOfEmbedded(v: Json)
    requires InNormalForm(v)
    ensures Normal(Embed(v)) == v
    decreases v, 1
  {
    match v
    case JArr(items) => NormalOfItems(items);
    case JObj(fields) => NormalOfFields(fields);
    case _ =>
  }

  lemma {:induction false} NormalOfItems(items: seq<Json>)
    requires forall x <- items :: InNormalForm(x)
    ensures NormalItems(EmbedItems(items)) == items
    decreases items, 0
  {
    if items != [] {
      NormalOfEmbedded(items[0]);
      NormalOfItems(items[1..]);
      assert EmbedItems(items)[1..] == EmbedItems(items[1..]);
    }
  }

  lemma {:induction false} NormalOfFields(fields: seq<Field>)
    requires Sorted(fields) && forall f <- fields :: f.key != PROTO && InNormalForm(f.value)
    ensures NormalFields(EmbedFields(fields)) == fields
    decreases fields, 0
  {
    if fields != [] {
      NormalOfEmbedded(fields[0].value);
      NormalOfFields(fields[1..]);
      NormalOfFirst(fields);
    }
  }

  lemma {:induction false} NormalOfFirst(fields: seq<Field>)
    requires fields != [] && fields[0].key != PROTO && Sorted(fields)
    requires Normal(Embed(fields[0].value)) == fields[0].value
    requires NormalFields(EmbedFields(fields[1..])) == fields[1..]
    ensures NormalFields(EmbedFields(fields)) == fields
  {
    var f, rest := fields[0], fields[1..];
    var p := Property(f.key, Embed(f.value));
    HeadTail(p, EmbedFields(rest));
    assert EmbedFields(fields) == [p] + EmbedFields(rest);
    assert NormalFields([p] + EmbedFields(rest)) == InsertField(rest, f);
    assert rest == [] || KeyLess(f.key, rest[0].key);
    assert InsertField(rest, f) == [f] + rest;
  }

  lemma {:induction false} NormaliseTwice(v: Js)
    requires WellFormed(v)
    ensures Normal(Embed(Normal(v))) == Normal(v)
  {
    NormalIsInNormalForm(v);
    NormalOfEmbedded(Normal(v));
  }

  // ---- the loop of `normalise` ----

  /** `Object.keys(record).sort()`, with the value each key leads to. */
  function SortKeys(fields: seq<Property>): seq<Property> {
    if fields == [] then [] else PlaceKey(SortKeys(fields[1..]), fields[0])
  }

  function PlaceKey(sorted: seq<Property>, p: Property): seq<Property> {
    if sorted == [] || TextLess(p.key, sorted[0].key) then [p] + sorted
    else [sorted[0]] + PlaceKey(sorted[1..], p)
  }

  ghost predicate KeysAscend(fields: seq<Property>) {
    forall i, j :: 0 <= i < j < |fields| ==> TextLess(fields[i].key, fields[j].key)
  }

  lemma {:induction false} PlaceKeyAscends(sorted: seq<Property>, p: Property)
    requires KeysAscend(sorted) && forall q <- sorted :: q.key != p.key
    ensures KeysAscend(PlaceKey(sorted, p))
    ensures Elements(PlaceKey(sorted, p)) == Elements(sorted) + {p}
  {
    if sorted == [] {
    } else if TextLess(p.key, sorted[0].key) {
      forall i | 0 <= i < |sorted| ensures TextLess(p.key, sorted[i].key) {
        if i > 0 {
          TextLessTransitive(p.key, sorted[0].key, sorted[i].key);
        }
      }
    } else {
      var rest := PlaceKey(sorted[1..], p);
      PlaceKeyAscends(sorted[1..], p);
      TextLessTotal(p.key, sorted[0].key);
      forall i | 0 <= i < |rest| ensures TextLess(sorted[0].key, rest[i].key) {
        assert rest[i] in Elements(rest);
        assert rest[i] == p || rest[i] in sorted[1..];
      }
      assert Elements(sorted) == {sorted[0]} + Elements(sorted[1..]);
      assert Elements([sorted[0]] + rest) == {sorted[0]} + Elements(rest);
    }
  }

  lemma {:induction false} SortKeysAscends(fields: seq<Property>)
    requires DistinctKeys(fields)
    ensures KeysAscend(SortKeys(fields))
    ensures Elements(SortKeys(fields)) == Elements(fields)
  {
    if fields != [] {
      var rest := SortKeys(fields[1..]);
      SortKeysAscends(fields[1..]);
      forall q | q in rest ensures q.key != fields[0].key {
        assert q in Elements(rest);
        assert q in fields[1..];
      }
      PlaceKeyAscends(rest, fields[0]);
      assert Elements(fields) == Elements(fields[1..]) + {fields[0]};
    }
  }

  /** `out[key] = value` on an ordinary object, for a key it does not have yet. */
  function PutProperty(out: seq<Field>, f: Field): seq<Field> {
    if f.key == PROTO then out
    else if IsArrayIndex(f.key) then PutIndex(out, f)
    else out + [f]
  }

  function PutIndex(out: seq<Field>, f: Field): seq<Field>
    requires IsArrayIndex(f.key)
  {
    if out == [] || !IsArrayIndex(out[0].key) || DigitsValue(f.key) < DigitsValue(out[0].key) then [f] + out
    else [out[0]] + PutIndex(out[1..], f)
  }

  lemma {:induction false} PutIndexInserts(out: seq<Field>, f: Field)
    requires IsArrayIndex(f.key)
    ensures PutIndex(out, f) == InsertField(out, f)
  {
    if out != [] {
      PutIndexInserts(out[1..], f);
    }
  }

  /** Writing keys in code-unit order keeps the object's own-property order sorted. */
  lemma {:induction false} PutPropertySorted(out: seq<Field>, f: Field)
    requires Sorted(out)
    requires forall g <- out :: TextLess(g.key, f.key)
    ensures Sorted(PutProperty(out, f))
    ensures Elements(PutProperty(out, f)) == Elements(out) + (if f.key == PROTO then {} else {f})
  {
    TextLessTotal(f.key, f.key);
    if f.key == PROTO {
      assert Elements(out) + {} == Elements(out);
    } else if IsArrayIndex(f.key) {
      PutIndexInserts(out, f);
      InsertFieldSorted(out, f);
    } else {
      assert Elements(out + [f]) == Elements(out) + {f};
    }
  }

  lemma {:induction false} FieldsOfElements(a: seq<Property>, b: seq<Property>)
    requires Elements(a) == Elements(b)
    ensures FieldsOf(a) == FieldsOf(b)
  {
    assert forall p :: p in a <==> p in Elements(a);
    assert forall p :: p in b <==> p in Elements(b);
  }

  lemma {:induction false} FieldsOfNext(fields: seq<Property>, i: nat)
    requires i < |fields|
    ensures FieldsOf(fields[..i + 1]) == FieldsOf(fields[..i])
              + (if fields[i].key == PROTO then {} else {Field(fields[i].key, Normal(fields[i].value))})
  {
    assert fields[..i + 1] == fields[..i] + [fields[i]];
  }

  method Normalise(v: Js) returns (r: Json)
    requires WellFormed(v)
    ensures r == Normal(v)
    decreases v, 1
  {
    match v
    case Null => r := JNull;
    case Undefined => r := JNull;
    case BigInt(n) => r := JStr(Decimal(n));
    case Num(n) => r := JNum(n);
    case Bool(flag) => r := JBool(flag);
    case Str(s) => r := JStr(s);
    case Date(iso) => r := JStr(iso);
    case Opaque => r := JNull;
    case Arr(items) =>
      var mapped := NormaliseArray(items);
      r := JArr(mapped);
    case Obj(fields) =>
      var out := NormaliseObject(fields);
      r := JObj(out);
  }

  method NormaliseArray(items: seq<Js>) returns (mapped: seq<Json>)
    requires forall x <- items :: WellFormed(x)
    ensures mapped == NormalItems(items)
    decreases items, 0
  {
    mapped := [];
    for i := 0 to |items|
      invariant |mapped| == i
      invariant forall j :: 0 <= j < i ==> mapped[j] == Normal(items[j])
    {
      var x := Normalise(items[i]);
      mapped := mapped + [x];
    }
    forall i | 0 <= i < |items| ensures NormalItems(items)[i] == mapped[i] {
      NormalItemsAt(items, i);
    }
  }

  method NormaliseObject(fields: seq<Property>) returns (out: seq<Field>)
    requires DistinctKeys(fields) && forall p <- fields :: WellFormed(p.value)
    ensures out == NormalFields(fields)
    decreases fields, 0
  {
    SortKeysAscends(fields);
    var sorted := SortKeys(fields);
    out := [];
    for i := 0 to |sorted|
      invariant Sorted(out)
      invariant Elements(out) == FieldsOf(sorted[..i])
    {
      var p := sorted[i];
      assert p in Elements(fields);
      var value := Normalise(p.value);
      forall g | g in out ensures TextLess(g.key, p.key) {
        assert g in FieldsOf(sorted[..i]);
      }
      PutPropertySorted(out, Field(p.key, value));
      FieldsOfNext(sorted, i);
      out := PutProperty(out, Field(p.key, value));
    }
    assert sorted[..|sorted|] == sorted;
    FieldsOfElements(sorted, fields);
    NormalFieldsSorted(fields);
    SortedUnique(out, NormalFields(fields));
  }

  /** `canonicalJson` itself. */
  method CanonicalJsonOf(v: Js) returns (text: Text)
    requires WellFormed(v)
    ensures text == Canonical(v)
  {
    var n := Normalise(v);
    text := Stringify(n);
  }
}
