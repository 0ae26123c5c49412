/**
 Audit drafts and entries, and `computeHash`: a digest of the canonical JSON of the
 hashed record. The digest and the ISO rendering of instants are parameters; when
 they have no collisions, equal hashes mean equal records.
 */
module AuditHash {
  import opened Prelude
  import opened Utf16
  import opened JsonText
  import opened CanonicalJson

  /** A draft as the ingest worker holds it; instants are milliseconds. */
  datatype Draft = Draft(
    scope: Text,
    guildId: Option<Text>,
    action: Text,
    source: Text,
    actorId: Option<Text>,
    actorType: Text,
    targetType: Option<Text>,
    targetId: Option<Text>,
    channelId: Option<Text>,
    correlationId: Text,
    causationId: Option<Text>,
    summary: Text,
    metadata: Js,
    before: Js,
    after: Js,
    occurredAt: int)

  datatype Entry = Entry(
    id: Text,
    draft: Draft,
    seqNo: int,
    previousHash: Option<Text>,
    hash: Text,
    createdAt: int)

  /** `computeHash` for a fixed algorithm, as the chain code uses it. */
  type Hasher = (Draft, int, Option<Text>) -> Text

  // ---- what the hash covers ----

  function OptionalText(t: Option<Text>): Js {
    if t.None? then Null else Str(t.value)
  }

  /** The digest (with its algorithm fixed) and the ISO rendering of instants. */
  datatype Hashing = Hashing(digest: Text -> Text, iso: int -> Text)

  ghost predicate CollisionFree(c: Hashing) {
    && (forall s, t :: c.digest(s) == c.digest(t) ==> s == t)
    && (forall m, n :: c.iso(m) == c.iso(n) ==> m == n)
  }

  /** The keys of the record `computeHash` serialises, and the values beside them. */
  function HashedKeys(): seq<Text> {
    [ Lit("scope"), Lit("guildId"), Lit("seq"), Lit("action"),
      Lit("source"), Lit("actorId"), Lit("actorType"), Lit("targetType"),
      Lit("targetId"), Lit("channelId"), Lit("correlationId"), Lit("causationId"),
      Lit("summary"), Lit("metadata"), Lit("before"), Lit("after"),
      Lit("occurredAt"), Lit("previousHash") ]
  }

  function HashedValues(c: Hashing, d: Draft, seqNo: int, previousHash: Option<Text>): seq<Js> {
    [ Str(d.scope), OptionalText(d.guildId), Str(Decimal(seqNo)), Str(d.action),
      Str(d.source), OptionalText(d.actorId), Str(d.actorType), OptionalText(d.targetType),
      OptionalText(d.targetId), OptionalText(d.channelId), Str(d.correlationId), OptionalText(d.causationId),
      Str(d.summary), d.metadata, d.before, d.after,
      Str(c.iso(d.occurredAt)), OptionalText(previousHash) ]
  }

  function Zip(keys: seq<Text>, values: seq<Js>): (r: seq<Property>)
    requires |keys| == |values|
    ensures |r| == |keys|
    ensures forall i :: 0 <= i < |keys| ==> r[i] == Property(keys[i], values[i])
  {
    seq(|keys|, i requires 0 <= i < |keys| => Property(keys[i], values[i]))
  }

  function Content(c: Hashing, d: Draft, seqNo: int, previousHash: Option<Text>): Js {
    Obj(Zip(HashedKeys(), HashedValues(c, d, seqNo, previousHash)))
  }

  function ComputeHash(c: Hashing, d: Draft, seqNo: int, previousHash: Option<Text>): Text {
    c.digest(Canonical(Content(c, d, seqNo, previousHash)))
  }

  /** `a` and `b` agree in every field the hash covers. */
  ghost predicate SameRecord(a: Draft, b: Draft) {
    && a.scope == b.scope && a.guildId == b.guildId
    && a.action == b.action && a.source == b.source
    && a.actorId == b.actorId && a.actorType == b.actorType
    && a.targetType == b.targetType && a.targetId == b.targetId
    && a.channelId == b.channelId
    && a.correlationId == b.correlationId && a.causationId == b.causationId
    && a.summary == b.summary
    && Same(a.metadata, b.metadata) && Same(a.before, b.before) && Same(a.after, b.after)
    && a.occurredAt == b.occurredAt
  }

  ghost predicate WellFormedDraft(d: Draft) {
    WellFormed(d.metadata) && WellFormed(d.before) && WellFormed(d.after)
  }

  /** The length and first letter of a key: enough to tell the hashed keys apart. */
  function KeyCode(key: Text): int
    requires key != []
  {
    1000 * |key| + key[0]
  }

  const KEY_CODES: seq<int> := [
    5115, 7103, 3115, 6097, 6115, 7097, 9097, 10116, 8116,
    9099, 13099, 11099, 7115, 8109, 6098, 5097, 10111, 12112]

  /** Where a key code stands in the list. */
  function KeyPosition(code: int): int {
    if code == 5115 then 0
    else if code == 7103 then 1
    else if code == 3115 then 2
    else if code == 6097 then 3
    else if code == 6115 then 4
    else if code == 7097 then 5
    else if code == 9097 then 6
    else if code == 10116 then 7
    else if code == 8116 then 8
    else if code == 9099 then 9
    else if code == 13099 then 10
    else if code == 11099 then 11
    else if code == 7115 then 12
    else if code == 8109 then 13
    else if code == 6098 then 14
    else if code == 5097 then 15
    else if code == 10111 then 16
    else if code == 12112 then 17
    else -1
  }

  lemma {:induction false} KeyCodesDistinct()
    ensures Distinct(KEY_CODES)
  {
    assert forall i :: 0 <= i < |KEY_CODES| ==> KeyPosition(KEY_CODES[i]) == i;
  }

  lemma {:induction false} HashedKeyCodes()
    ensures |HashedKeys()| == |KEY_CODES|
    ensures forall i :: 0 <= i < |KEY_CODES| ==> HashedKeys()[i] != [] && KeyCode(HashedKeys()[i]) == KEY_CODES[i]
  {
  }

  ghost predicate GoodKeys(keys: seq<Text>) {
    Distinct(keys) && PROTO !in keys
  }

  lemma {:induction false} GoodByCode(keys: seq<Text>, codes: seq<int>)
    requires |keys| == |codes| && Distinct(codes) && KeyCode(PROTO) !in codes
    requires forall i :: 0 <= i < |keys| ==> keys[i] != [] && KeyCode(keys[i]) == codes[i]
    ensures GoodKeys(keys)
  {
  }

  lemma {:induction false} HashedKeysGood()
    ensures GoodKeys(HashedKeys())
  {
    HashedKeyCodes();
    KeyCodesDistinct();
    GoodByCode(HashedKeys(), KEY_CODES);
  }

  lemma {:induction false} ZipWellFormed(keys: seq<Text>, values: seq<Js>)
    requires |keys| == |values| && GoodKeys(keys)
    requires forall v <- values :: WellFormed(v)
    ensures WellFormed(Obj(Zip(keys, values)))
  {
  }

  /** Objects with one list of keys are the same data only if their values are. */
  lemma {:induction false} SameValuesAt(a: seq<Property>, b: seq<Property>, i: nat)
    requires |a| == |b| && i < |a| && DistinctKeys(b)
    requires a[i].key == b[i].key && a[i].key != PROTO
    requires Covers(a, b)
    ensures Same(a[i].value, b[i].value)
  {
    var p := a[i];
    assert p in a;
    var q :| q in b && q.key == p.key && Same(p.value, q.value);
    var j :| 0 <= j < |b| && b[j] == q;
    assert j == i;
  }

  lemma {:induction false} HashDeterminesValues(c: Hashing, keys: seq<Text>, a: seq<Js>, b: seq<Js>)
    requires |keys| == |a| == |b| && GoodKeys(keys) && CollisionFree(c)
    requires (forall v <- a :: WellFormed(v)) && forall v <- b :: WellFormed(v)
    requires c.digest(Canonical(Obj(Zip(keys, a)))) == c.digest(Canonical(Obj(Zip(keys, b))))
    ensures forall i :: 0 <= i < |keys| ==> Same(a[i], b[i])
  {
    ZipWellFormed(keys, a);
    ZipWellFormed(keys, b);
    CanonicalDecidesSame(Obj(Zip(keys, a)), Obj(Zip(keys, b)));
    forall i | 0 <= i < |keys| ensures Same(a[i], b[i]) {
      assert keys[i] in keys;
      SameValuesAt(Zip(keys, a), Zip(keys, b), i);
    }
  }

  lemma {:induction false} SameScalars(x: Js, y: Js)
    requires Same(x, y) && (x.Str? || x.Null?) && (y.Str? || y.Null?)
    ensures x == y
  {
  }

  lemma {:induction false} HashedValuesWellFormed(c: Hashing, d: Draft, n: int, p: Option<Text>, values: seq<Js>)
    requires WellFormedDraft(d) && values == HashedValues(c, d, n, p)
    ensures forall v <- values :: WellFormed(v)
  {
    assert forall i :: 0 <= i < 18 ==> WellFormed(values[i]);
  }

  predicate Scalar(v: Js) { v.Str? || v.Null? }

  lemma {:induction false} SameValuesEqual(a: seq<Js>, b: seq<Js>)
    requires |a| == |b| && forall i :: 0 <= i < |a| ==> Same(a[i], b[i])
    ensures forall i :: 0 <= i < |a| && Scalar(a[i]) && Scalar(b[i]) ==> a[i] == b[i]
  {
    forall i | 0 <= i < |a| && Scalar(a[i]) && Scalar(b[i]) ensures a[i] == b[i] {
      SameScalars(a[i], b[i]);
    }
  }

  /** Equal values at the scalar positions are equal fields. */
  lemma {:induction false} ScalarsDetermineOrigin(
      c: Hashing, d: Draft, n: int, p: Option<Text>, d': Draft, n': int, p': Option<Text>, a: seq<Js>, b: seq<Js>)
    requires a == HashedValues(c, d, n, p) && b == HashedValues(c, d', n', p')
    requires forall i :: 0 <= i < 13 || 16 <= i < 18 ==> a[i] == b[i]
    ensures d.scope == d'.scope && d.guildId == d'.guildId && Decimal(n) == Decimal(n')
    ensures d.action == d'.action && d.source == d'.source
    ensures d.actorId == d'.actorId && d.actorType == d'.actorType
  {
    assert a[0] == b[0] && a[1] == b[1] && a[2] == b[2] && a[3] == b[3] && a[4] == b[4];
    assert a[5] == b[5] && a[6] == b[6];
  }

  lemma {:induction false} ScalarsDetermineSubject(
      c: Hashing, d: Draft, n: int, p: Option<Text>, d': Draft, n': int, p': Option<Text>, a: seq<Js>, b: seq<Js>)
    requires a == HashedValues(c, d, n, p) && b == HashedValues(c, d', n', p')
    requires forall i :: 0 <= i < 13 || 16 <= i < 18 ==> a[i] == b[i]
    ensures d.targetType == d'.targetType && d.targetId == d'.targetId && d.channelId == d'.channelId
    ensures d.correlationId == d'.correlationId && d.causationId == d'.causationId
    ensures d.summary == d'.summary && c.iso(d.occurredAt) == c.iso(d'.occurredAt) && p == p'
  {
    assert a[7] == b[7] && a[8] == b[8] && a[9] == b[9] && a[10] == b[10] && a[11] == b[11];
    assert a[12] == b[12] && a[16] == b[16] && a[17] == b[17];
  }

  lemma {:induction false} ScalarPositions(c: Hashing, d: Draft, n: int, p: Option<Text>, a: seq<Js>)
    requires a == HashedValues(c, d, n, p)
    ensures |a| == 18 && forall i :: 0 <= i < 13 || 16 <= i < 18 ==> Scalar(a[i])
    ensures a[13] == d.metadata && a[14] == d.before && a[15] == d.after
  {
  }

  lemma {:induction false} ValuesDetermineRecord(
      c: Hashing, d: Draft, n: int, p: Option<Text>, d': Draft, n': int, p': Option<Text>, a: seq<Js>, b: seq<Js>)
    requires CollisionFree(c)
    requires a == HashedValues(c, d, n, p) && b == HashedValues(c, d', n', p')
    requires |a| == |b| && forall i :: 0 <= i < |a| ==> Same(a[i], b[i])
    ensures SameRecord(d, d') && n == n' && p == p'
  {
    ScalarPositions(c, d, n, p, a);
    ScalarPositions(c, d', n', p', b);
    SameValuesEqual(a, b);
    ScalarsDetermineOrigin(c, d, n, p, d', n', p', a, b);
    ScalarsDetermineSubject(c, d, n, p, d', n', p', a, b);
    assert Same(a[13], b[13]) && Same(a[14], b[14]) && Same(a[15], b[15]);
    assert Decimal(n) + [] == Decimal(n) && Decimal(n') + [] == Decimal(n');
    DecimalUnambiguous(n, n', [], []);
  }

  /** With a collision-free hash, equal hashes mean equal records. */
  lemma {:induction false} HashDeterminesRecord(
      c: Hashing, d: Draft, n: int, p: Option<Text>, d': Draft, n': int, p': Option<Text>)
    requires CollisionFree(c)
    requires WellFormedDraft(d) && WellFormedDraft(d')
    requires ComputeHash(c, d, n, p) == ComputeHash(c, d', n', p')
    ensures SameRecord(d, d') && n == n' && p == p'
  {
    var a, b := HashedValues(c, d, n, p), HashedValues(c, d', n', p');
    HashedKeysGood();
    HashedValuesWellFormed(c, d, n, p, a);
    HashedValuesWellFormed(c, d', n', p', b);
    HashDeterminesValues(c, HashedKeys(), a, b);
    ValuesDetermineRecord(c, d, n, p, d', n', p', a, b);
  }

  /** Normal forms of objects with one list of good keys agree only value by value. */
  lemma {:induction false} NormalValuesAt(keys: seq<Text>, a: seq<Js>, b: seq<Js>, i: nat)
    requires |keys| == |a| == |b| && i < |keys| && GoodKeys(keys)
    requires NormalFields(Zip(keys, a)) == NormalFields(Zip(keys, b))
    ensures Normal(a[i]) == Normal(b[i])
  {
    var p, q := Zip(keys, a), Zip(keys, b);
    NormalFieldsSorted(p);
    NormalFieldsSorted(q);
    assert keys[i] in keys && p[i] in p;
    assert Field(keys[i], Normal(a[i])) in FieldsOf(p);
    var r :| r in q && r.key == keys[i] && Normal(r.value) == Normal(a[i]);
    var j :| 0 <= j < |q| && q[j] == r;
    assert keys[j] == keys[i];
  }

  /** Even for drafts whose payload is arbitrary, the hash commits to the seq. */
  lemma {:induction false} HashDeterminesSeq(
      c: Hashing, d: Draft, n: int, p: Option<Text>, d': Draft, n': int, p': Option<Text>)
    requires CollisionFree(c) && ComputeHash(c, d, n, p) == ComputeHash(c, d', n', p')
    ensures n == n'
  {
    var keys, a, b := HashedKeys(), HashedValues(c, d, n, p), HashedValues(c, d', n', p');
    HashedKeysGood();
    StringifyInjective(Normal(Obj(Zip(keys, a))), Normal(Obj(Zip(keys, b))));
    NormalValuesAt(keys, a, b, 2);
    SeqValue(c, d, n, p);
    SeqValue(c, d', n', p');
    assert Decimal(n) + [] == Decimal(n) && Decimal(n') + [] == Decimal(n');
    DecimalUnambiguous(n, n', [], []);
  }

  lemma {:induction false} SeqValue(c: Hashing, d: Draft, n: int, p: Option<Text>)
    ensures HashedValues(c, d, n, p)[2] == Str(Decimal(n))
  {
  }

  /** `computeHash` with its parameters fixed. */
  function HasherOf(c: Hashing): Hasher {
    (d: Draft, n: int, p: Option<Text>) => ComputeHash(c, d, n, p)
  }

  /** A hash of acceptable drafts that commits to the record (up to `same`), its seq
      and its previous hash. */
  ghost predicate Binding(h: Hasher, acceptable: Draft -> bool, same: (Draft, Draft) -> bool) {
    forall d, n, p, d', n', p' {:trigger h(d, n, p), h(d', n', p')} ::
      acceptable(d) && acceptable(d') && h(d, n, p) == h(d', n', p')
      ==> same(d, d') && n == n' && p == p'
  }

  lemma {:induction false} ComputeHashIsBinding(c: Hashing)
    requires CollisionFree(c)
    ensures Binding(HasherOf(c), (d: Draft) => WellFormedDraft(d), (d: Draft, d': Draft) => SameRecord(d, d'))
  {
    forall d, n, p, d', n', p' | WellFormedDraft(d) && WellFormedDraft(d')
        && ComputeHash(c, d, n, p) == ComputeHash(c, d', n', p')
      ensures SameRecord(d, d') && n == n' && p == p'
    {
      HashDeterminesRecord(c, d, n, p, d', n', p');
    }
  }
}
