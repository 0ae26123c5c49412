/**
 Permission claims: dot-separated names, the last possibly the wildcard `*`. The lemmas say
 what the tests on the text mean for the segments, and that specificity settles every
 conflict but one.
 */
module Claims {
  import opened Prelude

  // ---- reading a claim ----

  predicate Alnum(c: char) { 'a' <= c <= 'z' || '0' <= c <= '9' }

  /** The white space `trim` removes: white space and line terminators of ECMAScript. */
  predicate Space(c: char) {
    || '\t' <= c <= '\r' || c == ' ' || c == '\U{A0}' || c == '\U{1680}' || '\U{2000}' <= c <= '\U{200A}'
    || c == '\U{2028}' || c == '\U{2029}' || c == '\U{202F}' || c == '\U{205F}' || c == '\U{3000}' || c == '\U{FEFF}'
  }

  function TrimStart(s: string): string {
    if s != "" && Space(s[0]) then TrimStart(s[1..]) else s
  }

  function TrimEnd(s: string): string {
    if s != "" && Space(s[|s| - 1]) then TrimEnd(s[..|s| - 1]) else s
  }

  /** Lower case, for the characters whose lower case is a letter `a` to `z`: the Kelvin
      sign is the only one outside ASCII. Any other letter cannot be in a claim in
      either case, so it is left alone. */
  function Lower(s: string): (r: string)
    ensures |r| == |s|
  {
    seq(|s|, i requires 0 <= i < |s| => if 'A' <= s[i] <= 'Z' then s[i] + ' ' else if s[i] == '\U{212A}' then 'k' else s[i])
  }

  /** The pattern, from within a name: `[a-z0-9]*(\.[a-z0-9]+)*(\.\*)?`. */
  predicate InName(v: string) {
    if v == "" then true
    else if v[0] == '.' then v[1..] == "*" || (|v| > 1 && Alnum(v[1]) && InName(v[2..]))
    else Alnum(v[0]) && InName(v[1..])
  }

  predicate Matches(v: string) {
    v == "*" || (v != "" && Alnum(v[0]) && InName(v[1..]))
  }

  datatype ClaimError = InvalidClaim(raw: string)

  function Parse(raw: string): Result<string, ClaimError> {
    var v := Lower(TrimEnd(TrimStart(raw)));
    if Matches(v) then Ok(v) else Err(InvalidClaim(raw))
  }

  // ---- the two operations, on the text ----

  predicate EndsInWildcard(v: string) {
    |v| >= 2 && v[|v| - 2..] == ".*"
  }

  predicate Covers(held: string, required: string) {
    || held == "*"
    || held == required
    || (EndsInWildcard(held) && held[..|held| - 1] <= required)
  }

  function Specificity(v: string): real {
    if v == "*" then 0.0
    else
      var depth := |Split(v)| as real;
      if EndsInWildcard(v) then depth - 1.0 + 0.5 else depth
  }

  // ---- segments ----

  function Split(v: string): (r: seq<string>)
    ensures r != []
  {
    if v == "" then [""]
    else if v[0] == '.' then [""] + Split(v[1..])
    else
      var rest := Split(v[1..]);
      [[v[0]] + rest[0]] + rest[1..]
  }

  predicate Name(s: string) {
    s != "" && forall i :: 0 <= i < |s| ==> Alnum(s[i])
  }

  /** Names, with a wildcard allowed in last place. */
  ghost predicate Wellformed(segments: seq<string>) {
    forall i :: 0 <= i < |segments| ==> Name(segments[i]) || (i == |segments| - 1 && segments[i] == "*")
  }

  /** Segment-wise covering: the same, or a wildcard after a proper prefix. */
  ghost predicate SegmentsCover(held: seq<string>, required: seq<string>) {
    || held == required
    || (held != [] && held[|held| - 1] == "*" && held[..|held| - 1] < required)
  }

  lemma {:induction false} SplitCons(c: char, v: string)
    ensures c == '.' ==> Split([c] + v) == [""] + Split(v)
    ensures c != '.' ==> Split([c] + v) == [[c] + Split(v)[0]] + Split(v)[1..]
  {
    HeadTail(c, v);
  }

  lemma {:induction false} SplitEmpty(v: string)
    ensures v == "" <==> Split(v) == [""]
  {
    if v != "" && v[0] != '.' {
      assert Split(v)[0][0] == v[0];
    }
  }

  lemma {:induction false} SplitInjective(a: string, b: string)
    requires Split(a) == Split(b)
    ensures a == b
    decreases |a|
  {
    SplitEmpty(a);
    SplitEmpty(b);
    if a != "" && b != "" {
      SplitHead(a);
      SplitHead(b);
      SplitInjective(a[1..], b[1..]);
      ConsEqual(a, b);
    }
  }

  /** The first character and the segments of the rest can be read off the segments. */
  lemma {:induction false} SplitHead(v: string)
    requires v != ""
    ensures v[0] == '.' <==> Split(v)[0] == ""
    ensures v[0] == '.' ==> Split(v[1..]) == Split(v)[1..]
    ensures v[0] != '.' ==> v[0] == Split(v)[0][0] && Split(v[1..]) == [Split(v)[0][1..]] + Split(v)[1..]
  {
    var rest := Split(v[1..]);
    if v[0] != '.' {
      HeadTail(v[0], rest[0]);
      HeadTail([v[0]] + rest[0], rest[1..]);
      assert [rest[0]] + rest[1..] == rest;
    }
  }

  lemma {:induction false} SplitStar()
    ensures Split("*") == ["*"]
  {
    SplitCons('*', "");
    assert ['*'] + "" == "*";
  }

  lemma {:induction false} SplitSame(a: string, b: string)
    ensures Split(a) == Split(b) ==> a == b
  {
    if Split(a) == Split(b) {
      SplitInjective(a, b);
    }
  }

  lemma {:induction false} LastDecides<T>(s: seq<T>, t: seq<T>)
    requires |s| == |t| > 0
    ensures var n := |s| - 1; s[n] == t[n] && s[..n] <= t && t[..n] <= s ==> s == t
  {
    var n := |s| - 1;
    assert s == s[..n] + [s[n]] && t == t[..n] + [t[n]];
  }

  /** Text that ends in a dot is a prefix of a text exactly when its segments, without the
      empty last one, are a proper prefix of the segments of the text. */
  lemma {:induction false} DottedPrefix(p: string, r: string)
    ensures p + "." <= r <==> Split(p) < Split(r)
  {
    if p == "" {
      if r != "" && r[0] != '.' {
        assert Split(r)[0] == [r[0]] + Split(r[1..])[0];
      }
    } else if r == "" {
      assert |Split(r)| == 1;
    } else {
      var q, t := p[1..], r[1..];
      DottedPrefix(q, t);
      assert p + "." == [p[0]] + (q + ".");
      assert p + "." <= r <==> p[0] == r[0] && q + "." <= t by {
        assert r == [r[0]] + t;
        if p[0] == r[0] && q + "." <= t {
          assert (p + ".") == r[..|p| + 1] by { assert t[..|q| + 1] == q + "."; }
        }
        if p + "." <= r {
          assert q + "." == t[..|q| + 1];
        }
      }
      SplitFirst(p, r);
    }
  }

  /** The first characters decide, or the rests do. */
  lemma {:induction false} SplitFirst(p: string, r: string)
    requires p != "" && r != ""
    ensures Split(p) < Split(r) <==> p[0] == r[0] && Split(p[1..]) < Split(r[1..])
  {
    var s, t := Split(p[1..]), Split(r[1..]);
    if p[0] != r[0] {
      assert Split(p)[0] != Split(r)[0] by {
        assert p[0] != '.' ==> Split(p)[0][0] == p[0];
        assert r[0] != '.' ==> Split(r)[0][0] == r[0];
      }
    } else if p[0] == '.' {
      PrefixCons("", s, "", t);
    } else {
      HeadTail(p[0], s[0]);
      HeadTail(p[0], t[0]);
      assert [s[0]] + s[1..] == s && [t[0]] + t[1..] == t;
      PrefixCons(s[0], s[1..], t[0], t[1..]);
      PrefixCons([p[0]] + s[0], s[1..], [p[0]] + t[0], t[1..]);
    }
  }

  lemma {:induction false} PrefixCons<T>(a: T, s: seq<T>, b: T, t: seq<T>)
    ensures [a] + s < [b] + t <==> a == b && s < t
  {
    if [a] + s < [b] + t {
      assert ([a] + s)[0] == ([b] + t)[0];
      assert forall i :: 0 <= i < |s| ==> s[i] == ([a] + s)[i + 1] && t[i] == ([b] + t)[i + 1];
    }
  }

  lemma {:induction false} AppendHead<T>(s: seq<T>, t: seq<T>)
    requires s != []
    ensures (s + t)[0] == s[0] && (s + t)[1..] == s[1..] + t && s + t == [s[0]] + (s[1..] + t)
  {
  }

  lemma {:induction false} SplitJoin(p: string, q: string)
    ensures Split(p + ("." + q)) == Split(p) + Split(q)
  {
    var dq := "." + q;
    if p == "" {
      SplitCons('.', q);
      assert p + dq == dq;
    } else {
      var s, t := Split(p[1..]), Split(q);
      SplitJoin(p[1..], q);
      AppendHead(p, dq);
      SplitCons(p[0], p[1..] + dq);
      AppendHead(s, t);
      Regroup3([[p[0]] + s[0]], s[1..], t);
      Regroup3([""], s, t);
    }
  }

  /** A text ends in `.*` exactly when it has several segments and the last is `*`. */
  lemma {:induction false} WildcardIsLastSegment(v: string)
    ensures EndsInWildcard(v) <==> |Split(v)| > 1 && Split(v)[|Split(v)| - 1] == "*"
    ensures EndsInWildcard(v) ==> Split(v[..|v| - 2]) == Split(v)[..|Split(v)| - 1]
  {
    SplitStar();
    if EndsInWildcard(v) {
      var p := v[..|v| - 2];
      assert v == p + ("." + "*");
      SplitJoin(p, "*");
    } else if |Split(v)| > 1 && Split(v)[|Split(v)| - 1] == "*" {
      LastSegment(v);
    }
  }

  lemma {:induction false} LastSegment(v: string)
    requires |Split(v)| > 1 && Split(v)[|Split(v)| - 1] == "*"
    ensures EndsInWildcard(v)
  {
    var s := Split(v[1..]);
    if v[0] == '.' {
      if |s| == 1 {
        SplitStar();
        SplitInjective(v[1..], "*");
        assert v == ".*";
      } else {
        LastSegment(v[1..]);
        assert v[|v| - 2..] == v[1..][|v| - 3..];
      }
    } else {
      LastSegment(v[1..]);
      assert v[|v| - 2..] == v[1..][|v| - 3..];
    }
  }

  lemma {:induction false} OnlyStarSplitsToStar(v: string)
    ensures v == "*" <==> Split(v) == ["*"]
  {
    SplitStar();
    if Split(v) == ["*"] {
      SplitInjective(v, "*");
    }
  }

  /** The test on the text is segment-wise covering. */
  lemma {:induction false} CoversIsBySegments(held: string, required: string)
    ensures Covers(held, required) <==> SegmentsCover(Split(held), Split(required))
  {
    var h, r := Split(held), Split(required);
    WildcardIsLastSegment(held);
    OnlyStarSplitsToStar(held);
    if h == r {
      SplitInjective(held, required);
    }
    if EndsInWildcard(held) {
      var p := held[..|held| - 2];
      assert held[..|held| - 1] == p + ".";
      DottedPrefix(p, required);
    }
    if |h| == 1 {
      assert h == [h[0]] && h[..0] == [];
    }
  }

  // ---- what the pattern accepts ----

  lemma {:induction false} WellformedCons(first: string, rest: seq<string>)
    ensures Wellformed([first] + rest) <==> (Name(first) || (rest == [] && first == "*")) && Wellformed(rest)
  {
    var all := [first] + rest;
    if Wellformed(all) {
      forall i | 0 <= i < |rest| ensures Name(rest[i]) || (i == |rest| - 1 && rest[i] == "*") {
        assert all[i + 1] == rest[i];
      }
      assert all[0] == first;
    }
  }

  lemma {:induction false} NameCons(c: char, rest: string)
    ensures Name([c] + rest) <==> Alnum(c) && (rest == "" || Name(rest))
  {
    assert forall i :: 0 < i < |[c] + rest| ==> ([c] + rest)[i] == rest[i - 1];
    if Name([c] + rest) {
      assert ([c] + rest)[0] == c;
      assert forall i :: 0 <= i < |rest| ==> rest[i] == ([c] + rest)[i + 1];
    }
  }

  lemma {:induction false} InNameIsWellformed(v: string)
    ensures InName(v) <==> (Split(v)[0] == "" || Name(Split(v)[0])) && Wellformed(Split(v)[1..])
    decreases |v|, 0
  {
    if v == "" {
    } else if v[0] == '.' {
      HeadTail("", Split(v[1..]));
      PatternIsWellformed(v[1..]);
      HeadTail('.', v[1..]);
    } else {
      InNameIsWellformed(v[1..]);
      var rest := Split(v[1..]);
      HeadTail([v[0]] + rest[0], rest[1..]);
      NameCons(v[0], rest[0]);
    }
  }

  /** The pattern accepts exactly the texts whose segments are names, the last one
      possibly the wildcard. */
  lemma {:induction false} PatternIsWellformed(v: string)
    ensures Matches(v) <==> Wellformed(Split(v))
    decreases |v|, 1
  {
    SplitEmpty(v);
    OnlyStarSplitsToStar(v);
    if v != "" {
      var rest := Split(v[1..]);
      SplitHead(v);
      InNameIsWellformed(v[1..]);
      if v[0] == '.' {
        WellformedCons("", rest);
      } else {
        NameCons(v[0], rest[0]);
        WellformedCons([v[0]] + rest[0], rest[1..]);
        StarAlone(v);
      }
    }
  }

  lemma {:induction false} StarAlone(v: string)
    requires v != "" && v[0] != '.'
    ensures Split(v)[1..] == [] && Split(v)[0] == "*" ==> v == "*"
  {
    OnlyStarSplitsToStar(v);
    if Split(v)[1..] == [] && Split(v)[0] == "*" {
      assert Split(v) == [Split(v)[0]];
    }
  }

  // ---- what parsing does ----

  /** White space and line terminators of ECMAScript, by code point. */
  ghost predicate WhiteSpace(c: char) {
    9 <= c as int <= 13 || 0x2000 <= c as int <= 0x200A
    || c as int in {0x20, 0xA0, 0x1680, 0x2028, 0x2029, 0x202F, 0x205F, 0x3000, 0xFEFF}
  }

  ghost predicate AllWhite(s: string) {
    forall i :: 0 <= i < |s| ==> WhiteSpace(s[i])
  }

  ghost predicate NoWhiteEnds(s: string) {
    s != "" ==> !WhiteSpace(s[0]) && !WhiteSpace(s[|s| - 1])
  }

  /** `low` is `s` in lower case, as far as a claim can tell. */
  ghost predicate IsLower(low: string, s: string) {
    |low| == |s| && forall i :: 0 <= i < |s| ==>
      low[i] as int == (if 65 <= s[i] as int <= 90 then s[i] as int + 32
                        else if s[i] as int == 0x212A then 107 else s[i] as int)
  }

  lemma {:induction false} TrimStartDrops(pre: string, rest: string)
    requires AllWhite(pre) && (rest == "" || !WhiteSpace(rest[0]))
    ensures TrimStart(pre + rest) == rest
  {
    if pre == "" {
      assert pre + rest == rest;
    } else {
      assert (pre + rest)[1..] == pre[1..] + rest;
      TrimStartDrops(pre[1..], rest);
    }
  }

  lemma {:induction false} TrimEndDrops(rest: string, post: string)
    requires AllWhite(post) && (rest == "" || !WhiteSpace(rest[|rest| - 1]))
    ensures TrimEnd(rest + post) == rest
  {
    if post == "" {
      assert rest + post == rest;
    } else {
      var n := |post| - 1;
      assert (rest + post)[..|rest| + n] == rest + post[..n];
      TrimEndDrops(rest, post[..n]);
    }
  }

  /** Parsing takes the white space off both ends and the rest to lower case, and accepts it
      exactly when its segments are names, the last one possibly the wildcard; the error
      names the text as it was given. */
  lemma {:induction false} ParseMeans(pre: string, core: string, post: string, low: string)
    requires AllWhite(pre) && AllWhite(post) && NoWhiteEnds(core) && IsLower(low, core)
    ensures Parse(pre + core + post) ==
      if Wellformed(Split(low)) then Ok(low) else Err(InvalidClaim(pre + core + post))
  {
    if core == "" {
      assert pre + core + post == (pre + post) + "";
      TrimStartDrops(pre + post, "");
    } else {
      assert pre + core + post == pre + (core + post);
      TrimStartDrops(pre, core + post);
      TrimEndDrops(core, post);
    }
    assert Lower(core) == low;
    PatternIsWellformed(low);
  }

  /** Parsing what parsing returned changes nothing. */
  lemma {:induction false} ParseTwice(raw: string)
    requires Parse(raw).Ok?
    ensures Parse(Parse(raw).value) == Parse(raw)
  {
    var v := Parse(raw).value;
    MatchedChars(v);
    assert !Space(v[0]) && !Space(v[|v| - 1]);
    assert Lower(v) == v;
  }

  lemma {:induction false} InNameChars(v: string)
    requires InName(v)
    ensures forall i :: 0 <= i < |v| ==> Alnum(v[i]) || v[i] == '.' || v[i] == '*'
  {
    if v != "" {
      if v[0] == '.' && v[1..] == "*" {
        assert v == ".*";
      } else if v[0] == '.' {
        InNameChars(v[2..]);
        assert forall i :: 2 <= i < |v| ==> v[i] == v[2..][i - 2];
      } else {
        InNameChars(v[1..]);
        assert forall i :: 1 <= i < |v| ==> v[i] == v[1..][i - 1];
      }
    }
  }

  lemma {:induction false} MatchedChars(v: string)
    requires Matches(v)
    ensures v != "" && forall i :: 0 <= i < |v| ==> Alnum(v[i]) || v[i] == '.' || v[i] == '*'
  {
    if v != "*" {
      InNameChars(v[1..]);
      assert forall i :: 1 <= i < |v| ==> v[i] == v[1..][i - 1];
    }
  }

  // ---- covering as inclusion ----

  /** A claim without a wildcard: one permission. */
  predicate Single(v: string) {
    Matches(v) && v != "*" && !EndsInWildcard(v)
  }

  /** The claim with its wildcard replaced by a name. */
  function Instance(v: string, name: string): string
    requires v == "*" || EndsInWildcard(v)
  {
    v[..|v| - 1] + name
  }

  lemma {:induction false} InstanceSplit(v: string, name: string)
    requires v == "*" || EndsInWildcard(v)
    requires Split(name) == [name]
    ensures Split(Instance(v, name)) == Split(v)[..|Split(v)| - 1] + [name]
  {
    WildcardIsLastSegment(v);
    SplitStar();
    if v == "*" {
      assert Instance(v, name) == name && Split(v)[..0] == [];
    } else {
      SplitJoin(v[..|v| - 2], name);
      assert Instance(v, name) == v[..|v| - 2] + ("." + name);
    }
  }

  lemma {:induction false} WellformedInstance(segments: seq<string>, name: string)
    requires segments != [] && Wellformed(segments) && Name(name)
    ensures Wellformed(segments[..|segments| - 1] + [name])
  {
  }

  lemma {:induction false} NamesAreNotStar(name: string)
    requires Name(name)
    ensures name != "*"
  {
    assert Alnum(name[0]);
  }

  lemma {:induction false} InstanceSegments(v: string, name: string)
    requires Matches(v) && (v == "*" || EndsInWildcard(v)) && Name(name) && Split(name) == [name]
    ensures Split(Instance(v, name)) == Split(v)[..|Split(v)| - 1] + [name]
    ensures Single(Instance(v, name)) && Covers(v, Instance(v, name))
  {
    var i := Instance(v, name);
    InstanceSplit(v, name);
    PatternIsWellformed(v);
    WellformedInstance(Split(v), name);
    PatternIsWellformed(i);
    NamesAreNotStar(name);
    WildcardIsLastSegment(v);
    OnlyStarSplitsToStar(v);
    WildcardIsLastSegment(i);
    OnlyStarSplitsToStar(i);
    CoversIsBySegments(v, i);
  }

  lemma {:induction false} ShortNames()
    ensures Name("a") && Split("a") == ["a"] && Name("b") && Split("b") == ["b"]
  {
    SplitCons('a', "");
    SplitCons('b', "");
    assert ['a'] + "" == "a" && ['b'] + "" == "b";
  }

  /** Covering a claim is covering every single permission that claim covers. */
  lemma {:induction false} CoversIsInclusion(held: string, required: string)
    requires Matches(held) && Matches(required)
    ensures Covers(held, required) <==> forall x | Single(x) && Covers(required, x) :: Covers(held, x)
  {
    forall x | Single(x) && Covers(required, x) && Covers(held, required) ensures Covers(held, x) {
      CoversTransitive(held, required, x);
    }
    if forall x | Single(x) && Covers(required, x) :: Covers(held, x) {
      if Single(required) {
        assert Covers(held, required);
      } else {
        ShortNames();
        InstanceSegments(required, "a");
        InstanceSegments(required, "b");
        BothInstances(held, required);
      }
    }
  }

  lemma {:induction false} BothInstances(held: string, required: string)
    requires required == "*" || EndsInWildcard(required)
    requires Covers(held, Instance(required, "a")) && Covers(held, Instance(required, "b"))
    requires Split(Instance(required, "a")) == Split(required)[..|Split(required)| - 1] + ["a"]
    requires Split(Instance(required, "b")) == Split(required)[..|Split(required)| - 1] + ["b"]
    ensures Covers(held, required)
  {
    var a, b := Instance(required, "a"), Instance(required, "b");
    assert a[|a| - 1] != b[|b| - 1];
    CoversIsBySegments(held, a);
    CoversIsBySegments(held, b);
    CoversIsBySegments(held, required);
    WildcardIsLastSegment(required);
    OnlyStarSplitsToStar(required);
    var h, r := Split(held), Split(required);
    var q := r[..|r| - 1];
    assert (q + ["a"])[|q|] != (q + ["b"])[|q|];
    var p := h[..|h| - 1];
    if p < q + ["a"] {
      assert p == (q + ["a"])[..|p|] == q[..|p|] == r[..|p|];
    }
    if p < q + ["b"] {
      assert p == (q + ["b"])[..|p|] == q[..|p|] == r[..|p|];
    }
  }

  // ---- the order ----

  lemma {:induction false} CoversTransitive(a: string, b: string, c: string)
    requires Covers(a, b) && Covers(b, c)
    ensures Covers(a, c)
  {
    CoversIsBySegments(a, b);
    CoversIsBySegments(b, c);
    CoversIsBySegments(a, c);
    var s, t, u := Split(a), Split(b), Split(c);
    if s != t && t != u {
      var p, q := s[..|s| - 1], t[..|t| - 1];
      assert p <= q by { assert p == t[..|p|] == q[..|p|]; }
      assert p == u[..|p|] by { assert q == u[..|q|]; }
    }
  }

  lemma {:induction false} CoversAntisymmetric(a: string, b: string)
    requires Covers(a, b) && Covers(b, a)
    ensures a == b
  {
    CoversIsBySegments(a, b);
    CoversIsBySegments(b, a);
    var s, t := Split(a), Split(b);
    if |s| == |t| {
      LastDecides(s, t);
    }
    SplitInjective(a, b);
  }

  lemma {:induction false} SpecificityBySegments(v: string)
    ensures var s := Split(v);
            Specificity(v) == if s == ["*"] then 0.0
                              else if s[|s| - 1] == "*" then |s| as real - 0.5
                              else |s| as real
  {
    WildcardIsLastSegment(v);
    OnlyStarSplitsToStar(v);
    var s := Split(v);
    if |s| == 1 {
      assert s == [s[0]];
    }
  }

  /** Covering something else means being strictly less specific. */
  lemma {:induction false} CoveringIsLessSpecific(held: string, required: string)
    requires Covers(held, required) && held != required
    ensures Specificity(held) < Specificity(required)
  {
    CoversIsBySegments(held, required);
    SpecificityBySegments(held);
    SpecificityBySegments(required);
    var h, r := Split(held), Split(required);
    if |h| == |r| {
      LastDecides(h, r);
    }
    SplitSame(held, required);
  }

  /** Two different claims that cover the same claim differ in specificity. */
  lemma {:induction false} CoversNeverTie(a: string, b: string, required: string)
    requires Covers(a, required) && Covers(b, required) && a != b
    ensures Specificity(a) != Specificity(b)
  {
    if a == required {
      CoveringIsLessSpecific(b, required);
    } else if b == required {
      CoveringIsLessSpecific(a, required);
    } else {
      CoversIsBySegments(a, required);
      CoversIsBySegments(b, required);
      SpecificityBySegments(a);
      SpecificityBySegments(b);
      var s, t, r := Split(a), Split(b), Split(required);
      SplitSame(a, required);
      SplitSame(b, required);
      SplitSame(a, b);
      if |s| == |t| {
        LastDecides(s, t);
      }
    }
  }
}
