/**
 The address filter: the comparison that masks byte by byte, against agreement of the
 addresses as numbers after division by a power of two (section 3.1 of RFC 4632), and the
 expansion of `::`, against the number the written groups stand for (sections 2.2 and 2.3
 of RFC 4291).
 */
module Cidr {
  import opened Prelude

  type Byte = x: int | 0 <= x < 256

  /** Bitwise and of two naturals, and the two shifts. */
  function BitAnd(a: nat, b: nat): nat {
    if a == 0 || b == 0 then 0
    else 2 * BitAnd(a / 2, b / 2) + (if a % 2 == 1 && b % 2 == 1 then 1 else 0)
  }

  function ShiftLeft(a: nat, k: nat): nat
    decreases k
  {
    if k == 0 then a else 2 * ShiftLeft(a, k - 1)
  }

  function ShiftRight(a: nat, k: nat): nat
    decreases k
  {
    if k == 0 then a else ShiftRight(a / 2, k - 1)
  }

  /** The mask of the `take` leading bits of a byte. */
  function Mask(take: nat): nat
    requires take <= 8
  {
    if take == 0 then 0 else BitAnd(ShiftLeft(0xff, 8 - take), 0xff)
  }

  /** Whether the bytes agree in the leading bits, byte by byte. */
  predicate Matches(a: seq<Byte>, b: seq<Byte>, bitsLeft: int)
    requires |a| == |b|
  {
    if a == [] || bitsLeft <= 0 then true
    else
      var take := if bitsLeft < 8 then bitsLeft else 8;
      BitAnd(a[0], Mask(take)) == BitAnd(b[0], Mask(take)) && Matches(a[1..], b[1..], bitsLeft - take)
  }

  lemma {:induction false} MatchesNext(a: seq<Byte>, b: seq<Byte>, i: nat, bitsLeft: int)
    requires |a| == |b| && i < |a| && bitsLeft > 0
    ensures var take := if 8 < bitsLeft then 8 else bitsLeft;
            Matches(a[i..], b[i..], bitsLeft)
            == (BitAnd(a[i], Mask(take)) == BitAnd(b[i], Mask(take)) && Matches(a[i + 1..], b[i + 1..], bitsLeft - take))
  {
    assert a[i..][1..] == a[i + 1..] && b[i..][1..] == b[i + 1..];
  }

  /** True exactly when the addresses, as numbers, agree in the prefix. */
  method SameNetwork(a: seq<Byte>, b: seq<Byte>, prefixBits: int) returns (same: bool)
    requires |a| == |b|
    ensures same <==> Agree(a, b, prefixBits)
  {
    MatchesIsAgree(a, b, prefixBits);
    var bitsLeft := prefixBits;
    var i := 0;
    while i < |a| && bitsLeft > 0
      invariant 0 <= i <= |a|
      invariant Matches(a, b, prefixBits) == Matches(a[i..], b[i..], bitsLeft)
      decreases |a| - i
    {
      var take := if 8 < bitsLeft then 8 else bitsLeft;
      var mask := if take == 0 then 0 else BitAnd(ShiftLeft(0xff, 8 - take), 0xff);
      MatchesNext(a, b, i, bitsLeft);
      if BitAnd(a[i], mask) != BitAnd(b[i], mask) {
        return false;
      }
      bitsLeft := bitsLeft - take;
      i := i + 1;
    }
    return true;
  }

  // ---- addresses as numbers ----

  function Pow2(n: nat): (p: nat)
    ensures p > 0
  {
    if n == 0 then 1 else 2 * Pow2(n - 1)
  }

  /** The bytes as a big-endian number. */
  function Number(a: seq<Byte>): nat {
    if a == [] then 0 else Number(a[..|a| - 1]) * 256 + a[|a| - 1]
  }

  /** The prefix length within the address, for lengths outside it. */
  function Clamp(prefixBits: int, bits: nat): nat {
    if prefixBits < 0 then 0 else if prefixBits > bits then bits else prefixBits
  }

  /** The numbers agree after division by 2 to the number of bits behind the prefix. */
  predicate Agree(a: seq<Byte>, b: seq<Byte>, prefixBits: int)
    requires |a| == |b|
  {
    var d := Pow2(8 * |a| - Clamp(prefixBits, 8 * |a|));
    Number(a) / d == Number(b) / d
  }

  // ---- shifts ----

  lemma {:induction false} DivUnique(x: int, d: int, q: int, r: int)
    requires d > 0 && x == q * d + r && 0 <= r < d
    ensures x / d == q
  {
    var p := x / d - q;
    assert p * d == r - x % d;
    assert p >= 1 ==> p * d >= d;
    assert p <= -1 ==> p * d <= -d;
  }

  lemma {:induction false} HalveTwice(x: nat, p: nat)
    requires p > 0
    ensures (x / 2) / p == x / (2 * p)
  {
    var q, r := (x / 2) / p, (x / 2) % p;
    assert x / 2 == q * p + r;
    assert x == q * (2 * p) + (2 * r + x % 2);
    DivUnique(x, 2 * p, q, 2 * r + x % 2);
  }

  /** Shifting right is dividing by a power of two. */
  lemma {:induction false} ShiftIsDivision(x: nat, k: nat)
    ensures ShiftRight(x, k) == x / Pow2(k)
    decreases k
  {
    if k > 0 {
      ShiftIsDivision(x / 2, k - 1);
      HalveTwice(x, Pow2(k - 1));
    }
  }

  lemma {:induction false} ShiftRightTwice(x: nat, j: nat, k: nat)
    ensures ShiftRight(x, j + k) == ShiftRight(ShiftRight(x, j), k)
    decreases j
  {
    if j > 0 {
      ShiftRightTwice(x / 2, j - 1, k);
    }
  }

  lemma {:induction false} ShiftLeftInjective(x: nat, y: nat, k: nat)
    ensures ShiftLeft(x, k) == ShiftLeft(y, k) <==> x == y
    decreases k
  {
    if k > 0 {
      ShiftLeftInjective(x, y, k - 1);
    }
  }

  // ---- the mask ----

  lemma {:induction false} AndEven(x: nat, h: nat)
    ensures BitAnd(x, 2 * h) == 2 * BitAnd(x / 2, h)
  {
  }

  lemma {:induction false} AndOdd(x: nat, h: nat)
    ensures BitAnd(x, 2 * h + 1) == 2 * BitAnd(x / 2, h) + x % 2
  {
  }

  /** A shifted mask keeps the shifted bits. */
  lemma {:induction false} AndShifted(x: nat, m: nat, k: nat)
    ensures BitAnd(x, ShiftLeft(m, k)) == ShiftLeft(BitAnd(ShiftRight(x, k), m), k)
    decreases k
  {
    if k > 0 {
      AndEven(x, ShiftLeft(m, k - 1));
      AndShifted(x / 2, m, k - 1);
    }
  }

  function Ones(t: nat): nat {
    if t == 0 then 0 else 2 * Ones(t - 1) + 1
  }

  lemma {:induction false} AndOnes(x: nat, t: nat)
    requires ShiftRight(x, t) == 0
    ensures BitAnd(x, Ones(t)) == x
    decreases t
  {
    if t > 0 {
      AndOdd(x, Ones(t - 1));
      AndOnes(x / 2, t - 1);
    }
  }

  lemma {:induction false} AndOnesOnes(s: nat, t: nat)
    requires t <= s
    ensures BitAnd(Ones(s), Ones(t)) == Ones(t)
    decreases t
  {
    if t > 0 {
      AndOdd(Ones(s), Ones(t - 1));
      AndOnesOnes(s - 1, t - 1);
    }
  }

  /** Of shifted bits the ones below the mask remain, shifted. */
  lemma {:induction false} ShiftedAndOnes(h: nat, k: nat, t: nat)
    requires k <= t
    ensures BitAnd(ShiftLeft(h, k), Ones(t)) == ShiftLeft(BitAnd(h, Ones(t - k)), k)
    decreases k
  {
    if k > 0 {
      AndOdd(ShiftLeft(h, k), Ones(t - 1));
      ShiftedAndOnes(h, k - 1, t - 1);
    }
  }

  lemma {:induction false} AllOnes()
    ensures Ones(8) == 0xff
  {
    assert Ones(4) == 0xf;
  }

  lemma {:induction false} MaskIs(take: nat)
    requires 0 < take <= 8
    ensures Mask(take) == ShiftLeft(Ones(take), 8 - take)
  {
    AllOnes();
    ShiftedAndOnes(0xff, 8 - take, 8);
    AndOnesOnes(8, take);
  }

  /** Masking a byte clears all but its leading bits. */
  lemma {:induction false} MaskedByte(x: Byte, take: nat)
    requires 0 < take <= 8
    ensures BitAnd(x, Mask(take)) == ShiftLeft(ShiftRight(x, 8 - take), 8 - take)
  {
    MaskIs(take);
    AndShifted(x, Ones(take), 8 - take);
    ShiftRightTwice(x, 8 - take, take);
    ByteShiftedOut(x);
    AndOnes(ShiftRight(x, 8 - take), take);
  }

  lemma {:induction false} ByteShiftedOut(x: Byte)
    ensures ShiftRight(x, 8) == 0
  {
    ShiftIsDivision(x, 8);
    assert Pow2(8) == 256;
  }

  lemma {:induction false} MaskedEqual(x: Byte, y: Byte, take: nat)
    requires 0 < take <= 8
    ensures BitAnd(x, Mask(take)) == BitAnd(y, Mask(take)) <==> ShiftRight(x, 8 - take) == ShiftRight(y, 8 - take)
  {
    MaskedByte(x, take);
    MaskedByte(y, take);
    ShiftLeftInjective(ShiftRight(x, 8 - take), ShiftRight(y, 8 - take), 8 - take);
  }

  // ---- the loop ----

  lemma {:induction false} WholeBytesEqual(x: Byte, y: Byte)
    ensures BitAnd(x, Mask(8)) == BitAnd(y, Mask(8)) <==> x == y
  {
    MaskedEqual(x, y, 8);
  }

  /** A prefix that ends before the last byte does not look at it. */
  lemma {:induction false} MatchesInit(a: seq<Byte>, b: seq<Byte>, bits: int)
    requires |a| == |b| > 0 && bits <= 8 * (|a| - 1)
    ensures Matches(a, b, bits) == Matches(a[..|a| - 1], b[..|b| - 1], bits)
    decreases |a|
  {
    if bits > 0 {
      var n := |a| - 1;
      assert a[..n][1..] == a[1..][..n - 1] && b[..n][1..] == b[1..][..n - 1];
      MatchesInit(a[1..], b[1..], bits - if bits < 8 then bits else 8);
    }
  }

  lemma {:induction false} InitCons(a: seq<Byte>, b: seq<Byte>)
    requires |a| == |b| > 1
    ensures var n := |a| - 1; a[..n] == b[..n] <==> a[0] == b[0] && a[1..][..n - 1] == b[1..][..n - 1]
  {
    var n := |a| - 1;
    assert a[..n] == [a[0]] + a[1..][..n - 1] && b[..n] == [b[0]] + b[1..][..n - 1];
    assert a[..n][1..] == a[1..][..n - 1] && b[..n][1..] == b[1..][..n - 1];
  }

  /** The bits of the last byte that a prefix ending in it looks at. */
  function LastBits(bits: int, n: nat): (take: nat)
    requires 0 < n && 8 * (n - 1) < bits
    ensures 0 < take <= 8
  {
    if bits < 8 * n then bits - 8 * (n - 1) else 8
  }

  /** A prefix that ends in the last byte wants the others equal. */
  lemma {:induction false} MatchesLast(a: seq<Byte>, b: seq<Byte>, bits: int)
    requires |a| == |b| > 0 && 8 * (|a| - 1) < bits
    ensures var n := |a| - 1; var take := LastBits(bits, |a|);
            Matches(a, b, bits) <==> a[..n] == b[..n] && ShiftRight(a[n], 8 - take) == ShiftRight(b[n], 8 - take)
    decreases |a|
  {
    var n := |a| - 1;
    if n == 0 {
      MaskedEqual(a[0], b[0], LastBits(bits, 1));
      assert a[..0] == b[..0] == [];
      assert Matches(a[1..], b[1..], bits - LastBits(bits, 1));
    } else {
      WholeBytesEqual(a[0], b[0]);
      MatchesLast(a[1..], b[1..], bits - 8);
      InitCons(a, b);
      assert LastBits(bits, |a|) == LastBits(bits - 8, n);
    }
  }

  lemma {:induction false} NumberInjective(a: seq<Byte>, b: seq<Byte>)
    requires |a| == |b|
    ensures Number(a) == Number(b) <==> a == b
  {
    if a != [] && Number(a) == Number(b) {
      var n := |a| - 1;
      NumberInjective(a[..n], b[..n]);
      assert a == a[..n] + [a[n]] && b == b[..n] + [b[n]];
    }
  }

  /** 2 to the bits of a byte that a shift by `k` leaves. */
  function TopWeight(k: nat): nat
    requires k < 8
  {
    [256, 128, 64, 32, 16, 8, 4, 2][k]
  }

  lemma {:induction false} HalveWeighted(m: nat, x: nat, j: nat)
    requires j < 7 && x < TopWeight(j)
    ensures (m * TopWeight(j) + x) / 2 == m * TopWeight(j + 1) + x / 2 && x / 2 < TopWeight(j + 1)
  {
    var w := TopWeight(j + 1);
    assert TopWeight(j) == 2 * w;
    assert m * (2 * w) == 2 * (m * w);
  }

  /** The shifted byte stays below the shifted rest. */
  lemma {:induction false} ShiftWeighted(m: nat, x: nat, j: nat, k: nat)
    requires j + k < 8 && x < TopWeight(j)
    ensures ShiftRight(m * TopWeight(j) + x, k) == m * TopWeight(j + k) + ShiftRight(x, k)
    ensures ShiftRight(x, k) < TopWeight(j + k)
    decreases k
  {
    if k > 0 {
      HalveWeighted(m, x, j);
      ShiftWeighted(m, x / 2, j + 1, k - 1);
    }
  }

  lemma {:induction false} ShiftByte(m: nat, x: Byte, k: nat)
    requires k < 8
    ensures ShiftRight(m * 256 + x, k) == m * TopWeight(k) + ShiftRight(x, k) && ShiftRight(x, k) < TopWeight(k)
  {
    assert TopWeight(0) == 256;
    ShiftWeighted(m, x, 0, k);
  }

  lemma {:induction false} DigitsDecide(a: nat, x: nat, b: nat, y: nat, m: nat)
    requires x < m && y < m
    ensures a * m + x == b * m + y <==> a == b && x == y
  {
    DivUnique(a * m + x, m, a, x);
    DivUnique(b * m + y, m, b, y);
  }

  /** Shifting a number by less than its last byte: the bytes before it and what is left
      of the last one decide. */
  lemma {:induction false} ShiftLast(m: nat, x: Byte, n: nat, y: Byte, k: nat)
    requires k < 8
    ensures ShiftRight(m * 256 + x, k) == ShiftRight(n * 256 + y, k) <==> m == n && ShiftRight(x, k) == ShiftRight(y, k)
  {
    ShiftByte(m, x, k);
    ShiftByte(n, y, k);
    DigitsDecide(m, ShiftRight(x, k), n, ShiftRight(y, k), TopWeight(k));
  }

  lemma {:induction false} NumberShifted(a: seq<Byte>, j: nat)
    requires a != []
    ensures ShiftRight(Number(a), 8 + j) == ShiftRight(Number(a[..|a| - 1]), j)
  {
    ShiftRightTwice(Number(a), 8, j);
    ShiftIsDivision(Number(a), 8);
    assert Pow2(8) == 256;
  }

  function Dropped(prefixBits: int, n: nat): nat {
    8 * n - Clamp(prefixBits, 8 * n)
  }

  /** Shifted by less than a byte, the numbers agree when all but the last bytes do, and the
      shifted last ones. */
  lemma {:induction false} ShiftNumbers(a: seq<Byte>, b: seq<Byte>, k: nat)
    requires |a| == |b| > 0 && k < 8
    ensures var n := |a| - 1;
      ShiftRight(Number(a), k) == ShiftRight(Number(b), k) <==> a[..n] == b[..n] && ShiftRight(a[n], k) == ShiftRight(b[n], k)
  {
    var n := |a| - 1;
    NumberInjective(a[..n], b[..n]);
    ShiftLast(Number(a[..n]), a[n], Number(b[..n]), b[n], k);
  }

  lemma {:induction false} LastIsShift(a: seq<Byte>, b: seq<Byte>, prefixBits: int)
    requires |a| == |b| > 0 && prefixBits > 8 * (|a| - 1)
    ensures var drop := Dropped(prefixBits, |a|);
            Matches(a, b, prefixBits) <==> ShiftRight(Number(a), drop) == ShiftRight(Number(b), drop)
  {
    var drop: nat := Dropped(prefixBits, |a|);
    MatchesLast(a, b, prefixBits);
    assert drop == 8 - LastBits(prefixBits, |a|);
    ShiftNumbers(a, b, drop);
  }

  lemma {:induction false} MatchesIsShift(a: seq<Byte>, b: seq<Byte>, prefixBits: int)
    requires |a| == |b|
    ensures var drop := Dropped(prefixBits, |a|);
            Matches(a, b, prefixBits) <==> ShiftRight(Number(a), drop) == ShiftRight(Number(b), drop)
    decreases |a|
  {
    if a != [] {
      var n := |a| - 1;
      if prefixBits <= 8 * n {
        MatchesInit(a, b, prefixBits);
        MatchesIsShift(a[..n], b[..n], prefixBits);
        NumberShifted(a, Dropped(prefixBits, n));
        NumberShifted(b, Dropped(prefixBits, n));
        assert Dropped(prefixBits, |a|) == 8 + Dropped(prefixBits, n);
      } else {
        LastIsShift(a, b, prefixBits);
      }
    }
  }

  /** For any prefix length the byte-wise test is agreement of the numbers. */
  lemma {:induction false} MatchesIsAgree(a: seq<Byte>, b: seq<Byte>, prefixBits: int)
    requires |a| == |b|
    ensures Matches(a, b, prefixBits) <==> Agree(a, b, prefixBits)
  {
    var drop := Dropped(prefixBits, |a|);
    MatchesIsShift(a, b, prefixBits);
    ShiftIsDivision(Number(a), drop);
    ShiftIsDivision(Number(b), drop);
  }

  // ---- expanding an IPv6 address ----

  function HexDigit(c: char): Option<nat> {
    if '0' <= c <= '9' then Some((c as int) - ('0' as int))
    else if 'a' <= c <= 'f' then Some(10 + (c as int) - ('a' as int))
    else if 'A' <= c <= 'F' then Some(10 + (c as int) - ('A' as int))
    else None
  }

  /** The value of the leading hexadecimal digits, after `acc`. */
  function HexPrefix(g: string, acc: nat): nat
    decreases |g|
  {
    if g == "" || HexDigit(g[0]).None? then acc else HexPrefix(g[1..], acc * 16 + HexDigit(g[0]).value)
  }

  /** `parseInt` in base 16 of a group, or of `0` for an empty one. */
  function ParseGroup(group: string): Option<nat> {
    var g := if group == "" then "0" else group;
    if HexDigit(g[0]).None? then None else Some(HexPrefix(g, 0))
  }

  function ParseGroups(groups: seq<string>): Option<seq<nat>> {
    if groups == [] then Some([])
    else
      var n := |groups| - 1;
      var rest := ParseGroups(groups[..n]);
      if rest.None? || ParseGroup(groups[n]).None? then None else Some(rest.value + [ParseGroup(groups[n]).value])
  }

  /** Two bytes for each group. */
  function BytesOf(values: seq<nat>): (r: seq<Byte>)
    ensures |r| == 2 * |values|
  {
    if values == [] then []
    else
      var v := values[|values| - 1];
      BytesOf(values[..|values| - 1]) + [(v / 256) % 256, v % 256]
  }

  function Zeros(n: nat): (r: seq<string>)
    ensures |r| == n
  {
    if n == 0 then [] else Zeros(n - 1) + ["0"]
  }

  /** The groups an address stands for, from the groups before and after a `::`. */
  function Groups(halves: seq<seq<string>>): Option<seq<string>>
    requires halves != []
  {
    if |halves| > 2 then None
    else
      var tail := if |halves| == 2 then halves[1] else [];
      var missing := 8 - (|halves[0]| + |tail|);
      if missing < 0 then None
      else
        var groups := halves[0] + (if |halves| == 2 then Zeros(missing) else []) + tail;
        if |groups| != 8 then None else Some(groups)
  }

  function Expanded(halves: seq<seq<string>>): Option<seq<Byte>>
    requires halves != []
  {
    var groups := Groups(halves);
    if groups.None? || ParseGroups(groups.value).None? then None else Some(BytesOf(ParseGroups(groups.value).value))
  }

  /** The halves are the text split at `::`, each split at its colons. */
  method ExpandIPv6(halves: seq<seq<string>>) returns (r: Option<seq<Byte>>)
    requires halves != []
    ensures r == Expanded(halves)
  {
    var split := Groups(halves);
    if split.None? {
      return None;
    }
    var groups := split.value;
    var bytes: seq<Byte> := [];
    for i := 0 to |groups|
      invariant ParseGroups(groups[..i]).Some? && bytes == BytesOf(ParseGroups(groups[..i]).value)
    {
      var value := ParseGroup(groups[i]);
      ParseNext(groups, i);
      if value.None? {
        return None;
      }
      BytesNext(ParseGroups(groups[..i]).value, value.value);
      bytes := bytes + [(value.value / 256) % 256, value.value % 256];
    }
    assert groups[..|groups|] == groups;
    return Some(bytes);
  }

  lemma {:induction false} BytesNext(values: seq<nat>, v: nat)
    ensures BytesOf(values + [v]) == BytesOf(values) + [(v / 256) % 256, v % 256]
  {
    assert (values + [v])[..|values|] == values;
  }

  lemma {:induction false} ParseNext(groups: seq<string>, i: nat)
    requires i < |groups| && ParseGroups(groups[..i]).Some?
    ensures ParseGroup(groups[i]).None? ==> ParseGroups(groups).None?
    ensures ParseGroup(groups[i]).Some? ==>
              ParseGroups(groups[..i + 1]) == Some(ParseGroups(groups[..i]).value + [ParseGroup(groups[i]).value])
  {
    assert groups[..i + 1][..i] == groups[..i];
    if ParseGroup(groups[i]).None? {
      ParseFails(groups, i);
    }
  }

  lemma {:induction false} ParseFails(groups: seq<string>, i: nat)
    requires i < |groups| && ParseGroup(groups[i]).None?
    ensures ParseGroups(groups).None?
  {
    if i < |groups| - 1 {
      ParseFails(groups[..|groups| - 1], i);
    }
  }

  // ---- what the expansion means ----

  /** The groups as a big-endian number in base 65536. */
  function GroupsNumber(values: seq<nat>): nat {
    if values == [] then 0 else GroupsNumber(values[..|values| - 1]) * 65536 + values[|values| - 1]
  }

  lemma {:induction false} GroupsAppend(values: seq<nat>, v: nat)
    ensures GroupsNumber(values + [v]) == GroupsNumber(values) * 65536 + v
  {
    assert (values + [v])[..|values|] == values;
  }

  lemma {:induction false} NumberTwoBytes(a: seq<Byte>, x: Byte, y: Byte)
    ensures Number(a + [x, y]) == (Number(a) * 256 + x) * 256 + y
  {
    var all := a + [x, y];
    assert all[..|a| + 1] == a + [x] && (a + [x])[..|a|] == a;
  }

  lemma {:induction false} NumberOfGroup(front: nat, v: nat)
    requires v < 65536
    ensures (front * 256 + (v / 256) % 256) * 256 + v % 256 == front * 65536 + v
  {
    assert v / 256 < 256 && (v / 256) % 256 == v / 256;
  }

  lemma {:induction false} NumberOfBytes(values: seq<nat>)
    requires forall i :: 0 <= i < |values| ==> values[i] < 65536
    ensures Number(BytesOf(values)) == GroupsNumber(values)
  {
    if values != [] {
      var front, v := values[..|values| - 1], values[|values| - 1];
      NumberOfBytes(front);
      NumberTwoBytes(BytesOf(front), (v / 256) % 256, v % 256);
      NumberOfGroup(Number(BytesOf(front)), v);
    }
  }

  lemma {:induction false} ShiftLeftTwice(x: nat, j: nat, k: nat)
    ensures ShiftLeft(x, j + k) == ShiftLeft(ShiftLeft(x, j), k)
    decreases k
  {
    if k > 0 {
      ShiftLeftTwice(x, j, k - 1);
    }
  }

  lemma {:induction false} ShiftLeft16(x: nat)
    ensures ShiftLeft(x, 16) == 65536 * x
  {
    ShiftLeft4(x);
    ShiftLeft4(16 * x);
    ShiftLeft4(256 * x);
    ShiftLeft4(4096 * x);
    ShiftLeftTwice(x, 4, 12);
    ShiftLeftTwice(16 * x, 4, 8);
    ShiftLeftTwice(256 * x, 4, 4);
  }

  lemma {:induction false} ShiftLeft4(x: nat)
    ensures ShiftLeft(x, 4) == 16 * x
  {
    assert ShiftLeft(x, 2) == 4 * x;
  }

  function ZeroValues(n: nat): (r: seq<nat>)
    ensures |r| == n
  {
    if n == 0 then [] else ZeroValues(n - 1) + [0]
  }

  lemma {:induction false} ZerosNumber(n: nat)
    ensures GroupsNumber(ZeroValues(n)) == 0
  {
    if n > 0 {
      ZerosNumber(n - 1);
      GroupsAppend(ZeroValues(n - 1), 0);
    }
  }

  /** Groups move the groups before them up. */
  lemma {:induction false} HeadOverTail(head: seq<nat>, tail: seq<nat>)
    ensures GroupsNumber(head + tail) == ShiftLeft(GroupsNumber(head), 16 * |tail|) + GroupsNumber(tail)
    decreases |tail|
  {
    if tail != [] {
      var t := |tail| - 1;
      HeadOverTail(head, tail[..t]);
      assert head + tail == (head + tail[..t]) + [tail[t]];
      GroupsAppend(head + tail[..t], tail[t]);
      MoveUp(GroupsNumber(head), 16 * t);
    } else {
      assert head + tail == head;
    }
  }

  /** Zero groups and the groups after them move the groups before them up. */
  lemma {:induction false} HeadMovesUp(head: seq<nat>, n: nat, tail: seq<nat>)
    ensures GroupsNumber(head + ZeroValues(n) + tail) == ShiftLeft(GroupsNumber(head), 16 * (n + |tail|)) + GroupsNumber(tail)
  {
    HeadOverTail(head, ZeroValues(n));
    ZerosNumber(n);
    HeadOverTail(head + ZeroValues(n), tail);
    ShiftLeftTwice(GroupsNumber(head), 16 * n, 16 * |tail|);
  }

  lemma {:induction false} MoveUp(x: nat, k: nat)
    ensures ShiftLeft(x, k + 16) == ShiftLeft(x, k) * 65536
  {
    ShiftLeftTwice(x, k, 16);
    ShiftLeft16(ShiftLeft(x, k));
  }

  /** One to four hexadecimal digits. */
  predicate HexGroup(g: string) {
    0 < |g| <= 4 && forall i :: 0 <= i < |g| ==> HexDigit(g[i]).Some?
  }

  predicate HexGroups(groups: seq<string>) {
    forall i :: 0 <= i < |groups| ==> HexGroup(groups[i])
  }

  function Value(g: string): nat {
    HexPrefix(g, 0)
  }

  function Values(groups: seq<string>): (r: seq<nat>)
    ensures |r| == |groups|
  {
    seq(|groups|, i requires 0 <= i < |groups| => Value(groups[i]))
  }

  lemma {:induction false} HexBound(g: string, acc: nat)
    requires |g| <= 4 && acc < [65536, 4096, 256, 16, 1][|g|]
    ensures HexPrefix(g, acc) < 65536
    decreases |g|
  {
    if g != "" && HexDigit(g[0]).Some? {
      HexBound(g[1..], acc * 16 + HexDigit(g[0]).value);
    }
  }

  /** A group that is read as a value of 16 bits, whatever follows its digits. */
  predicate Readable(g: string) {
    g != "" && HexDigit(g[0]).Some? && Value(g) < 65536
  }

  predicate ReadableGroups(groups: seq<string>) {
    forall i :: 0 <= i < |groups| ==> Readable(groups[i])
  }

  lemma {:induction false} HexGroupsReadable(groups: seq<string>)
    requires HexGroups(groups)
    ensures ReadableGroups(groups)
  {
    forall i | 0 <= i < |groups| ensures Readable(groups[i]) {
      HexBound(groups[i], 0);
    }
  }

  lemma {:induction false} ValuesParse(groups: seq<string>)
    requires ReadableGroups(groups)
    ensures ParseGroups(groups) == Some(Values(groups))
  {
    if groups != [] {
      var n := |groups| - 1;
      ValuesParse(groups[..n]);
      assert Values(groups) == Values(groups[..n]) + [Value(groups[n])];
    }
  }

  lemma {:induction false} ZerosAreZero(n: nat)
    ensures ReadableGroups(Zeros(n)) && Values(Zeros(n)) == ZeroValues(n)
  {
    if n > 0 {
      ZerosAreZero(n - 1);
      assert HexPrefix("0", 0) == 0 by {
        assert "0"[1..] == "";
      }
      assert Values(Zeros(n)) == Values(Zeros(n - 1)) + [Value("0")];
    }
  }

  /** The number written: the groups before `::` at the top, those after it at the bottom. */
  function Written(head: seq<nat>, tail: seq<nat>): nat
    requires |head| <= 8
  {
    ShiftLeft(GroupsNumber(head), 16 * (8 - |head|)) + GroupsNumber(tail)
  }

  lemma {:induction false} ReadableKeepsValue(head: seq<string>, tail: seq<string>)
    requires ReadableGroups(head) && ReadableGroups(tail) && |head| + |tail| <= 8
    ensures Expanded([head, tail]).Some? && |Expanded([head, tail]).value| == 16
    ensures Number(Expanded([head, tail]).value) == Written(Values(head), Values(tail))
  {
    WrittenInFull(head, 8 - |head| - |tail|, tail);
  }

  /** Expansion of an address with `::`: it succeeds exactly when the groups fit, with 16
      bytes that are the number written. */
  lemma {:induction false} ExpansionKeepsValue(head: seq<string>, tail: seq<string>)
    requires HexGroups(head) && HexGroups(tail)
    ensures Expanded([head, tail]).Some? <==> |head| + |tail| <= 8
    ensures |head| + |tail| <= 8 ==>
              var r := Expanded([head, tail]).value; |r| == 16 && Number(r) == Written(Values(head), Values(tail))
  {
    HexGroupsReadable(head);
    HexGroupsReadable(tail);
    if |head| + |tail| <= 8 {
      ReadableKeepsValue(head, tail);
    }
  }

  /** Expansion of an address without `::`. */
  lemma {:induction false} FullAddressKeepsValue(head: seq<string>)
    requires HexGroups(head)
    ensures Expanded([head]).Some? <==> |head| == 8
    ensures |head| == 8 ==> var r := Expanded([head]).value; |r| == 16 && Number(r) == GroupsNumber(Values(head))
  {
    assert head + [] + [] == head;
    HexGroupsReadable(head);
    if |head| == 8 {
      ValuesParse(head);
      NumberOfBytes(Values(head));
    }
  }

  lemma {:induction false} FullValues(head: seq<string>, n: nat, tail: seq<string>)
    requires ReadableGroups(head) && ReadableGroups(tail)
    ensures ReadableGroups(head + Zeros(n) + tail)
    ensures Values(head + Zeros(n) + tail) == Values(head) + ZeroValues(n) + Values(tail)
  {
    ZerosAreZero(n);
  }

  lemma {:induction false} ReadableValues(groups: seq<string>)
    requires ReadableGroups(groups)
    ensures forall i :: 0 <= i < |Values(groups)| ==> Values(groups)[i] < 65536
  {
  }

  lemma {:induction false} WrittenInFull(head: seq<string>, n: nat, tail: seq<string>)
    requires ReadableGroups(head) && ReadableGroups(tail) && |head| + n + |tail| == 8
    ensures var groups := head + Zeros(n) + tail;
            && ParseGroups(groups) == Some(Values(groups))
            && Number(BytesOf(Values(groups))) == Written(Values(head), Values(tail))
  {
    var groups := head + Zeros(n) + tail;
    FullValues(head, n, tail);
    ValuesParse(groups);
    ReadableValues(groups);
    NumberOfBytes(Values(groups));
    HeadMovesUp(Values(head), n, Values(tail));
  }

  // ---- addresses as they are written ----

  const DIGITS := "0123456789abcdef"
  const CAPITALS := "0123456789ABCDEF"

  /** A digit has the value of its place among the sixteen, in either case. */
  lemma {:induction false} HexDigitMeans(c: char, d: nat)
    ensures HexDigit(c) == Some(d) <==> d < 16 && (c == DIGITS[d] || c == CAPITALS[d])
  {
  }

  /** The hexadecimal text of a number, in either case and without leading zeros. */
  function HexText(n: nat, digits: string): (t: string)
    requires |digits| == 16
    ensures t != ""
    decreases n
  {
    (if n < 16 then "" else HexText(n / 16, digits)) + [digits[n % 16]]
  }

  lemma {:induction false} HexPrefixStep(c: char, d: nat, more: string, acc: nat)
    requires HexDigit(c) == Some(d)
    ensures HexPrefix([c] + more, acc) == HexPrefix(more, acc * 16 + d)
  {
    HeadTail(c, more);
  }

  lemma {:induction false} HexTextSplit(n: nat, digits: string, more: string)
    requires |digits| == 16 && n >= 16
    ensures HexText(n, digits) + more == HexText(n / 16, digits) + ([digits[n % 16]] + more)
  {
  }

  lemma {:induction false} HexTextRead(n: nat, digits: string, more: string)
    requires digits == DIGITS || digits == CAPITALS
    ensures HexPrefix(HexText(n, digits) + more, 0) == HexPrefix(more, n)
    decreases n
  {
    HexDigitMeans(digits[n % 16], n % 16);
    if n < 16 {
      assert HexText(n, digits) == [digits[n]];
      HexPrefixStep(digits[n], n, more, 0);
    } else {
      HexTextSplit(n, digits, more);
      HexTextRead(n / 16, digits, [digits[n % 16]] + more);
      HexPrefixStep(digits[n % 16], n % 16, more, n / 16);
    }
  }

  /** As many digits as the bound has. */
  lemma {:induction false} HexTextLength(n: nat, digits: string, k: nat)
    requires (digits == DIGITS || digits == CAPITALS) && 0 < k <= 4 && n < [16, 256, 4096, 65536][k - 1]
    ensures |HexText(n, digits)| <= k
    ensures forall i :: 0 <= i < |HexText(n, digits)| ==> HexDigit(HexText(n, digits)[i]).Some?
  {
    HexDigitMeans(digits[n % 16], n % 16);
    if n >= 16 {
      HexTextLength(n / 16, digits, k - 1);
    }
  }

  lemma {:induction false} HexTextIsGroup(n: nat, digits: string)
    requires (digits == DIGITS || digits == CAPITALS) && n < 65536
    ensures HexGroup(HexText(n, digits)) && Value(HexText(n, digits)) == n
  {
    HexTextLength(n, digits, 4);
    HexTextRead(n, digits, "");
    assert HexText(n, digits) + "" == HexText(n, digits);
  }

  function Pair(high: int, low: int): nat
    requires high >= 0 && low >= 0
  {
    high * 256 + low
  }

  /** The 16-bit numbers of the bytes, and their texts. */
  function Pairs(bytes: seq<Byte>): (r: seq<nat>)
    ensures |r| == |bytes| / 2
    ensures forall i :: 0 <= i < |r| ==> r[i] == Pair(bytes[2 * i], bytes[2 * i + 1])
  {
    seq(|bytes| / 2, i requires 0 <= i < |bytes| / 2 => Pair(bytes[2 * i], bytes[2 * i + 1]))
  }

  function Texts(values: seq<nat>, digits: string): (r: seq<string>)
    requires |digits| == 16
    ensures |r| == |values|
  {
    seq(|values|, i requires 0 <= i < |values| => HexText(values[i], digits))
  }

  lemma {:induction false} TextsAreGroups(values: seq<nat>, digits: string)
    requires (digits == DIGITS || digits == CAPITALS) && forall i :: 0 <= i < |values| ==> values[i] < 65536
    ensures HexGroups(Texts(values, digits)) && Values(Texts(values, digits)) == values
  {
    forall i | 0 <= i < |values| ensures HexGroup(HexText(values[i], digits)) && Value(HexText(values[i], digits)) == values[i] {
      HexTextIsGroup(values[i], digits);
    }
  }

  lemma {:induction false} NumberOfPairs(bytes: seq<Byte>)
    requires |bytes| % 2 == 0
    ensures GroupsNumber(Pairs(bytes)) == Number(bytes)
  {
    if bytes != [] {
      var n := |bytes| - 2;
      var front := bytes[..n];
      NumberOfPairs(front);
      assert bytes == front + [bytes[n], bytes[n + 1]];
      NumberTwoBytes(front, bytes[n], bytes[n + 1]);
      assert Pairs(bytes) == Pairs(front) + [Pair(bytes[n], bytes[n + 1])];
      GroupsAppend(Pairs(front), Pair(bytes[n], bytes[n + 1]));
    }
  }

  /** An address written out in eight groups, in lower or upper case, is read as its bytes. */
  lemma {:induction false} WrittenIsRead(bytes: seq<Byte>, digits: string)
    requires |bytes| == 16 && (digits == DIGITS || digits == CAPITALS)
    ensures Expanded([Texts(Pairs(bytes), digits)]) == Some(bytes)
  {
    var groups := Texts(Pairs(bytes), digits);
    TextsAreGroups(Pairs(bytes), digits);
    FullAddressKeepsValue(groups);
    NumberOfPairs(bytes);
    NumberInjective(Expanded([groups]).value, bytes);
  }

  predicate Groups16(values: seq<nat>) {
    forall i :: 0 <= i < |values| ==> values[i] < 65536
  }

  lemma {:induction false} CompressedExpands(head: seq<nat>, tail: seq<nat>, digits: string)
    requires (digits == DIGITS || digits == CAPITALS) && |head| + |tail| <= 8 && Groups16(head) && Groups16(tail)
    ensures var r := Expanded([Texts(head, digits), Texts(tail, digits)]);
      r.Some? && |r.value| == 16 && Number(r.value) == Written(head, tail)
  {
    TextsAreGroups(head, digits);
    TextsAreGroups(tail, digits);
    ExpansionKeepsValue(Texts(head, digits), Texts(tail, digits));
  }

  lemma {:induction false} CompressedValue(head: seq<nat>, zeros: nat, tail: seq<nat>, digits: string)
    requires (digits == DIGITS || digits == CAPITALS) && |head| + zeros + |tail| == 8 && Groups16(head) && Groups16(tail)
    ensures var r := Expanded([Texts(head, digits), Texts(tail, digits)]);
      r.Some? && |r.value| == 16 && Number(r.value) == GroupsNumber(head + ZeroValues(zeros) + tail)
  {
    CompressedExpands(head, tail, digits);
    HeadMovesUp(head, zeros, tail);
  }

  /** So is one whose groups of zeros, from the h-th on, are written as `::`. */
  lemma {:induction false} CompressedIsRead(bytes: seq<Byte>, h: nat, zeros: nat, digits: string)
    requires |bytes| == 16 && (digits == DIGITS || digits == CAPITALS)
    requires h + zeros <= 8 && forall i :: h <= i < h + zeros ==> Pairs(bytes)[i] == 0
    ensures Expanded([Texts(Pairs(bytes)[..h], digits), Texts(Pairs(bytes)[h + zeros..], digits)]) == Some(bytes)
  {
    var values := Pairs(bytes);
    ZerosInside(values, h, zeros);
    CompressedValue(values[..h], zeros, values[h + zeros..], digits);
    NumberOfPairs(bytes);
    NumberInjective(Expanded([Texts(values[..h], digits), Texts(values[h + zeros..], digits)]).value, bytes);
  }

  lemma {:induction false} ZerosInside(values: seq<nat>, h: nat, zeros: nat)
    requires h + zeros <= |values| && forall i :: h <= i < h + zeros ==> values[i] == 0
    ensures values == values[..h] + ZeroValues(zeros) + values[h + zeros..]
  {
    if zeros > 0 {
      ZerosInside(values, h, zeros - 1);
      assert values[h + zeros - 1..] == [0] + values[h + zeros..];
    }
  }

  // ---- an embedded IPv4 address ----

  /** A part of a dotted quad: up to three decimal digits. */
  predicate Decimals(s: string) {
    0 < |s| <= 3 && forall i :: 0 <= i < |s| ==> '0' <= s[i] <= '9'
  }

  function DecPrefix(s: string, acc: nat): nat
    requires forall i :: 0 <= i < |s| ==> '0' <= s[i] <= '9'
    decreases |s|
  {
    if s == "" then acc else DecPrefix(s[1..], acc * 10 + ((s[0] as int) - ('0' as int)))
  }

  /** Hexadecimal reading stops at the dot. */
  lemma {:induction false} HexStopsAtDot(first: string, rest: string, acc: nat)
    requires forall i :: 0 <= i < |first| ==> '0' <= first[i] <= '9'
    ensures HexPrefix(first + ("." + rest), acc) == HexPrefix(first, acc)
    decreases |first|
  {
    if first == "" {
      assert first + ("." + rest) == "." + rest && ("." + rest)[0] == '.';
    } else {
      assert (first + ("." + rest))[1..] == first[1..] + ("." + rest);
      HexStopsAtDot(first[1..], rest, acc * 16 + HexDigit(first[0]).value);
    }
  }

  /** The hexadecimal reading of decimal digits is zero exactly when the decimal one is. */
  lemma {:induction false} BothZero(s: string, acc: nat, dec: nat)
    requires |s| <= 3 && forall i :: 0 <= i < |s| ==> '0' <= s[i] <= '9'
    requires (acc == 0 <==> dec == 0) && acc < [4096, 256, 16, 1][|s|]
    ensures HexPrefix(s, acc) < 4096
    ensures HexPrefix(s, acc) == 0 <==> DecPrefix(s, dec) == 0
    decreases |s|
  {
    if s != "" {
      var d := (s[0] as int) - ('0' as int);
      BothZero(s[1..], acc * 16 + d, dec * 10 + d);
    }
  }

  /** A dotted quad at the end (form 3 of section 2.2 of RFC 4291) is read as one group, by
      the hexadecimal value of its first part. The result is the number written, whose
      last 32 bits are the quad, exactly when the groups after `::` and the quad are zero.
      Without `::`, where six groups and a quad are an address, the text is refused. */
  lemma {:induction false} DottedQuadIsMisread(head: seq<string>, tail: seq<string>, first: string, rest: string, low: nat)
    requires HexGroups(head) && HexGroups(tail) && |head| + |tail| <= 6
    requires Decimals(first) && low < 0x1000000
    ensures var r := Expanded([head, tail + [first + ("." + rest)]]);
            var quad := DecPrefix(first, 0) * 0x1000000 + low;
            var top := ShiftLeft(GroupsNumber(Values(head)), 16 * (8 - |head|));
            && r.Some?
            && (Number(r.value) == top + GroupsNumber(Values(tail)) * 0x1_0000_0000 + quad
                <==> GroupsNumber(Values(tail)) == 0 && quad == 0)
    ensures |head| == 6 ==> Expanded([head + [first + ("." + rest)]]) == None
  {
    var quadText := first + ("." + rest);
    HexStopsAtDot(first, rest, 0);
    BothZero(first, 0, 0);
    HexGroupsReadable(head);
    HexGroupsReadable(tail);
    QuadAsGroup(head, tail, quadText);
  }

  lemma {:induction false} TailAppend(tail: seq<string>, g: string)
    requires ReadableGroups(tail) && Readable(g)
    ensures ReadableGroups(tail + [g])
    ensures GroupsNumber(Values(tail + [g])) == GroupsNumber(Values(tail)) * 65536 + Value(g)
  {
    assert Values(tail + [g]) == Values(tail) + [Value(g)];
    GroupsAppend(Values(tail), Value(g));
  }

  lemma {:induction false} QuadAsGroup(head: seq<string>, tail: seq<string>, quadText: string)
    requires ReadableGroups(head) && ReadableGroups(tail) && |head| + |tail| <= 7 && Readable(quadText)
    ensures var r := Expanded([head, tail + [quadText]]);
            && r.Some?
            && Number(r.value) == ShiftLeft(GroupsNumber(Values(head)), 16 * (8 - |head|))
                                    + GroupsNumber(Values(tail)) * 65536 + Value(quadText)
  {
    TailAppend(tail, quadText);
    ReadableKeepsValue(head, tail + [quadText]);
  }

  // ---- membership ----

  /** The text after the slash, as a number: absent, whole, or not a number. */
  datatype Prefix = Absent | Whole(bits: int) | NotANumber

  /** The bytes of the two addresses, where they are addresses. */
  method IpInCidr(ip: Option<seq<Byte>>, range: Option<seq<Byte>>, prefix: Prefix) returns (inside: bool)
    ensures inside <==> Inside(ip, range, prefix)
    ensures inside ==> ip.Some? && range.Some? && |ip.value| == |range.value|
    ensures prefix.Absent? ==> (inside <==> ip.Some? && ip == range)
  {
    if ip.None? || range.None? || |ip.value| != |range.value| {
      return false;
    }
    match prefix {
      case Absent =>
        inside := SameNetwork(ip.value, range.value, |ip.value| * 8);
        WholeAddress(ip.value, range.value);
      case Whole(bits) =>
        inside := SameNetwork(ip.value, range.value, bits);
      case NotANumber =>
        return true;
    }
  }

  /** An address is in a range when they are of one family and agree in the prefix; a bare
      address is a range of one; and a length that is not a number compares nothing. */
  predicate Inside(ip: Option<seq<Byte>>, range: Option<seq<Byte>>, prefix: Prefix) {
    && ip.Some? && range.Some? && |ip.value| == |range.value|
    && match prefix
       case Absent => ip == range
       case Whole(bits) => Agree(ip.value, range.value, bits)
       case NotANumber => true
  }

  lemma {:induction false} WholeAddress(a: seq<Byte>, b: seq<Byte>)
    requires |a| == |b|
    ensures Agree(a, b, |a| * 8) <==> a == b
  {
    NumberInjective(a, b);
  }

  /** Two bytes that differ in the top bit differ in every prefix. */
  lemma {:induction false} TopBitMatters(x: Byte, y: Byte, take: nat)
    requires 0 < take <= 8 && x / 128 != y / 128
    ensures BitAnd(x, Mask(take)) != BitAnd(y, Mask(take))
  {
    MaskedEqual(x, y, take);
    ShiftRightTwice(x, 8 - take, take - 1);
    ShiftRightTwice(y, 8 - take, take - 1);
    ShiftIsDivision(x, 7);
    ShiftIsDivision(y, 7);
    assert Pow2(7) == 128;
  }

  lemma {:induction false} SomeoneIsOutside(range: seq<Byte>, bits: int)
    requires range != [] && bits > 0
    ensures exists ip :: |ip| == |range| && !Inside(Some(ip), Some(range), Whole(bits))
  {
    var first: int := range[0];
    var other: Byte := if first < 128 then first + 128 else first - 128;
    var ip := range[0 := other];
    TopBitMatters(other, range[0], if bits < 8 then bits else 8);
    MatchesIsAgree(ip, range, bits);
    assert !Inside(Some(ip), Some(range), Whole(bits));
  }

  /** A range whose length is not a number admits its whole family: it stands for the same
      addresses as a range with a length exactly when that length is zero or less. */
  lemma {:induction false} MalformedLengthIsLengthZero(range: seq<Byte>, bits: int)
    requires range != []
    ensures (forall ip :: Inside(Some(ip), Some(range), NotANumber) <==> Inside(Some(ip), Some(range), Whole(bits)))
       <==> bits <= 0
  {
    if bits <= 0 {
      forall ip: seq<Byte> | |ip| == |range| ensures Agree(ip, range, bits) {
        MatchesIsAgree(ip, range, bits);
      }
    } else {
      SomeoneIsOutside(range, bits);
    }
  }
}
