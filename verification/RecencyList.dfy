/**
 The least-recently-used discipline on a plain list of entries, most recent first:
 what each cache operation does to the list, and why its last entry is the one whose
 last use is longest ago.
 */
module RecencyList {
  import opened Prelude

  /** A cached value is identified with its JSON text. */
  datatype CacheEntry = CacheEntry(value: string, storedAt: int, expiresAt: int)

  datatype Slot = Slot(key: string, entry: CacheEntry)

  ghost predicate DistinctKeys(list: seq<Slot>) {
    forall i, j :: 0 <= i < j < |list| ==> list[i].key != list[j].key
  }

  function Find(list: seq<Slot>, key: string): Option<CacheEntry> {
    if list == [] then None
    else if list[0].key == key then Some(list[0].entry)
    else Find(list[1..], key)
  }

  predicate HasKey(list: seq<Slot>, key: string) { Find(list, key).Some? }

  function Without(list: seq<Slot>, key: string): (r: seq<Slot>)
    ensures forall i :: 0 <= i < |r| ==> r[i] in list && r[i].key != key
  {
    if list == [] then []
    else if list[0].key == key then Without(list[1..], key)
    else [list[0]] + Without(list[1..], key)
  }

  function WithoutPrefix(list: seq<Slot>, prefix: string): (r: seq<Slot>)
    ensures forall i :: 0 <= i < |r| ==> r[i] in list && !(prefix <= r[i].key)
  {
    if list == [] then []
    else if prefix <= list[0].key then WithoutPrefix(list[1..], prefix)
    else [list[0]] + WithoutPrefix(list[1..], prefix)
  }

  // ---- the operations ----

  predicate Live(e: CacheEntry, now: int) { e.expiresAt > now }

  function Hit(list: seq<Slot>, key: string, now: int): Option<CacheEntry> {
    var e := Find(list, key);
    if e.Some? && Live(e.value, now) then e else None
  }

  predicate Expired(list: seq<Slot>, key: string, now: int) {
    Find(list, key).Some? && Hit(list, key, now).None?
  }

  function Get(list: seq<Slot>, key: string, now: int): seq<Slot> {
    if Hit(list, key, now).Some? then [Slot(key, Hit(list, key, now).value)] + Without(list, key)
    else Without(list, key)
  }

  function Set(list: seq<Slot>, key: string, entry: CacheEntry, maxItems: int): seq<Slot> {
    var moved := [Slot(key, entry)] + Without(list, key);
    if !HasKey(list, key) && |moved| > maxItems then moved[..|moved| - 1] else moved
  }

  function Has(list: seq<Slot>, key: string, now: int): seq<Slot> {
    if Expired(list, key, now) then Without(list, key) else list
  }

  lemma {:induction false} WithoutAbsent(list: seq<Slot>, key: string)
    requires forall i :: 0 <= i < |list| ==> list[i].key != key
    ensures Without(list, key) == list && Find(list, key) == None
  {
    if list != [] {
      var rest := list[1..];
      assert list[0].key != key;
      WithoutAbsent(rest, key);
      assert Without(list, key) == [list[0]] + rest;
    }
  }

  /** In a list with distinct keys, removing a key removes the one slot that has it. */
  lemma {:induction false} WithoutAt(list: seq<Slot>, k: nat)
    requires DistinctKeys(list) && k < |list|
    ensures Without(list, list[k].key) == list[..k] + list[k + 1..]
  {
    if k == 0 {
      WithoutAbsent(list[1..], list[0].key);
    } else {
      WithoutAt(list[1..], k - 1);
    }
  }

  lemma {:induction false} FindAt(list: seq<Slot>, k: nat)
    requires DistinctKeys(list) && k < |list|
    ensures Find(list, list[k].key) == Some(list[k].entry)
  {
    if k > 0 {
      FindAt(list[1..], k - 1);
    }
  }

  // ---- removing by prefix, one key at a time ----

  /** The list without the slots whose key has the prefix and is among `gone`. */
  function WithoutSome(list: seq<Slot>, prefix: string, gone: set<string>): seq<Slot> {
    if list == [] then []
    else if prefix <= list[0].key && list[0].key in gone then WithoutSome(list[1..], prefix, gone)
    else [list[0]] + WithoutSome(list[1..], prefix, gone)
  }

  lemma {:induction false} WithoutSomeNone(list: seq<Slot>, prefix: string)
    ensures WithoutSome(list, prefix, {}) == list
  {
    if list != [] {
      WithoutSomeNone(list[1..], prefix);
    }
  }

  lemma {:induction false} WithoutSomeStep(list: seq<Slot>, prefix: string, gone: set<string>, key: string)
    ensures WithoutSome(list, prefix, gone + {key})
         == if prefix <= key then Without(WithoutSome(list, prefix, gone), key) else WithoutSome(list, prefix, gone)
  {
    if list != [] {
      WithoutSomeStep(list[1..], prefix, gone, key);
      HeadTail(list[0], WithoutSome(list[1..], prefix, gone));
    }
  }

  lemma {:induction false} WithoutSomeAll(list: seq<Slot>, prefix: string, gone: set<string>)
    requires forall i :: 0 <= i < |list| ==> list[i].key in gone
    ensures WithoutSome(list, prefix, gone) == WithoutPrefix(list, prefix)
  {
    if list != [] {
      WithoutSomeAll(list[1..], prefix, gone);
    }
  }

  // ---- histories ----

  datatype Use =
    | UseGet(key: string, now: int)
    | UseSet(key: string, entry: CacheEntry)
    | UseDelete(key: string)
    | UseDeletePrefix(prefix: string)
    | UseHas(key: string, now: int)

  function Apply(list: seq<Slot>, use: Use, maxItems: int): seq<Slot> {
    match use
    case UseGet(key, now) => Get(list, key, now)
    case UseSet(key, entry) => Set(list, key, entry, maxItems)
    case UseDelete(key) => Without(list, key)
    case UseDeletePrefix(prefix) => WithoutPrefix(list, prefix)
    case UseHas(key, now) => Has(list, key, now)
  }

  function ListAfter(uses: seq<Use>, maxItems: int): seq<Slot> {
    if uses == [] then [] else Apply(ListAfter(uses[..|uses| - 1], maxItems), uses[|uses| - 1], maxItems)
  }

  /** Whether the last of the given operations uses the key: a write, or a read that hits. */
  predicate UsesKey(uses: seq<Use>, key: string, maxItems: int)
    requires uses != []
  {
    var use := uses[|uses| - 1];
    match use
    case UseGet(k, now) => k == key && Hit(ListAfter(uses[..|uses| - 1], maxItems), key, now).Some?
    case UseSet(k, _) => k == key
    case _ => false
  }

  /** How many operations had been done when the key was last used; 0 if never. */
  function LastUse(uses: seq<Use>, key: string, maxItems: int): (n: nat)
    ensures n <= |uses|
  {
    if uses == [] then 0
    else if UsesKey(uses, key, maxItems) then |uses|
    else LastUse(uses[..|uses| - 1], key, maxItems)
  }

  /** The slots are in strictly falling order of a positive stamp of their keys. */
  ghost predicate Falling(list: seq<Slot>, stamp: string -> nat) {
    && (forall i :: 0 <= i < |list| ==> stamp(list[i].key) > 0)
    && (forall i, j :: 0 <= i < j < |list| ==> stamp(list[i].key) > stamp(list[j].key))
  }

  lemma {:induction false} FallingWithout(list: seq<Slot>, key: string, stamp: string -> nat)
    requires Falling(list, stamp)
    ensures Falling(Without(list, key), stamp)
  {
    if list != [] {
      FallingWithout(list[1..], key, stamp);
    }
  }

  lemma {:induction false} FallingWithoutPrefix(list: seq<Slot>, prefix: string, stamp: string -> nat)
    requires Falling(list, stamp)
    ensures Falling(WithoutPrefix(list, prefix), stamp)
  {
    if list != [] {
      FallingWithoutPrefix(list[1..], prefix, stamp);
    }
  }

  lemma {:induction false} FallingRestamped(list: seq<Slot>, stamp: string -> nat, stamp': string -> nat)
    requires Falling(list, stamp) && forall i :: 0 <= i < |list| ==> stamp'(list[i].key) == stamp(list[i].key)
    ensures Falling(list, stamp')
  {
  }

  /** Using a key last puts it in front of everything else. */
  lemma {:induction false} FallingUsed(list: seq<Slot>, s: Slot, n: nat, stamp: string -> nat, stamp': string -> nat)
    requires Falling(list, stamp) && (forall key :: stamp(key) <= n) && stamp'(s.key) == n + 1
    requires forall key :: key != s.key ==> stamp'(key) == stamp(key)
    ensures Falling([s] + Without(list, s.key), stamp')
  {
    FallingWithout(list, s.key, stamp);
    FallingRestamped(Without(list, s.key), stamp, stamp');
  }

  /** The operation neither writes nor hits: it can only remove slots. */
  predicate OnlyRemoves(list: seq<Slot>, use: Use) {
    match use
    case UseGet(key, now) => Hit(list, key, now).None?
    case UseSet(_, _) => false
    case _ => true
  }

  lemma {:induction false} FallingRemoved(list: seq<Slot>, use: Use, maxItems: int, stamp: string -> nat)
    requires Falling(list, stamp) && OnlyRemoves(list, use)
    ensures Falling(Apply(list, use, maxItems), stamp)
  {
    match use
    case UseGet(key, _) => FallingWithout(list, key, stamp);
    case UseDelete(key) => FallingWithout(list, key, stamp);
    case UseDeletePrefix(prefix) => FallingWithoutPrefix(list, prefix, stamp);
    case UseHas(key, _) => FallingWithout(list, key, stamp);
    case UseSet(_, _) => assert false;
  }

  /** The slot a write or a hit puts in front. */
  function UsedSlot(list: seq<Slot>, use: Use): Slot
    requires !OnlyRemoves(list, use)
  {
    match use
    case UseGet(key, now) => Slot(key, Hit(list, key, now).value)
    case UseSet(key, entry) => Slot(key, entry)
  }

  lemma {:induction false} FallingFront(list: seq<Slot>, use: Use, maxItems: int, s: Slot, stamp: string -> nat)
    requires !OnlyRemoves(list, use) && s == UsedSlot(list, use)
    requires Falling([s] + Without(list, s.key), stamp)
    ensures Falling(Apply(list, use, maxItems), stamp)
  {
  }

  /** After any operations the list is ordered by last use, most recent first: so the
      entry evicted when it is full is the one whose last use is longest ago. */
  lemma {:induction false} ListIsByLastUse(uses: seq<Use>, maxItems: int)
    ensures Falling(ListAfter(uses, maxItems), key => LastUse(uses, key, maxItems))
  {
    if uses != [] {
      var before := uses[..|uses| - 1];
      var use, list := uses[|uses| - 1], ListAfter(before, maxItems);
      var earlier, later := key => LastUse(before, key, maxItems), key => LastUse(uses, key, maxItems);
      ListIsByLastUse(before, maxItems);
      if OnlyRemoves(list, use) {
        assert forall key :: later(key) == earlier(key);
        FallingRemoved(list, use, maxItems, earlier);
        FallingRestamped(Apply(list, use, maxItems), earlier, later);
      } else {
        var s := UsedSlot(list, use);
        assert forall key :: UsesKey(uses, key, maxItems) <==> key == s.key;
        FallingUsed(list, s, |before|, earlier, later);
        FallingFront(list, use, maxItems, s, later);
      }
    }
  }

  // ---- what is found ----

  lemma {:induction false} FindWithout(list: seq<Slot>, key: string, k: string)
    ensures Find(Without(list, key), k) == if k == key then None else Find(list, k)
  {
    if list != [] {
      FindWithout(list[1..], key, k);
      HeadTail(list[0], Without(list[1..], key));
    }
  }

  lemma {:induction false} FindWithoutPrefix(list: seq<Slot>, prefix: string, k: string)
    ensures Find(WithoutPrefix(list, prefix), k) == if prefix <= k then None else Find(list, k)
  {
    if list != [] {
      FindWithoutPrefix(list[1..], prefix, k);
      HeadTail(list[0], WithoutPrefix(list[1..], prefix));
    }
  }

  lemma {:induction false} FindCons(s: Slot, list: seq<Slot>, k: string)
    ensures Find([s] + list, k) == if s.key == k then Some(s.entry) else Find(list, k)
  {
    HeadTail(s, list);
  }

  lemma {:induction false} FindAbsent(list: seq<Slot>, k: string)
    ensures Find(list, k).None? <==> forall i :: 0 <= i < |list| ==> list[i].key != k
  {
    if list != [] {
      FindAbsent(list[1..], k);
      assert forall i :: 0 < i < |list| ==> list[i] == list[1..][i - 1];
      assert forall i :: 0 <= i < |list[1..]| ==> list[1..][i] == list[i + 1];
    }
  }

  /** Cutting off the last slot loses the key of that slot and no other. */
  lemma {:induction false} FindCut(list: seq<Slot>, k: string)
    requires DistinctKeys(list) && list != []
    ensures var n := |list| - 1; Find(list[..n], k) == if list[n].key == k then None else Find(list, k)
  {
    var n := |list| - 1;
    if n > 0 {
      FindCut(list[1..], k);
      assert list[..n][1..] == list[1..][..n - 1];
    } else {
      assert list[..0] == [] && list[1..] == [];
    }
  }

  lemma {:induction false} DistinctWithout(list: seq<Slot>, key: string)
    requires DistinctKeys(list)
    ensures DistinctKeys(Without(list, key))
    ensures |Without(list, key)| == |list| - if HasKey(list, key) then 1 else 0
  {
    if list != [] {
      DistinctWithout(list[1..], key);
      if list[0].key == key {
        WithoutAbsent(list[1..], key);
      }
    }
  }

  lemma {:induction false} DistinctCons(s: Slot, list: seq<Slot>)
    requires DistinctKeys(list) && forall i :: 0 <= i < |list| ==> list[i].key != s.key
    ensures DistinctKeys([s] + list)
  {
  }

  /** A new slot in front of a list whose last slot is cut off. */
  lemma {:induction false} FindPushed(s: Slot, list: seq<Slot>, k: string)
    requires DistinctKeys(list) && list != [] && !HasKey(list, s.key)
    ensures Find(([s] + list)[..|list|], k) ==
      if k == s.key then Some(s.entry) else if list[|list| - 1].key == k then None else Find(list, k)
  {
    FindAbsent(list, s.key);
    DistinctCons(s, list);
    FindCut([s] + list, k);
    FindCons(s, list, k);
  }

  lemma {:induction false} SetPushes(list: seq<Slot>, key: string, entry: CacheEntry, maxItems: int)
    requires !HasKey(list, key) && |list| >= maxItems
    ensures Set(list, key, entry, maxItems) == ([Slot(key, entry)] + list)[..|list|]
  {
    FindAbsent(list, key);
    WithoutAbsent(list, key);
  }

  lemma {:induction false} SetMoves(list: seq<Slot>, key: string, entry: CacheEntry, maxItems: int)
    requires DistinctKeys(list) && (HasKey(list, key) || |list| < maxItems)
    ensures Set(list, key, entry, maxItems) == [Slot(key, entry)] + Without(list, key)
  {
    DistinctWithout(list, key);
  }

  /** After a write the key has what was written, and every other key has what it had,
      unless the key is new, the list full and the other key its last. */
  lemma {:induction false} FindAfterSet(list: seq<Slot>, key: string, entry: CacheEntry, maxItems: int, k: string)
    requires DistinctKeys(list) && maxItems >= 1
    ensures Find(Set(list, key, entry, maxItems), k) ==
      if k == key then Some(entry)
      else if !HasKey(list, key) && |list| >= maxItems && list[|list| - 1].key == k then None
      else Find(list, k)
  {
    if !HasKey(list, key) && |list| >= maxItems {
      SetPushes(list, key, entry, maxItems);
      FindPushed(Slot(key, entry), list, k);
    } else {
      SetMoves(list, key, entry, maxItems);
      FindWithout(list, key, k);
      FindCons(Slot(key, entry), Without(list, key), k);
    }
  }

  /** A history's own account of a key: the last entry written for it, unless it was deleted
      since, or read or looked for at or after its expiry. */
  function Stored(uses: seq<Use>, key: string): Option<CacheEntry> {
    if uses == [] then None
    else
      var was := Stored(uses[..|uses| - 1], key);
      match uses[|uses| - 1]
      case UseSet(k, entry) => if k == key then Some(entry) else was
      case UseDelete(k) => if k == key then None else was
      case UseDeletePrefix(prefix) => if prefix <= key then None else was
      case UseGet(k, now) => if k == key && was.Some? && was.value.expiresAt <= now then None else was
      case UseHas(k, now) => if k == key && was.Some? && was.value.expiresAt <= now then None else was
  }

  /** The key was read while it had an entry that had not expired. */
  predicate ReadsStored(uses: seq<Use>, key: string, now: int) {
    Stored(uses, key).Some? && Stored(uses, key).value.expiresAt > now
  }

  /** The other keys written, or read while they had an entry, since the key was last
      written, or read with fewer than `maxItems` others used since. */
  function OthersUsed(uses: seq<Use>, key: string, maxItems: int): set<string> {
    if uses == [] then {}
    else
      var front := uses[..|uses| - 1];
      var others := OthersUsed(front, key, maxItems);
      match uses[|uses| - 1]
      case UseSet(k, _) => if k == key then {} else others + {k}
      case UseGet(k, now) =>
        if !ReadsStored(front, k, now) then others
        else if k != key then others + {k}
        else if |others| < maxItems then {}
        else others
      case _ => others
  }

  /** The keys in front of the key. */
  function Ahead(list: seq<Slot>, key: string): set<string> {
    if list == [] || list[0].key == key then {} else {list[0].key} + Ahead(list[1..], key)
  }

  lemma {:induction false} AheadWithout(list: seq<Slot>, gone: string, key: string)
    ensures gone != key ==> Ahead(Without(list, gone), key) <= Ahead(list, key)
  {
    if list != [] {
      AheadWithout(list[1..], gone, key);
      HeadTail(list[0], Without(list[1..], gone));
    }
  }

  lemma {:induction false} AheadWithoutPrefix(list: seq<Slot>, prefix: string, key: string)
    ensures !(prefix <= key) ==> Ahead(WithoutPrefix(list, prefix), key) <= Ahead(list, key)
  {
    if list != [] {
      AheadWithoutPrefix(list[1..], prefix, key);
      HeadTail(list[0], WithoutPrefix(list[1..], prefix));
    }
  }

  lemma {:induction false} AheadCons(s: Slot, list: seq<Slot>, key: string)
    ensures Ahead([s] + list, key) == if s.key == key then {} else {s.key} + Ahead(list, key)
  {
    HeadTail(s, list);
  }

  lemma {:induction false} AheadCut(list: seq<Slot>, key: string)
    requires list != []
    ensures Ahead(list[..|list| - 1], key) <= Ahead(list, key)
  {
    var n := |list| - 1;
    if n > 0 {
      AheadCut(list[1..], key);
      assert list[..n][1..] == list[1..][..n - 1];
    } else {
      assert list[..0] == [];
    }
  }

  /** All the other keys are in front of the last. */
  lemma {:induction false} AheadOfLast(list: seq<Slot>, key: string)
    requires DistinctKeys(list) && list != [] && list[|list| - 1].key == key
    ensures |Ahead(list, key)| == |list| - 1
    ensures forall k :: k in Ahead(list, key) ==> HasKey(list, k)
  {
    if |list| > 1 {
      AheadOfLast(list[1..], key);
      forall k | k in Ahead(list[1..], key) ensures k != list[0].key {
        FindAbsent(list[1..], k);
      }
    }
  }

  /** The list holds of the key what the history says, behind no keys but those used since,
      and it does hold it as long as those are few enough. */
  ghost predicate Agrees(list: seq<Slot>, uses: seq<Use>, key: string, maxItems: int) {
    && (HasKey(list, key) ==>
          Find(list, key) == Stored(uses, key) && Ahead(list, key) <= OthersUsed(uses, key, maxItems))
    && (Stored(uses, key).Some? && |OthersUsed(uses, key, maxItems)| < maxItems ==> HasKey(list, key))
  }

  lemma {:induction false} SetAgrees(
      list: seq<Slot>, uses: seq<Use>, front: seq<Use>, k: string, entry: CacheEntry, key: string, maxItems: int)
    requires DistinctKeys(list) && |list| <= maxItems && maxItems >= 1
    requires uses == front + [UseSet(k, entry)] && Agrees(list, front, key, maxItems)
    ensures Agrees(Set(list, k, entry, maxItems), uses, key, maxItems)
  {
    var moved := [Slot(k, entry)] + Without(list, k);
    assert uses[..|uses| - 1] == front;
    FindAfterSet(list, k, entry, maxItems, key);
    AheadWithout(list, k, key);
    AheadCons(Slot(k, entry), Without(list, k), key);
    AheadCut(moved, key);
    if k != key {
      OthersGrow(front, key, k, maxItems);
      if !HasKey(list, k) && |list| >= maxItems && list[|list| - 1].key == key {
        AheadOfLast(list, key);
        FindAt(list, |list| - 1);
        FullAhead(list, key, k, OthersUsed(front, key, maxItems));
      }
    }
  }

  lemma {:induction false} OthersGrow(uses: seq<Use>, key: string, k: string, maxItems: int)
    ensures |OthersUsed(uses, key, maxItems)| <= |OthersUsed(uses, key, maxItems) + {k}|
  {
    SubsetSize(OthersUsed(uses, key, maxItems), OthersUsed(uses, key, maxItems) + {k});
  }

  /** A new key and those in front of the last one are as many as the list is long. */
  lemma {:induction false} FullAhead(list: seq<Slot>, key: string, k: string, others: set<string>)
    requires list != [] && |Ahead(list, key)| == |list| - 1 && !HasKey(list, k)
    requires forall a :: a in Ahead(list, key) ==> HasKey(list, a)
    requires Ahead(list, key) <= others
    ensures |others + {k}| >= |list|
  {
    SubsetSize(Ahead(list, key) + {k}, others + {k});
  }

  lemma {:induction false} GetAgrees(
      list: seq<Slot>, uses: seq<Use>, front: seq<Use>, k: string, now: int, key: string, maxItems: int)
    requires DistinctKeys(list) && maxItems >= 1 && uses == front + [UseGet(k, now)]
    requires Agrees(list, front, key, maxItems) && Agrees(list, front, k, maxItems)
    ensures Agrees(Get(list, k, now), uses, key, maxItems)
  {
    assert uses[..|uses| - 1] == front;
    FindWithout(list, k, key);
    AheadWithout(list, k, key);
    OthersGrow(front, key, k, maxItems);
    if Hit(list, k, now).Some? {
      var s := Slot(k, Hit(list, k, now).value);
      FindCons(s, Without(list, k), key);
      AheadCons(s, Without(list, k), key);
    }
  }

  lemma {:induction false} RemovalAgrees(list: seq<Slot>, uses: seq<Use>, front: seq<Use>, use: Use, key: string, maxItems: int)
    requires use.UseDelete? || use.UseDeletePrefix? || use.UseHas?
    requires uses == front + [use] && Agrees(list, front, key, maxItems)
    ensures Agrees(Apply(list, use, maxItems), uses, key, maxItems)
  {
    assert uses[..|uses| - 1] == front;
    match use
    case UseDelete(k) =>
      FindWithout(list, k, key);
      AheadWithout(list, k, key);
    case UseDeletePrefix(prefix) =>
      FindWithoutPrefix(list, prefix, key);
      AheadWithoutPrefix(list, prefix, key);
    case UseHas(k, now) =>
      FindWithout(list, k, key);
      AheadWithout(list, k, key);
  }

  lemma {:induction false} ListIsDistinct(uses: seq<Use>, maxItems: int)
    requires maxItems >= 1
    ensures DistinctKeys(ListAfter(uses, maxItems)) && |ListAfter(uses, maxItems)| <= maxItems
  {
    ListIsByLastUse(uses, maxItems);
    if uses != [] {
      var front, use := uses[..|uses| - 1], uses[|uses| - 1];
      ListIsDistinct(front, maxItems);
      LengthAfter(ListAfter(front, maxItems), use, maxItems);
    }
  }

  lemma {:induction false} LengthAfter(list: seq<Slot>, use: Use, maxItems: int)
    requires maxItems >= 1 && DistinctKeys(list) && |list| <= maxItems
    ensures |Apply(list, use, maxItems)| <= maxItems
  {
    match use
    case UseDeletePrefix(prefix) => PrefixLength(list, prefix);
    case UseGet(k, _) => DistinctWithout(list, k);
    case UseSet(k, _) => DistinctWithout(list, k);
    case UseDelete(k) => DistinctWithout(list, k);
    case UseHas(k, _) => DistinctWithout(list, k);
  }

  lemma {:induction false} PrefixLength(list: seq<Slot>, prefix: string)
    ensures |WithoutPrefix(list, prefix)| <= |list|
  {
    if list != [] {
      PrefixLength(list[1..], prefix);
    }
  }

  lemma {:induction false} EveryKeyAgrees(uses: seq<Use>, key: string, maxItems: int)
    requires maxItems >= 1
    ensures Agrees(ListAfter(uses, maxItems), uses, key, maxItems)
  {
    if uses != [] {
      var front, use := uses[..|uses| - 1], uses[|uses| - 1];
      var list := ListAfter(front, maxItems);
      assert uses == front + [use];
      EveryKeyAgrees(front, key, maxItems);
      ListIsDistinct(front, maxItems);
      match use
      case UseSet(k, entry) => SetAgrees(list, uses, front, k, entry, key, maxItems);
      case UseGet(k, now) =>
        EveryKeyAgrees(front, k, maxItems);
        GetAgrees(list, uses, front, k, now, key, maxItems);
      case _ => RemovalAgrees(list, uses, front, use, key, maxItems);
    }
  }

  /** In every history, what is found of a key is the last entry written for it, and that
      is found until it is deleted, met after its expiry, or `maxItems` other keys have been
      used since its last use. */
  lemma {:induction false} LastWriteIsFound(uses: seq<Use>, key: string, maxItems: int)
    requires maxItems >= 1
    ensures var found := Find(ListAfter(uses, maxItems), key);
      && (found == None || found == Stored(uses, key))
      && (|OthersUsed(uses, key, maxItems)| < maxItems ==> found == Stored(uses, key))
  {
    EveryKeyAgrees(uses, key, maxItems);
  }
}
