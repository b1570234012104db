/** The bytewise order of keys that listings are sorted by. */
module KeyOrder {
  import opened EntryFormat
  import opened Sorting

  type Key = seq<byte>

  predicate Le(a: Key, b: Key) {
    a == [] || (b != [] && (a[0] < b[0] || (a[0] == b[0] && Le(a[1..], b[1..]))))
  }

  lemma {:induction false} LeTotal(a: Key, b: Key)
    ensures Le(a, b) || Le(b, a)
    ensures Le(a, b) && Le(b, a) ==> a == b
  {
    if a != [] && b != [] {
      LeTotal(a[1..], b[1..]);
      assert a == [a[0]] + a[1..] && b == [b[0]] + b[1..];
    }
  }

  lemma {:induction false} LeTransitive(a: Key, b: Key, c: Key)
    requires Le(a, b) && Le(b, c)
    ensures Le(a, c)
  {
    if a != [] && a[0] == b[0] == c[0] {
      LeTransitive(a[1..], b[1..], c[1..]);
    }
  }

  lemma LeIsOrder()
    ensures TotalOrder(Le)
  {
    forall a, b ensures Le(a, b) || Le(b, a) {
      LeTotal(a, b);
    }
    forall a, b, c | Le(a, b) && Le(b, c) ensures Le(a, c) {
      LeTransitive(a, b, c);
    }
  }
}

/** The sorted listing of a shard's keys, which every call computes anew. */
module Listings {
  import opened Sorting
  import opened KeyOrder

  ghost predicate Lists(keys: seq<Key>, m: multiset<Key>) {
    Sorted(Le, keys) && multiset(keys) == m
  }

  /** A collection of keys has only one listing, so positions in it keep their meaning from call to call. */
  lemma {:induction false} ListingUnique(a: seq<Key>, b: seq<Key>, m: multiset<Key>)
    requires Lists(a, m) && Lists(b, m)
    ensures a == b
    decreases |a|
  {
    SameLength(a, b);
    if a != [] {
      HeadsAgree(a, b);
      assert a == [a[0]] + a[1..] && b == [b[0]] + b[1..];
      assert multiset(a[1..]) == m - multiset{a[0]} && multiset(b[1..]) == m - multiset{b[0]};
      ListingUnique(a[1..], b[1..], m - multiset{a[0]});
    }
  }

  lemma HeadsAgree(a: seq<Key>, b: seq<Key>)
    requires Sorted(Le, a) && Sorted(Le, b) && multiset(a) == multiset(b) && a != [] && b != []
    ensures a[0] == b[0]
  {
    SameElements(a, b, a[0]);
    SameElements(a, b, b[0]);
    var i :| 0 <= i < |b| && b[i] == a[0];
    var j :| 0 <= j < |a| && a[j] == b[0];
    LeTotal(a[0], b[0]);
  }

  /** The keys in whatever order the map gives them, sorted. */
  method ListKeys(m: multiset<Key>) returns (keys: seq<Key>)
    ensures Lists(keys, m) && |keys| == |m|
  {
    var rest, collected: seq<Key> := m, [];
    while rest != multiset{}
      invariant multiset(collected) + rest == m
      decreases |rest|
    {
      var k :| k in rest;
      rest, collected := rest - multiset{k}, collected + [k];
    }
    LeIsOrder();
    SortSorts(Le, collected);
    keys := Sort(Le, collected);
    assert |multiset(keys)| == |keys|;
  }
}

/** The cursor scan over sharded keys, as the cache and the object dictionary both run it. */
module CursorScan {
  import opened KeyOrder
  import opened Listings

  const POSITIONS := 0x1_0000_0000
  const DEFAULT_COUNT := 10

  /** The keys of each shard, and the listing of each shard. */
  type Contents = seq<multiset<Key>>
  type Shards = seq<seq<Key>>

  /** Shard indices and positions fit the two halves of a cursor. */
  predicate Addressable(contents: Contents) {
    |contents| < 0x8000_0000 && forall i | 0 <= i < |contents| :: |contents[i]| < POSITIONS
  }

  ghost predicate ListsAll(shards: Shards, contents: Contents) {
    && |shards| == |contents|
    && forall i | 0 <= i < |shards| :: Lists(shards[i], contents[i]) && |shards[i]| == |contents[i]|
  }

  function Flat(shards: Shards): seq<Key> {
    if shards == [] then [] else shards[0] + Flat(shards[1..])
  }

  function Select(wanted: Key -> bool, keys: seq<Key>): seq<Key> {
    if keys == [] then []
    else (if wanted(keys[0]) then [keys[0]] else []) + Select(wanted, keys[1..])
  }

  /** What is still to be scanned from a shard and a position in it. */
  function Rest(shards: Shards, shard: nat, position: nat): seq<Key> {
    if shard >= |shards| then []
    else (if position <= |shards[shard]| then shards[shard][position..] else []) + Flat(shards[shard + 1..])
  }

  function RestAt(shards: Shards, cursor: nat): seq<Key> {
    Rest(shards, cursor / POSITIONS, cursor % POSITIONS)
  }

  lemma RestCons(shards: Shards, shard: nat, i: nat)
    requires shard < |shards| && i < |shards[shard]|
    ensures Rest(shards, shard, i) == [shards[shard][i]] + Rest(shards, shard, i + 1)
  {
    hide Flat;
    var keys, tail := shards[shard], Flat(shards[shard + 1..]);
    assert Rest(shards, shard, i) == keys[i..] + tail && Rest(shards, shard, i + 1) == keys[i + 1..] + tail;
    assert keys[i..] + tail == [keys[i]] + (keys[i + 1..] + tail);
  }

  /** Scanning one key. */
  lemma RestStep(wanted: Key -> bool, shards: Shards, shard: nat, i: nat)
    requires shard < |shards| && i < |shards[shard]|
    ensures Rest(shards, shard, i) == [shards[shard][i]] + Rest(shards, shard, i + 1)
    ensures Select(wanted, Rest(shards, shard, i)) ==
            (if wanted(shards[shard][i]) then [shards[shard][i]] else []) + Select(wanted, Rest(shards, shard, i + 1))
  {
    hide Rest, Select;
    RestCons(shards, shard, i);
    SelectCons(wanted, shards[shard][i], Rest(shards, shard, i + 1));
  }

  lemma SelectCons(wanted: Key -> bool, k: Key, keys: seq<Key>)
    ensures Select(wanted, [k] + keys) == (if wanted(k) then [k] else []) + Select(wanted, keys)
  {
    assert ([k] + keys)[1..] == keys;
  }

  /** Leaving an exhausted shard. */
  lemma RestNextShard(shards: Shards, shard: nat, position: nat)
    requires shard < |shards| && position >= |shards[shard]|
    ensures Rest(shards, shard, position) == Rest(shards, shard + 1, 0)
  {
    if shard + 1 < |shards| {
      assert shards[shard + 1..][0] == shards[shard + 1] && shards[shard + 1..][1..] == shards[shard + 2..];
    } else {
      assert shards[shard + 1..] == [];
    }
  }

  /**
   * One call: the page and the rest behind the returned cursor make up what was left, in order; cursor 0
   * comes back only when nothing is left, and any other cursor with a full page, further on.
   */
  method Scan(contents: Contents, wanted: Key -> bool, cursor: nat, count: int, ghost shards: Shards)
    returns (page: seq<Key>, next: nat)
    requires Addressable(contents) && ListsAll(shards, contents)
    ensures next == 0 ==> Select(wanted, RestAt(shards, cursor)) == page
    ensures next != 0 ==> Select(wanted, RestAt(shards, cursor)) == page + Select(wanted, RestAt(shards, next))
    ensures next != 0 ==> |RestAt(shards, next)| < |RestAt(shards, cursor)|
    ensures next != 0 ==> |page| == if count <= 0 then DEFAULT_COUNT else count
  {
    hide Rest, Select, Lists, ListsAll, Addressable;
    ListedSizes(shards, contents);
    var limit := if count <= 0 then DEFAULT_COUNT else count;
    var shard: nat, position: nat := cursor / POSITIONS, cursor % POSITIONS;
    page := [];
    ghost var from := RestAt(shards, cursor);
    while shard < |contents| && |page| < limit
      invariant position < POSITIONS && |page| <= limit
      invariant Select(wanted, from) == page + Select(wanted, Rest(shards, shard, position))
      invariant |Rest(shards, shard, position)| + |page| <= |from|
      invariant |page| > 0 && shard < |shards| ==> shard > 0 || position > 0
      decreases |contents| - shard,
                if shard < |shards| && position < |shards[shard]| then |shards[shard]| - position else 0
    {
      var keys := ListKeys(contents[shard]);
      ListedAlike(keys, shards, contents, shard);
      var i := position;
      while i < |keys| && |page| < limit
        invariant i == position < POSITIONS && |page| <= limit
        invariant Select(wanted, from) == page + Select(wanted, Rest(shards, shard, position))
        invariant |Rest(shards, shard, position)| + |page| <= |from|
        invariant |page| > 0 ==> shard > 0 || position > 0
        decreases |keys| - i
      {
        RestStep(wanted, shards, shard, i);
        if wanted(keys[i]) {
          page := page + [keys[i]];
        }
        position := i + 1;
        i := i + 1;
      }
      if position >= |keys| {
        RestNextShard(shards, shard, position);
        shard, position := shard + 1, 0;
      }
    }
    if shard >= |contents| {
      next := 0;
      RestBeyond(wanted, shards, shard, position);
    } else {
      next := shard * POSITIONS + position;
      assert next / POSITIONS == shard && next % POSITIONS == position;
    }
  }

  lemma ListedSizes(shards: Shards, contents: Contents)
    requires ListsAll(shards, contents) && Addressable(contents)
    ensures |shards| == |contents| < 0x8000_0000
  {
  }

  lemma ListedAlike(keys: seq<Key>, shards: Shards, contents: Contents, shard: nat)
    requires ListsAll(shards, contents) && Addressable(contents) && shard < |contents| && Lists(keys, contents[shard])
    ensures |shards| == |contents| && keys == shards[shard] && |keys| < POSITIONS
  {
    hide Lists;
    ListingUnique(keys, shards[shard], contents[shard]);
  }

  lemma RestBeyond(wanted: Key -> bool, shards: Shards, shard: nat, position: nat)
    requires shard >= |shards|
    ensures Rest(shards, shard, position) == [] && Select(wanted, Rest(shards, shard, position)) == []
  {
  }

  /** All stored keys, with the number of times each is stored. */
  function Total(contents: Contents): multiset<Key> {
    if contents == [] then multiset{} else contents[0] + Total(contents[1..])
  }

  /** The listings one after the other hold every stored key as often as it is stored. */
  lemma {:induction false} FlatExact(shards: Shards, contents: Contents)
    requires ListsAll(shards, contents)
    ensures multiset(Flat(shards)) == Total(contents)
    decreases |shards|
  {
    if shards != [] {
      FlatExact(shards[1..], contents[1..]);
    }
  }

  /** Feeding each cursor back ends, and yields every stored key that matches, exactly as often as it is stored. */
  method ScanAll(contents: Contents, wanted: Key -> bool, counts: nat -> int) returns (all: seq<Key>, calls: nat)
    requires Addressable(contents)
    ensures forall k :: multiset(all)[k] == if wanted(k) then Total(contents)[k] else 0
  {
    hide Select, Rest, Flat, Total;
    var shards := ListedShards(contents);
    all, calls := [], 0;
    RestFromStart(shards);
    var page, cursor := Scan(contents, wanted, 0, counts(0), shards);
    all, calls := page, 1;
    while cursor != 0
      invariant Select(wanted, Flat(shards)) == all + if cursor == 0 then [] else Select(wanted, RestAt(shards, cursor))
      decreases cursor != 0, |RestAt(shards, cursor)|
    {
      page, cursor := Scan(contents, wanted, cursor, counts(calls), shards);
      all, calls := all + page, calls + 1;
    }
    FlatExact(shards, contents);
    SelectExact(wanted, Flat(shards));
  }

  lemma RestFromStart(shards: Shards)
    ensures RestAt(shards, 0) == Flat(shards)
  {
    if shards != [] {
      assert shards[0][0..] == shards[0];
    }
  }

  method ListedShards(contents: Contents) returns (shards: Shards)
    ensures ListsAll(shards, contents)
  {
    shards := [];
    for i := 0 to |contents|
      invariant ListsAll(shards, contents[..i])
    {
      var keys := ListKeys(contents[i]);
      shards := shards + [keys];
    }
    assert contents[..|contents|] == contents;
  }

  /** Selecting keeps exactly the matching keys, as often as they are there. */
  lemma {:induction false} SelectExact(wanted: Key -> bool, keys: seq<Key>)
    ensures forall k :: multiset(Select(wanted, keys))[k] == if wanted(k) then multiset(keys)[k] else 0
  {
    if keys != [] {
      SelectExact(wanted, keys[1..]);
      assert keys == [keys[0]] + keys[1..];
    }
  }
}

/** Scanning the cache: the keys of a shard are read from its ring through its index. */
module CacheScans {
  import opened Options
  import opened EntryFormat
  import opened RingModel
  import opened CacheModel
  import opened CacheRefinement
  import opened ShardedCaches
  import CursorScan
  import Decimal

  /** The key an index word leads to; inline counters are negative offsets and lead to none. */
  function KeyAt(s: Shard, h: uint64): Option<Key>
    requires h in s.index
  {
    match ReadAt(s.ring.data, ToInt64(s.index[h]))
    case None => None
    case Some(e) => Some(e.key)
  }

  function One(s: Shard, h: uint64): multiset<Key>
    requires h in s.index
  {
    if KeyAt(s, h).Some? then multiset{KeyAt(s, h).value} else multiset{}
  }

  /** The keys some of the index words lead to. */
  ghost function KeysOf(s: Shard, hs: set<uint64>): multiset<Key>
    requires hs <= s.index.Keys
    decreases |hs|
  {
    if hs == {} then multiset{}
    else
      var h :| h in hs;
      One(s, h) + KeysOf(s, hs - {h})
  }

  /** It does not matter in which order the index is gone through. */
  lemma {:induction false} KeysOfAny(s: Shard, hs: set<uint64>, g: uint64)
    requires hs <= s.index.Keys && g in hs
    ensures KeysOf(s, hs) == One(s, g) + KeysOf(s, hs - {g})
    decreases |hs|
  {
    hide One;
    var h :| h in hs && KeysOf(s, hs) == One(s, h) + KeysOf(s, hs - {h});
    if h != g {
      KeysOfAny(s, hs - {h}, g);
      KeysOfAny(s, hs - {g}, h);
      assert hs - {h} - {g} == hs - {g} - {h};
    }
  }

  ghost function ShardKeys(s: Shard): multiset<Key> { KeysOf(s, s.index.Keys) }

  /** The list of keys a scan collects from one shard. */
  method CollectKeys(z: ZeroGCShard) returns (keys: seq<Key>)
    ensures multiset(keys) == ShardKeys(z.View())
  {
    hide KeyAt, ReadAt;
    keys := [];
    var rest := z.index.Keys;
    ghost var v := z.View();
    while rest != {}
      invariant v == z.View() && rest <= v.index.Keys && multiset(keys) + KeysOf(v, rest) == ShardKeys(v)
      decreases |rest|
    {
      var h :| h in rest;
      KeysOfAny(v, rest, h);
      var e := z.ring.ReadAt(ToInt64(z.index[h]));
      KeyAtReads(v, h);
      if e.Some? {
        keys := keys + [e.value.key];
      }
      rest := rest - {h};
    }
  }

  lemma KeyAtReads(s: Shard, h: uint64)
    requires h in s.index
    ensures var e := ReadAt(s.ring.data, ToInt64(s.index[h]));
            KeyAt(s, h) == if e.Some? then Some(e.value.key) else None
  {
  }

  ghost function ContentsOf(c: Cache): CursorScan.Contents {
    seq(|c.shards|, i requires 0 <= i < |c.shards| => ShardKeys(c.shards[i]))
  }

  lemma SameContents(contents: CursorScan.Contents, c: Cache)
    requires |contents| == |c.shards| && forall j | 0 <= j < |c.shards| :: contents[j] == ShardKeys(c.shards[j])
    ensures contents == ContentsOf(c)
  {
  }

  /** Scanning the whole cache yields every key its index words lead to. */
  method ScanCache(cache: ShardedCache, wanted: Key -> bool, counts: nat -> int) returns (all: seq<Key>)
    requires CursorScan.Addressable(ContentsOf(cache.View()))
    ensures forall k :: multiset(all)[k] == if wanted(k) then CursorScan.Total(ContentsOf(cache.View()))[k] else 0
  {
    hide ShardKeys, CursorScan.Total;
    ghost var c := cache.View();
    var contents: CursorScan.Contents := [];
    for i := 0 to |cache.shards|
      invariant |contents| == i && forall j | 0 <= j < i :: contents[j] == ShardKeys(c.shards[j])
    {
      assert c.shards[i] == cache.shards[i].View();
      var keys := CollectKeys(cache.shards[i]);
      contents := contents + [multiset(keys)];
    }
    SameContents(contents, c);
    var calls;
    all, calls := CursorScan.ScanAll(contents, wanted, counts);
    assert forall k :: multiset(all)[k] == if wanted(k) then CursorScan.Total(ContentsOf(c))[k] else 0;
    assert cache.View() == c;
  }

  // ---------------------------------------------------------------------------
  // In a cache that refines a map

  /** Index words that lead to a key lead to one with their own hash. */
  ghost predicate WordsOwn(env: Env, s: Shard) {
    forall h | h in s.index && KeyAt(s, h).Some? :: env.hash(KeyAt(s, h).value) == h
  }

  lemma {:induction false} KeysOfExact(env: Env, s: Shard, hs: set<uint64>, k: Key)
    requires hs <= s.index.Keys && WordsOwn(env, s)
    ensures KeysOf(s, hs)[k] == if env.hash(k) in hs && KeyAt(s, env.hash(k)) == Some(k) then 1 else 0
    decreases |hs|
  {
    hide KeyAt;
    if hs != {} {
      var h :| h in hs;
      KeysOfAny(s, hs, h);
      KeysOfExact(env, s, hs - {h}, k);
    }
  }

  /** A ring word leads to its key, an inline word to none. */
  lemma WordLeads(env: Env, s: Shard, q: seq<Entry>, last: Map, h: uint64)
    requires Refines(env, s, q, last) && h in s.index
    ensures IsInline(s.index[h]) ==> KeyAt(s, h) == None
    ensures !IsInline(s.index[h]) ==>
              KeyAt(s, h).Some? && env.hash(KeyAt(s, h).value) == h && KeyAt(s, h).value in last
  {
    hide Refines;
    if !IsInline(s.index[h]) {
      var k, i := WordPoints(env, s, q, last, h);
      RefinesFifo(env, s, q, last);
      OffsetIsEntryStart(s.ring, q, i);
    }
  }

  /** A key that is stored in a ring, not as a counter. */
  predicate RingStored(env: Env, c: Cache, last: Map, k: Key)
    requires |c.shards| > 0
  {
    k in last && Live(env, c, k) && !IsInline(c.shards[ShardOf(env, c, k)].index[env.hash(k)])
  }

  lemma ShardKeysExact(env: Env, c: Cache, qs: seq<seq<Entry>>, last: Map, keys: set<Key>, i: nat, k: Key)
    requires Inv(env, c, qs, last, keys) && i < |c.shards|
    ensures ShardKeys(c.shards[i])[k] == if RingStored(env, c, last, k) && ShardOf(env, c, k) == i then 1 else 0
  {
    hide Refines, KeyAt, SlotsCover;
    var s := c.shards[i];
    forall h | h in s.index && KeyAt(s, h).Some? ensures env.hash(KeyAt(s, h).value) == h {
      WordLeads(env, s, qs[i], last, h);
    }
    KeysOfExact(env, s, s.index.Keys, k);
    if env.hash(k) in s.index {
      WordLeads(env, s, qs[i], last, env.hash(k));
    }
  }

  lemma {:induction false} TotalOf(contents: CursorScan.Contents, i: nat, k: Key)
    requires i < |contents| && forall j | 0 <= j < |contents| && j != i :: contents[j][k] == 0
    ensures CursorScan.Total(contents)[k] == contents[i][k]
    decreases |contents|
  {
    if i == 0 {
      TotalNone(contents[1..], k);
    } else {
      TotalOf(contents[1..], i - 1, k);
    }
  }

  lemma {:induction false} TotalNone(contents: CursorScan.Contents, k: Key)
    requires forall j | 0 <= j < |contents| :: contents[j][k] == 0
    ensures CursorScan.Total(contents)[k] == 0
    decreases |contents|
  {
    if contents != [] {
      TotalNone(contents[1..], k);
    }
  }

  /** Exactly the keys stored in rings are found, each once. */
  lemma ContentsExact(env: Env, c: Cache, qs: seq<seq<Entry>>, last: Map, keys: set<Key>, k: Key)
    requires Inv(env, c, qs, last, keys)
    ensures CursorScan.Total(ContentsOf(c))[k] == if RingStored(env, c, last, k) then 1 else 0
  {
    hide ShardKeys, RingStored, Inv;
    assert |c.shards| > 0 by { InvSized(env, c, qs, last, keys); }
    forall j | 0 <= j < |c.shards|
      ensures ContentsOf(c)[j][k] == if RingStored(env, c, last, k) && ShardOf(env, c, k) == j then 1 else 0
    {
      ShardKeysExact(env, c, qs, last, keys, j, k);
    }
    TotalOf(ContentsOf(c), ShardOf(env, c, k), k);
  }

  lemma InvSized(env: Env, c: Cache, qs: seq<seq<Entry>>, last: Map, keys: set<Key>)
    requires Inv(env, c, qs, last, keys)
    ensures |c.shards| > 0
  {
  }

  /**
   * After every run of supported operations from an empty cache, a scan finds exactly the matching keys that the
   * cache holds in its rings, each once.
   */
  lemma ScanFindsStoredKeys(env: Env, c: Cache, keys: set<Key>, ops: seq<Op>,
                            wanted: Key -> bool, all: seq<Key>, k: Key)
    requires Empty(c) && Injective(env, keys) && SafeRun(env, c, ops) && forall op | op in ops :: op.key in keys
    requires var contents := ContentsOf(Run(env, c, ops));
             multiset(all)[k] == if wanted(k) then CursorScan.Total(contents)[k] else 0
    ensures var c', last := Run(env, c, ops), RecordRun(env, c, map[], ops);
            multiset(all)[k] == if wanted(k) && RingStored(env, c', last, k) then 1 else 0
  {
    hide Inv, ContentsOf, RingStored;
    EmptyInv(env, c, keys);
    var qs := RunKeepsInv(env, c, seq(|c.shards|, _ => []), map[], keys, ops);
    ContentsExact(env, Run(env, c, ops), qs, RecordRun(env, c, map[], ops), keys, k);
  }

  /** KeysInSlot without a limit returns exactly the live keys of the slot, and keeps the invariant. */
  method LiveKeysInSlot(cache: ShardedCache, slot: Slot,
                        ghost qs: seq<seq<Entry>>, ghost last: Map, ghost keys: set<Key>)
    returns (result: seq<Key>)
    requires cache.Valid() && Inv(cache.env, cache.View(), qs, last, keys)
    modifies cache`slotIndex
    ensures forall i, j | 0 <= i < j < |result| :: result[i] != result[j]
    ensures forall k :: k in result <==> k in keys && cache.env.slot(k) == slot && Live(cache.env, old(cache.View()), k)
    ensures Inv(cache.env, cache.View(), qs, last, keys)
  {
    hide Refines, ShardGet;
    ghost var c, env := cache.View(), cache.env;
    ghost var stale;
    result, stale := cache.KeysInSlot(slot, 0);
    assert forall k | Listed(c.slotIndex, slot, k) :: env.slot(k) == slot && k in keys;
    forall k | k in keys ensures Get(env, c, k).Some? <==> Live(env, c, k) {
      GetIsLast(env, c, qs, last, keys, k);
    }
    forall k | k in keys && env.slot(k) == slot && Live(env, c, k) ensures k in result {
      assert Listed(c.slotIndex, slot, k);
    }
    if stale != {} {
      CleanupKeepsInv(env, c, qs, last, keys, slot, stale);
    }
  }
}
