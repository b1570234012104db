/**
 * The sharded cache on values: an integer-only index over a ring buffer, counters kept inline in
 * the index word, and a slot index beside it.
 */
module CacheModel {
  import opened Options
  import opened EntryFormat
  import opened RingModel
  import Decimal

  type Key = seq<byte>
  type Val = seq<byte>
  type Slot = uint16

  /** Bit 63 of an index word marks an inline integer. */
  const INLINE_FLAG := 0x8000_0000_0000_0000

  function EncodeInline(v: int64): uint64 { INLINE_FLAG + ToUint64(v) % INLINE_FLAG }

  function DecodeInline(w: uint64): int64 { w % INLINE_FLAG }

  predicate IsInline(w: uint64) { w >= INLINE_FLAG }

  /** The inline encoding keeps a counter exactly when it is not negative. */
  lemma InlineRoundTripIff(v: int64)
    ensures IsInline(EncodeInline(v))
    ensures DecodeInline(EncodeInline(v)) == v <==> v >= 0
  {
  }

  /** 64-bit addition: the sum, wrapped around once where it does not fit. */
  function Add64(a: int64, b: int64): (r: int64)
    ensures r == a + b || (r < 0 && r == a + b - 0x1_0000_0000_0000_0000)
                       || (r >= 0 && r == a + b + 0x1_0000_0000_0000_0000)
  {
    ToInt64((a + b) % 0x1_0000_0000_0000_0000)
  }

  datatype Shard = Shard(index: map<uint64, uint64>, ring: Ring)

  /** The hash and the slot of every key. */
  datatype Env = Env(hash: Key -> uint64, slot: Key -> Slot)

  datatype Cache = Cache(shards: seq<Shard>, slotIndex: map<Slot, set<Key>>)

  function Truncate16(n: nat): uint16 { n % 0x1_0000 }

  /** The entry Set writes; lengths of 65536 and more are truncated. */
  function EntryFor(hash: uint64, key: Key, value: Val): Entry {
    Entry(Header(0, hash, Truncate16(|key|), Truncate16(|value|), 0, 0), key, value)
  }

  /** Get on one shard: inline integers are printed, ring entries must carry the key. */
  function ShardGet(s: Shard, hash: uint64, key: Key): Option<Val> {
    if hash !in s.index then None
    else if IsInline(s.index[hash]) then Some(Decimal.Format(DecodeInline(s.index[hash])))
    else match ReadAt(s.ring.data, s.index[hash])
      case None => None
      case Some(e) => if e.key == key then Some(e.value) else None
  }

  /** Drops the index words that still point at evicted entries. */
  function Unindex(index: map<uint64, uint64>, evicted: seq<Evicted>): (r: map<uint64, uint64>)
    ensures r == map h | h in index && Evicted(h, index[h]) !in evicted :: index[h]
  {
    if evicted == [] then index
    else
      var ev := evicted[0];
      var rest := if ev.hash in index && index[ev.hash] == ev.offset then index - {ev.hash} else index;
      Unindex(rest, evicted[1..])
  }

  /** Ring positions are in bounds, and offsets leave the inline flag free. */
  predicate Ready(s: Shard) {
    InBounds(s.ring) && s.ring.Capacity() <= INLINE_FLAG
  }

  /** Set would address memory past the end of the ring: the index points at a header that announces too much. */
  predicate Panics(s: Shard, hash: uint64, key: Key, value: Val) {
    hash in s.index && !IsInline(s.index[hash]) && Overruns(s.ring, s.index[hash], EntryFor(hash, key, value))
  }

  /** Whether Set takes the in-place path. */
  predicate InPlace(s: Shard, hash: uint64, e: Entry) {
    hash in s.index && !IsInline(s.index[hash]) && UpdateInPlace(s.ring, s.index[hash], e).Some?
  }

  /** Set on one shard; false when the entry is too large, and then an inline counter is gone. */
  function ShardSet(s: Shard, hash: uint64, key: Key, value: Val): (r: (Shard, bool))
    requires Ready(s)
    ensures Ready(r.0)
  {
    var e := EntryFor(hash, key, value);
    if InPlace(s, hash, e) then
      (s.(ring := UpdateInPlace(s.ring, s.index[hash], e).value), true)
    else
      var index := if hash in s.index && IsInline(s.index[hash]) then s.index - {hash} else s.index;
      WriteSafeOnAnyBytes(s.ring, e);
      match Write(s.ring, e)
      case TooLarge => (s.(index := index), false)
      case Written(ring, offset, evicted) =>
        (Shard(Unindex(index, evicted)[hash := offset], ring), true)
  }

  datatype IncrResult = NotInteger | Incremented(shard: Shard, value: int64, created: bool)

  /** IncrBy on one shard: inline add, new counter, or conversion of a ring entry to a counter. */
  function ShardIncr(s: Shard, hash: uint64, key: Key, delta: int64): IncrResult {
    if hash !in s.index then
      Incremented(s.(index := s.index[hash := EncodeInline(delta)]), delta, true)
    else if IsInline(s.index[hash]) then
      var v := Add64(DecodeInline(s.index[hash]), delta);
      Incremented(s.(index := s.index[hash := EncodeInline(v)]), v, false)
    else match ReadAt(s.ring.data, s.index[hash])
      case None => Incremented(s.(index := s.index[hash := EncodeInline(delta)]), delta, false)
      case Some(e) =>
        if e.key != key then Incremented(s.(index := s.index[hash := EncodeInline(delta)]), delta, false)
        else match Decimal.ParseInt64(e.value)
          case None => NotInteger
          case Some(current) =>
            var v := Add64(current, delta);
            Incremented(s.(index := s.index[hash := EncodeInline(v)]), v, false)
  }

  function ShardDelete(s: Shard, hash: uint64): Shard {
    s.(index := s.index - {hash})
  }

  // ---------------------------------------------------------------------------
  // The whole cache

  function ShardOf(env: Env, c: Cache, key: Key): (i: nat)
    requires |c.shards| > 0
    ensures i < |c.shards|
  {
    env.hash(key) % |c.shards|
  }

  function Get(env: Env, c: Cache, key: Key): Option<Val>
    requires |c.shards| > 0
  {
    ShardGet(c.shards[ShardOf(env, c, key)], env.hash(key), key)
  }

  function AddToSlot(index: map<Slot, set<Key>>, slot: Slot, key: Key): map<Slot, set<Key>> {
    index[slot := (if slot in index then index[slot] else {}) + {key}]
  }

  function RemoveFromSlot(index: map<Slot, set<Key>>, slot: Slot, keys: set<Key>): map<Slot, set<Key>> {
    if slot !in index then index
    else if index[slot] - keys == {} then index - {slot}
    else index[slot := index[slot] - keys]
  }

  function Set(env: Env, c: Cache, key: Key, value: Val): (Cache, bool)
    requires |c.shards| > 0 && Ready(c.shards[ShardOf(env, c, key)])
  {
    var i, hash := ShardOf(env, c, key), env.hash(key);
    var (shard, ok) := ShardSet(c.shards[i], hash, key, value);
    var shards := c.shards[i := shard];
    if !ok || InPlace(c.shards[i], hash, EntryFor(hash, key, value)) then (c.(shards := shards), ok)
    else (Cache(shards, AddToSlot(c.slotIndex, env.slot(key), key)), true)
  }

  function IncrBy(env: Env, c: Cache, key: Key, delta: int64): (Cache, Option<int64>)
    requires |c.shards| > 0
  {
    var i := ShardOf(env, c, key);
    match ShardIncr(c.shards[i], env.hash(key), key, delta)
    case NotInteger => (c, None)
    case Incremented(shard, v, created) =>
      var slotIndex := if created then AddToSlot(c.slotIndex, env.slot(key), key) else c.slotIndex;
      (Cache(c.shards[i := shard], slotIndex), Some(v))
  }

  function Delete(env: Env, c: Cache, key: Key): (Cache, bool)
    requires |c.shards| > 0
  {
    var i, hash := ShardOf(env, c, key), env.hash(key);
    if hash !in c.shards[i].index then (c, false)
    else (Cache(c.shards[i := ShardDelete(c.shards[i], hash)],
                RemoveFromSlot(c.slotIndex, env.slot(key), {key})), true)
  }
}

/** The cache refines a lossy map: a key is absent or has the value last written. */
module CacheRefinement {
  import opened Options
  import opened EntryFormat
  import opened RingModel
  import opened CacheModel
  import Decimal

  type Map = map<Key, Val>

  /** The index word of a hash stands for the value v of key k. */
  ghost predicate Denotes(s: Shard, q: seq<Entry>, hash: uint64, k: Key, v: Val)
    requires hash in s.index
  {
    if IsInline(s.index[hash]) then v == Decimal.Format(DecodeInline(s.index[hash]))
    else exists i :: 0 <= i < |q| && PointsAt(s, q, hash, i) && q[i].key == k && q[i].value == v
  }

  /** A ring word is the start of live entry i, which carries the same hash. */
  predicate PointsAt(s: Shard, q: seq<Entry>, hash: uint64, i: nat)
    requires hash in s.index && i < |q|
  {
    s.index[hash] == Offset(s.ring, q, i) && q[i].header.hash == hash
  }

  ghost predicate Injective(env: Env, keys: set<Key>) {
    forall a, b | a in keys && b in keys :: env.hash(a) == env.hash(b) ==> a == b
  }

  /** Hash h belongs to key k of the map, and its index word to the value of k. */
  ghost predicate Backed(env: Env, s: Shard, q: seq<Entry>, last: Map, h: uint64, k: Key)
    requires h in s.index
  {
    k in last && env.hash(k) == h && Denotes(s, q, h, k, last[k])
  }

  ghost predicate HasOwner(env: Env, s: Shard, q: seq<Entry>, last: Map, h: uint64)
    requires h in s.index
  {
    exists k :: Backed(env, s, q, last, h, k)
  }

  ghost predicate Refines(env: Env, s: Shard, q: seq<Entry>, last: Map) {
    && s.ring.Capacity() <= INLINE_FLAG
    && Fifo(s.ring, q)
    && forall h | h in s.index :: HasOwner(env, s, q, last, h)
  }

  /** The words of a key that is the only one with its hash. */
  lemma BackedBy(env: Env, s: Shard, q: seq<Entry>, last: Map, keys: set<Key>, key: Key)
    requires Refines(env, s, q, last) && Injective(env, keys) && last.Keys <= keys && key in keys
    requires env.hash(key) in s.index
    ensures Backed(env, s, q, last, env.hash(key), key)
  {
    assert HasOwner(env, s, q, last, env.hash(key));
    var k :| Backed(env, s, q, last, env.hash(key), k);
  }

  /** A key is present exactly when its hash is indexed, and then it has its last value. */
  lemma GetRefines(env: Env, s: Shard, q: seq<Entry>, last: Map, keys: set<Key>, key: Key)
    requires Refines(env, s, q, last) && Injective(env, keys) && last.Keys <= keys && key in keys
    ensures ShardGet(s, env.hash(key), key) ==
            if env.hash(key) in s.index then Some(last[key]) else None
    ensures env.hash(key) in s.index ==> key in last
  {
    var h := env.hash(key);
    if h in s.index {
      BackedBy(env, s, q, last, keys, key);
      if !IsInline(s.index[h]) {
        var i :| 0 <= i < |q| && PointsAt(s, q, h, i) && q[i].key == key && q[i].value == last[key];
        OffsetIsEntryStart(s.ring, q, i);
      }
    }
  }

  // ---------------------------------------------------------------------------
  // Set

  /** A caller can see from the shard that Set will neither shrink an entry nor leave a gap. */
  predicate SafeSet(s: Shard, hash: uint64, key: Key, value: Val) {
    var e := EntryFor(hash, key, value);
    |key| < 0x1_0000 && |value| < 0x1_0000 &&
    if InPlace(s, hash, e) then Size(e) == HeaderEntrySize(HeaderAt(s.ring.data, s.index[hash]).value)
    else NoGap(s.ring, Size(e))
  }

  lemma WordPoints(env: Env, s: Shard, q: seq<Entry>, last: Map, h: uint64) returns (k: Key, i: nat)
    requires Refines(env, s, q, last) && h in s.index && !IsInline(s.index[h])
    ensures i < |q| && PointsAt(s, q, h, i) && Backed(env, s, q, last, h, k)
    ensures q[i].key == k && q[i].value == last[k] && Faithful(q[i])
    ensures EntryStart(s.ring, s.index[h]) && HeaderAt(s.ring.data, s.index[h]) == Some(q[i].header)
  {
    assert HasOwner(env, s, q, last, h);
    k :| Backed(env, s, q, last, h, k);
    i :| 0 <= i < |q| && PointsAt(s, q, h, i) && q[i].key == k && q[i].value == last[k];
    OffsetIsEntryStart(s.ring, q, i);
  }

  /** While the shard refines a map, Set addresses nothing past the end of the ring. */
  lemma RefinesNoPanic(env: Env, s: Shard, q: seq<Entry>, last: Map, h: uint64, key: Key, value: Val)
    requires Refines(env, s, q, last)
    ensures Ready(s) && !Panics(s, h, key, value)
  {
    if h in s.index && !IsInline(s.index[h]) {
      var k, i := WordPoints(env, s, q, last, h);
      UpdateInside(s.ring, s.index[h], EntryFor(h, key, value));
    }
  }

  /** An in-place update of one word leaves every other word at its entry. */
  lemma UpdateKeepsBacked(env: Env, s: Shard, q: seq<Entry>, last: Map, i: nat, e: Entry,
                          s': Shard, last': Map, h: uint64)
    requires Refines(env, s, q, last) && i < |q| && Size(e) == Size(q[i]) && h in s.index
    requires e.header.hash == q[i].header.hash == env.hash(e.key) && h != e.header.hash
    requires s'.index == s.index && s'.ring.head == s.ring.head && s'.ring.Capacity() == s.ring.Capacity()
    requires last' == last[e.key := e.value]
    ensures HasOwner(env, s', q[i := e], last', h)
  {
    assert HasOwner(env, s, q, last, h);
    var k :| Backed(env, s, q, last, h, k);
    if !IsInline(s.index[h]) {
      var j :| 0 <= j < |q| && PointsAt(s, q, h, j) && q[j].key == k && q[j].value == last[k];
      TotalUpdate(q, i, e, j);
      assert PointsAt(s', q[i := e], h, j);
    }
    assert Backed(env, s', q[i := e], last', h, k);
  }

  lemma UpdatedRefines(env: Env, s: Shard, q: seq<Entry>, last: Map, i: nat, e: Entry, s': Shard)
    requires Refines(env, s, q, last) && i < |q| && Size(e) == Size(q[i])
    requires e.header.hash == env.hash(e.key) && e.header.hash in s.index
    requires PointsAt(s, q, e.header.hash, i) && !IsInline(s.index[e.header.hash])
    requires s'.index == s.index && s'.ring.head == s.ring.head && s'.ring.Capacity() == s.ring.Capacity()
    requires Fifo(s'.ring, q[i := e])
    ensures Refines(env, s', q[i := e], last[e.key := e.value])
  {
    var h, q', last' := e.header.hash, q[i := e], last[e.key := e.value];
    forall g | g in s'.index
      ensures HasOwner(env, s', q', last', g)
    {
      if g == h {
        TotalUpdate(q, i, e, i);
        assert PointsAt(s', q', h, i);
        assert Backed(env, s', q', last', h, e.key);
      } else {
        UpdateKeepsBacked(env, s, q, last, i, e, s', last', g);
      }
    }
  }

  lemma SetInPlaceRefines(env: Env, s: Shard, q: seq<Entry>, last: Map, key: Key, value: Val) returns (q': seq<Entry>)
    requires Refines(env, s, q, last) && SafeSet(s, env.hash(key), key, value)
    requires InPlace(s, env.hash(key), EntryFor(env.hash(key), key, value))
    ensures Refines(env, ShardSet(s, env.hash(key), key, value).0, q', last[key := value])
  {
    hide ReadAt, HeaderAt, Write, Fifo, Refines, UpdateInPlace;
    var h := env.hash(key);
    var e := EntryFor(h, key, value);
    RefinesNoPanic(env, s, q, last, h, key, value);
    var k, i := WordPoints(env, s, q, last, h);
    UpdateKeepsShape(s.ring, s.index[h], e);
    assert Fifo(s.ring, q) by { RefinesFifo(env, s, q, last); }
    UpdateInPlaceFifoIff(s.ring, q, i, e);
    q' := q[i := e];
    UpdatedRefines(env, s, q, last, i, e, ShardSet(s, h, key, value).0);
  }

  lemma RefinesFifo(env: Env, s: Shard, q: seq<Entry>, last: Map)
    requires Refines(env, s, q, last)
    ensures Fifo(s.ring, q) && s.ring.Capacity() <= INLINE_FLAG
  {
  }

  /** An entry that survives a write keeps its offset. */
  lemma SurvivorOffset(r: Ring, q: seq<Entry>, e: Entry, r': Ring, k: nat, i: nat)
    requires Fifo(r, q) && k <= i < |q|
    requires r'.head == Offset(r, q, k) && r'.Capacity() == r.Capacity()
    ensures Offset(r', q[k..] + [e], i - k) == Offset(r, q, i)
  {
    assert (q[k..] + [e])[..i - k] == q[k..i] == q[..i][k..];
    TotalSplit(q[..i], k);
    assert q[..i][..k] == q[..k];
    TotalMonotone(q, i, |q|);
    assert q[..|q|] == q;
  }

  lemma VictimListed(r: Ring, q: seq<Entry>, k: nat, i: nat)
    requires i < |q| && k <= |q|
    ensures i < k ==> Evicted(q[i].header.hash, Offset(r, q, i)) in Victims(r, q, k)
  {
    if i < k {
      assert Victims(r, q, k)[i] == Evicted(q[i].header.hash, Offset(r, q, i));
    }
  }

  lemma WriteKeepsBacked(env: Env, s: Shard, q: seq<Entry>, last: Map, e: Entry,
                         s': Shard, last': Map, k: nat, h: uint64)
    requires Refines(env, s, q, last) && k <= |q|
    requires s'.ring.head == Offset(s.ring, q, k) && s'.ring.Capacity() == s.ring.Capacity()
    requires h in s.index && Evicted(h, s.index[h]) !in Victims(s.ring, q, k)
    requires h in s'.index && s'.index[h] == s.index[h] && h != env.hash(e.key)
    requires last' == last[e.key := e.value]
    ensures HasOwner(env, s', q[k..] + [e], last', h)
  {
    assert HasOwner(env, s, q, last, h);
    var key :| Backed(env, s, q, last, h, key);
    if !IsInline(s.index[h]) {
      var i :| 0 <= i < |q| && PointsAt(s, q, h, i) && q[i].key == key && q[i].value == last[key];
      VictimListed(s.ring, q, k, i);
      SurvivorOffset(s.ring, q, e, s'.ring, k, i);
      assert PointsAt(s', q[k..] + [e], h, i - k);
    }
    assert Backed(env, s', q[k..] + [e], last', h, key);
  }

  /** Of the other words, those that do not point at evicted entries are left. */
  ghost predicate KeepsWords(s: Shard, s': Shard, h: uint64, evicted: seq<Evicted>) {
    forall g | g in s'.index && g != h ::
      g in s.index && s'.index[g] == s.index[g] && Evicted(g, s.index[g]) !in evicted
  }

  lemma EnqueuedOwner(env: Env, s: Shard, q: seq<Entry>, last: Map, e: Entry, s': Shard, k: nat, g: uint64)
    requires Refines(env, s, q, last) && k <= |q| && e.header.hash == env.hash(e.key)
    requires s'.ring.head == Offset(s.ring, q, k) && s'.ring.Capacity() == s.ring.Capacity()
    requires e.header.hash in s'.index
    requires s'.index[e.header.hash] == Offset(s'.ring, q[k..] + [e], |q| - k) < INLINE_FLAG
    requires KeepsWords(s, s', e.header.hash, Victims(s.ring, q, k)) && g in s'.index
    ensures HasOwner(env, s', q[k..] + [e], last[e.key := e.value], g)
  {
    hide Refines, Victims, HasOwner, Offset;
    if g == e.header.hash {
      NewIsBacked(env, s', q[k..] + [e], last[e.key := e.value], e, |q| - k);
    } else {
      WriteKeepsBacked(env, s, q, last, e, s', last[e.key := e.value], k, g);
    }
  }

  lemma EnqueuedRefines(env: Env, s: Shard, q: seq<Entry>, last: Map, e: Entry, s': Shard, k: nat)
    requires Refines(env, s, q, last) && k <= |q| && e.header.hash == env.hash(e.key)
    requires Fifo(s'.ring, q[k..] + [e])
    requires s'.ring.head == Offset(s.ring, q, k) && s'.ring.Capacity() == s.ring.Capacity()
    requires e.header.hash in s'.index
    requires s'.index[e.header.hash] == Offset(s'.ring, q[k..] + [e], |q| - k) < INLINE_FLAG
    requires KeepsWords(s, s', e.header.hash, Victims(s.ring, q, k))
    ensures Refines(env, s', q[k..] + [e], last[e.key := e.value])
  {
    hide HasOwner, Offset, Victims, Fifo, KeepsWords;
    RefinesFifo(env, s, q, last);
    forall g | g in s'.index
      ensures HasOwner(env, s', q[k..] + [e], last[e.key := e.value], g)
    {
      EnqueuedOwner(env, s, q, last, e, s', k, g);
    }
  }

  /** The word of an entry just written. */
  lemma NewIsBacked(env: Env, s: Shard, q: seq<Entry>, last: Map, e: Entry, i: nat)
    requires i < |q| && q[i] == e && e.key in last && last[e.key] == e.value && e.header.hash == env.hash(e.key)
    requires e.header.hash in s.index && s.index[e.header.hash] == Offset(s.ring, q, i) < INLINE_FLAG
    ensures HasOwner(env, s, q, last, e.header.hash)
  {
    hide Offset;
    assert PointsAt(s, q, e.header.hash, i);
    assert Backed(env, s, q, last, e.header.hash, e.key);
  }

  lemma SetWriteRefines(env: Env, s: Shard, q: seq<Entry>, last: Map, key: Key, value: Val) returns (q': seq<Entry>)
    requires Refines(env, s, q, last) && SafeSet(s, env.hash(key), key, value)
    requires !InPlace(s, env.hash(key), EntryFor(env.hash(key), key, value))
    requires ShardSet(s, env.hash(key), key, value).1
    ensures Refines(env, ShardSet(s, env.hash(key), key, value).0, q', last[key := value])
  {
    hide Write, ReadAt, HeaderAt, UpdateInPlace, Fifo, Refines, Offset;
    var h := env.hash(key);
    var e := EntryFor(h, key, value);
    RefinesFifo(env, s, q, last);
    WriteSafeOnAnyBytes(s.ring, e);
    WriteIsEnqueue(s.ring, q, e);
    var k := Displaced(q, Size(e), s.ring.Capacity());
    q' := q[k..] + [e];
    EnqueuedRefines(env, s, q, last, e, ShardSet(s, h, key, value).0, k);
  }

  lemma DropRefines(env: Env, s: Shard, q: seq<Entry>, last: Map, last': Map, h: uint64)
    requires Refines(env, s, q, last)
    requires forall k | k in last && env.hash(k) != h :: k in last' && last'[k] == last[k]
    ensures Refines(env, s.(index := s.index - {h}), q, last')
  {
    var s' := s.(index := s.index - {h});
    forall g | g in s'.index
      ensures HasOwner(env, s', q, last', g)
    {
      assert HasOwner(env, s, q, last, g);
      var k :| Backed(env, s, q, last, g, k);
      assert Backed(env, s', q, last', g, k) by { DenotesFrame(s, s', q, g, k, last[k]); }
    }
  }

  lemma DenotesFrame(s: Shard, s': Shard, q: seq<Entry>, h: uint64, k: Key, v: Val)
    requires h in s.index && h in s'.index && s.index[h] == s'.index[h] && s.ring == s'.ring
    requires Denotes(s, q, h, k, v)
    ensures Denotes(s', q, h, k, v)
  {
    if !IsInline(s.index[h]) {
      var i :| 0 <= i < |q| && PointsAt(s, q, h, i) && q[i].key == k && q[i].value == v;
      assert PointsAt(s', q, h, i);
    }
  }

  /** Overwriting one word by an inline counter. */
  lemma InlineRefines(env: Env, s: Shard, q: seq<Entry>, last: Map, key: Key, v: int64)
    requires Refines(env, s, q, last) && v >= 0
    ensures Refines(env, s.(index := s.index[env.hash(key) := EncodeInline(v)]), q, last[key := Decimal.Format(v)])
  {
    var h := env.hash(key);
    var s', last' := s.(index := s.index[h := EncodeInline(v)]), last[key := Decimal.Format(v)];
    forall g | g in s'.index
      ensures HasOwner(env, s', q, last', g)
    {
      if g == h {
        assert Backed(env, s', q, last', h, key);
      } else {
        assert HasOwner(env, s, q, last, g);
        var k :| Backed(env, s, q, last, g, k);
        assert Backed(env, s', q, last', g, k) by { DenotesFrame(s, s', q, g, k, last[k]); }
      }
    }
  }

  // ---------------------------------------------------------------------------
  // The whole cache, over whole runs

  /** The invariant of the cache against the lossy map, on a universe of keys. */
  ghost predicate Inv(env: Env, c: Cache, qs: seq<seq<Entry>>, last: Map, keys: set<Key>) {
    && |c.shards| == |qs| > 0 && AllReady(c)
    && Injective(env, keys) && last.Keys <= keys
    && (forall i | 0 <= i < |qs| :: Refines(env, c.shards[i], qs[i], last))
    && (forall i, h | 0 <= i < |qs| && h in c.shards[i].index :: h % |qs| == i)
    && SlotsCover(env, c, keys)
  }

  /** Every live key is listed under its slot, and only keys of a slot are listed under it. */
  ghost predicate SlotsCover(env: Env, c: Cache, keys: set<Key>)
    requires |c.shards| > 0
  {
    && (forall k | k in keys && Live(env, c, k) :: Listed(c.slotIndex, env.slot(k), k))
    && (forall s, k | Listed(c.slotIndex, s, k) :: env.slot(k) == s && k in keys)
  }

  predicate Listed(index: map<Slot, set<Key>>, slot: Slot, key: Key) {
    slot in index && key in index[slot]
  }

  predicate Live(env: Env, c: Cache, key: Key)
    requires |c.shards| > 0
  {
    env.hash(key) in c.shards[ShardOf(env, c, key)].index
  }

  /** Get is absent or the last value written, and present exactly for the live keys. */
  lemma GetIsLast(env: Env, c: Cache, qs: seq<seq<Entry>>, last: Map, keys: set<Key>, key: Key)
    requires Inv(env, c, qs, last, keys) && key in keys
    ensures Get(env, c, key) == if Live(env, c, key) then Some(last[key]) else None
    ensures Live(env, c, key) ==> key in last
  {
    var i := ShardOf(env, c, key);
    GetRefines(env, c.shards[i], qs[i], last, keys, key);
  }

  datatype Op = SetOp(key: Key, value: Val) | IncrOp(key: Key, delta: int64) | DeleteOp(key: Key)

  /** The hypotheses under which the code supports an operation, seen before the call. */
  predicate Safe(env: Env, c: Cache, op: Op)
    requires |c.shards| > 0
  {
    var shard, hash := c.shards[ShardOf(env, c, op.key)], env.hash(op.key);
    match op
    case SetOp(key, value) => SafeSet(shard, hash, key, value)
    case IncrOp(key, delta) =>
      var r := ShardIncr(shard, hash, key, delta);
      r.Incremented? ==> r.value >= 0
    case DeleteOp(_) => true
  }

  function Apply(env: Env, c: Cache, op: Op): (r: Cache)
    requires AllReady(c)
    ensures AllReady(r) && |r.shards| == |c.shards|
  {
    match op
    case SetOp(key, value) => Set(env, c, key, value).0
    case IncrOp(key, delta) => IncrBy(env, c, key, delta).0
    case DeleteOp(key) => Delete(env, c, key).0
  }

  predicate AllReady(c: Cache) {
    |c.shards| > 0 && forall i | 0 <= i < |c.shards| :: Ready(c.shards[i])
  }

  /** What the lossy map records of an operation: a write that succeeded, or a deletion. */
  function Record(env: Env, c: Cache, last: Map, op: Op): Map
    requires AllReady(c)
  {
    match op
    case SetOp(key, value) => if Set(env, c, key, value).1 then last[key := value] else last
    case IncrOp(key, delta) =>
      var r := IncrBy(env, c, key, delta).1;
      if r.Some? then last[key := Decimal.Format(r.value)] else last
    case DeleteOp(key) => if Live(env, c, key) then last - {key} else last
  }

  lemma SetShardRefines(env: Env, s: Shard, q: seq<Entry>, last: Map, key: Key, value: Val) returns (q': seq<Entry>)
    requires Refines(env, s, q, last) && SafeSet(s, env.hash(key), key, value)
    ensures var (s', ok) := ShardSet(s, env.hash(key), key, value);
            Refines(env, s', q', if ok then last[key := value] else last)
  {
    hide Refines, Write, UpdateInPlace;
    var h := env.hash(key);
    RefinesNoPanic(env, s, q, last, h, key, value);
    if InPlace(s, h, EntryFor(h, key, value)) {
      q' := SetInPlaceRefines(env, s, q, last, key, value);
    } else if ShardSet(s, h, key, value).1 {
      q' := SetWriteRefines(env, s, q, last, key, value);
    } else {
      q' := q;
      DropRefines(env, s, q, last, last, h);
      assert s.index - {h} == s.index || h in s.index;
    }
  }

  /** Two maps that differ at most on keys with hash h. */
  ghost predicate AgreeOff(env: Env, last: Map, last': Map, h: uint64) {
    forall k | k in last && env.hash(k) != h :: k in last' && last'[k] == last[k]
  }

  /** Replacing the shard of a key, and recording it, keeps every shard's refinement. */
  lemma ReplaceShard(env: Env, c: Cache, qs: seq<seq<Entry>>, last: Map, keys: set<Key>, key: Key,
                     s': Shard, q': seq<Entry>, last': Map)
    requires Inv(env, c, qs, last, keys) && key in keys
    requires Refines(env, s', q', last') && AgreeOff(env, last, last', env.hash(key))
    requires s'.index.Keys <= c.shards[ShardOf(env, c, key)].index.Keys + {env.hash(key)}
    ensures var i := ShardOf(env, c, key);
            var shards', qs' := c.shards[i := s'], qs[i := q'];
            (forall j | 0 <= j < |qs'| :: Refines(env, shards'[j], qs'[j], last'))
            && (forall j, h | 0 <= j < |qs'| && h in shards'[j].index :: h % |qs'| == j)
  {
    hide Refines;
    var i := ShardOf(env, c, key);
    var shards', qs' := c.shards[i := s'], qs[i := q'];
    forall j | 0 <= j < |qs'|
      ensures Refines(env, shards'[j], qs'[j], last')
    {
      if j != i {
        DropRefines(env, c.shards[j], qs[j], last, last', env.hash(key));
        assert c.shards[j].index - {env.hash(key)} == c.shards[j].index;
      }
    }
  }

  /** Writing a key lists it under its slot, or finds it listed there already. */
  lemma WriteKeepsSlots(env: Env, c: Cache, keys: set<Key>, key: Key, s': Shard, c': Cache)
    requires |c.shards| > 0 && SlotsCover(env, c, keys) && Injective(env, keys) && key in keys
    requires c'.shards == c.shards[ShardOf(env, c, key) := s']
    requires s'.index.Keys <= c.shards[ShardOf(env, c, key)].index.Keys + {env.hash(key)}
    requires c'.slotIndex == AddToSlot(c.slotIndex, env.slot(key), key)
             || (c'.slotIndex == c.slotIndex && (env.hash(key) in s'.index ==> Live(env, c, key)))
    ensures SlotsCover(env, c', keys)
  {
    forall k | k in keys && Live(env, c', k)
      ensures Listed(c'.slotIndex, env.slot(k), k)
    {
      assert k != key ==> Live(env, c, k);
      assert Listed(AddToSlot(c.slotIndex, env.slot(key), key), env.slot(key), key);
    }
    forall s, k | Listed(c'.slotIndex, s, k)
      ensures env.slot(k) == s && k in keys
    {
      assert Listed(c.slotIndex, s, k) || (s == env.slot(key) && k == key);
    }
  }

  lemma SetKeepsInv(env: Env, c: Cache, qs: seq<seq<Entry>>, last: Map, keys: set<Key>, key: Key, value: Val)
    returns (qs': seq<seq<Entry>>)
    requires Inv(env, c, qs, last, keys) && key in keys && Safe(env, c, SetOp(key, value))
    ensures var op := SetOp(key, value);
            Inv(env, Apply(env, c, op), qs', Record(env, c, last, op), keys)
  {
    hide Refines, SlotsCover, Write, UpdateInPlace;
    var i, h := ShardOf(env, c, key), env.hash(key);
    var q' := SetShardRefines(env, c.shards[i], qs[i], last, key, value);
    var (s', ok) := ShardSet(c.shards[i], h, key, value);
    var last' := if ok then last[key := value] else last;
    ReplaceShard(env, c, qs, last, keys, key, s', q', last');
    qs' := qs[i := q'];
    WriteKeepsSlots(env, c, keys, key, s', Set(env, c, key, value).0);
  }

  lemma IncrShardRefines(env: Env, s: Shard, q: seq<Entry>, last: Map, key: Key, delta: int64)
    requires Refines(env, s, q, last)
    requires ShardIncr(s, env.hash(key), key, delta).Incremented? ==> ShardIncr(s, env.hash(key), key, delta).value >= 0
    ensures var r := ShardIncr(s, env.hash(key), key, delta);
            r.Incremented? ==> Refines(env, r.shard, q, last[key := Decimal.Format(r.value)])
  {
    var r := ShardIncr(s, env.hash(key), key, delta);
    if r.Incremented? {
      InlineRefines(env, s, q, last, key, r.value);
    }
  }

  lemma IncrKeepsInv(env: Env, c: Cache, qs: seq<seq<Entry>>, last: Map, keys: set<Key>, key: Key, delta: int64)
    requires Inv(env, c, qs, last, keys) && key in keys && Safe(env, c, IncrOp(key, delta))
    ensures var op := IncrOp(key, delta);
            Inv(env, Apply(env, c, op), qs, Record(env, c, last, op), keys)
  {
    hide Refines, SlotsCover, ReadAt;
    var i, h := ShardOf(env, c, key), env.hash(key);
    IncrShardRefines(env, c.shards[i], qs[i], last, key, delta);
    var r := ShardIncr(c.shards[i], h, key, delta);
    if r.Incremented? {
      ReplaceShard(env, c, qs, last, keys, key, r.shard, qs[i], last[key := Decimal.Format(r.value)]);
      WriteKeepsSlots(env, c, keys, key, r.shard, IncrBy(env, c, key, delta).0);
      assert qs[i := qs[i]] == qs;
    }
  }

  lemma RemoveFromSlotListed(index: map<Slot, set<Key>>, slot: Slot, gone: set<Key>, s: Slot, k: Key)
    ensures Listed(RemoveFromSlot(index, slot, gone), s, k) <==> Listed(index, s, k) && !(s == slot && k in gone)
  {
    if slot in index && k in index[slot] && k !in gone {
      assert k in index[slot] - gone;
    }
  }

  lemma DeleteKeepsSlots(env: Env, c: Cache, qs: seq<seq<Entry>>, last: Map, keys: set<Key>, key: Key)
    requires Inv(env, c, qs, last, keys) && key in keys && Live(env, c, key)
    ensures SlotsCover(env, Delete(env, c, key).0, keys)
  {
    hide Refines, RemoveFromSlot;
    var c' := Delete(env, c, key).0;
    forall k | k in keys && Live(env, c', k)
      ensures Listed(c'.slotIndex, env.slot(k), k)
    {
      assert Live(env, c, k);
      RemoveFromSlotListed(c.slotIndex, env.slot(key), {key}, env.slot(k), k);
    }
    forall s, k | Listed(c'.slotIndex, s, k)
      ensures env.slot(k) == s && k in keys
    {
      RemoveFromSlotListed(c.slotIndex, env.slot(key), {key}, s, k);
    }
  }

  lemma DeleteKeepsInv(env: Env, c: Cache, qs: seq<seq<Entry>>, last: Map, keys: set<Key>, key: Key)
    requires Inv(env, c, qs, last, keys) && key in keys
    ensures var op := DeleteOp(key);
            Inv(env, Apply(env, c, op), qs, Record(env, c, last, op), keys)
  {
    hide Refines, SlotsCover;
    var i, h := ShardOf(env, c, key), env.hash(key);
    if Live(env, c, key) {
      DropRefines(env, c.shards[i], qs[i], last, last - {key}, h);
      ReplaceShard(env, c, qs, last, keys, key, ShardDelete(c.shards[i], h), qs[i], last - {key});
      DeleteKeepsSlots(env, c, qs, last, keys, key);
      assert qs[i := qs[i]] == qs;
    }
  }

  lemma {:induction false} StepKeepsInv(env: Env, c: Cache, qs: seq<seq<Entry>>, last: Map, keys: set<Key>, op: Op)
    returns (qs': seq<seq<Entry>>)
    requires Inv(env, c, qs, last, keys) && op.key in keys && Safe(env, c, op)
    ensures Inv(env, Apply(env, c, op), qs', Record(env, c, last, op), keys)
  {
    match op
    case SetOp(key, value) => qs' := SetKeepsInv(env, c, qs, last, keys, key, value);
    case IncrOp(key, delta) => qs' := qs; IncrKeepsInv(env, c, qs, last, keys, key, delta);
    case DeleteOp(key) => qs' := qs; DeleteKeepsInv(env, c, qs, last, keys, key);
  }

  predicate SafeRun(env: Env, c: Cache, ops: seq<Op>)
    requires AllReady(c)
    decreases |ops|
  {
    ops == [] || (Safe(env, c, ops[0]) && SafeRun(env, Apply(env, c, ops[0]), ops[1..]))
  }

  function Run(env: Env, c: Cache, ops: seq<Op>): (r: Cache)
    requires AllReady(c)
    ensures AllReady(r) && |r.shards| == |c.shards|
    decreases |ops|
  {
    if ops == [] then c else Run(env, Apply(env, c, ops[0]), ops[1..])
  }

  function RecordRun(env: Env, c: Cache, last: Map, ops: seq<Op>): Map
    requires AllReady(c)
    decreases |ops|
  {
    if ops == [] then last else RecordRun(env, Apply(env, c, ops[0]), Record(env, c, last, ops[0]), ops[1..])
  }

  /** Over every run of supported operations the cache refines the lossy map. */
  lemma {:induction false} RunKeepsInv(env: Env, c: Cache, qs: seq<seq<Entry>>, last: Map, keys: set<Key>, ops: seq<Op>)
    returns (qs': seq<seq<Entry>>)
    requires Inv(env, c, qs, last, keys) && SafeRun(env, c, ops)
    requires forall op | op in ops :: op.key in keys
    ensures Inv(env, Run(env, c, ops), qs', RecordRun(env, c, last, ops), keys)
    decreases |ops|
  {
    hide Refines, SlotsCover, Apply, Record, Safe;
    if ops == [] {
      qs' := qs;
    } else {
      var qs1 := StepKeepsInv(env, c, qs, last, keys, ops[0]);
      qs' := RunKeepsInv(env, Apply(env, c, ops[0]), qs1, Record(env, c, last, ops[0]), keys, ops[1..]);
    }
  }

  // ---------------------------------------------------------------------------
  // KeysInSlot

  /** KeysInSlot without a limit lists exactly the live keys of the slot, each once. */
  lemma KeysInSlotExact(env: Env, c: Cache, qs: seq<seq<Entry>>, last: Map, keys: set<Key>, slot: Slot, k: Key)
    requires Inv(env, c, qs, last, keys) && k in keys
    ensures (Listed(c.slotIndex, slot, k) && Get(env, c, k).Some?) <==> (env.slot(k) == slot && Get(env, c, k).Some?)
  {
    GetIsLast(env, c, qs, last, keys, k);
  }

  /** Dropping listed keys that are not live keeps the invariant. */
  lemma CleanupKeepsInv(env: Env, c: Cache, qs: seq<seq<Entry>>, last: Map, keys: set<Key>, slot: Slot, stale: set<Key>)
    requires Inv(env, c, qs, last, keys)
    requires forall k | k in stale :: k in keys && Get(env, c, k).None?
    ensures Inv(env, c.(slotIndex := RemoveFromSlot(c.slotIndex, slot, stale)), qs, last, keys)
  {
    hide Refines, RemoveFromSlot, ShardGet;
    var c' := c.(slotIndex := RemoveFromSlot(c.slotIndex, slot, stale));
    forall k | k in keys && Live(env, c', k)
      ensures Listed(c'.slotIndex, env.slot(k), k)
    {
      assert Live(env, c, k);
      GetIsLast(env, c, qs, last, keys, k);
      RemoveFromSlotListed(c.slotIndex, slot, stale, env.slot(k), k);
    }
    forall s, k | Listed(c'.slotIndex, s, k)
      ensures env.slot(k) == s && k in keys
    {
      RemoveFromSlotListed(c.slotIndex, slot, stale, s, k);
    }
  }

  // ---------------------------------------------------------------------------
  // The main result

  /** A cache as it is created: nothing indexed, nothing in the rings. */
  ghost predicate Empty(c: Cache) {
    AllReady(c) && c.slotIndex == map[] &&
    forall i | 0 <= i < |c.shards| ::
      c.shards[i].index == map[] && Fifo(c.shards[i].ring, []) && c.shards[i].ring.Capacity() <= INLINE_FLAG
  }

  lemma EmptyInv(env: Env, c: Cache, keys: set<Key>)
    requires Empty(c) && Injective(env, keys)
    ensures Inv(env, c, seq(|c.shards|, _ => []), map[], keys)
  {
  }

  /**
   * From an empty cache, after every run of supported operations: a key is absent or has the value
   * last written, every ring word reads as an entry with its hash, and the slot index finds
   * exactly the present keys of a slot.
   */
  lemma CacheIsLossyMap(env: Env, c: Cache, keys: set<Key>, ops: seq<Op>, key: Key)
    requires Empty(c) && Injective(env, keys) && key in keys
    requires SafeRun(env, c, ops) && forall op | op in ops :: op.key in keys
    ensures var c', last := Run(env, c, ops), RecordRun(env, c, map[], ops);
            (Get(env, c', key) == None || (key in last && Get(env, c', key) == Some(last[key])))
            && (forall slot :: (Listed(c'.slotIndex, slot, key) && Get(env, c', key).Some?)
                          <==> (env.slot(key) == slot && Get(env, c', key).Some?))
    ensures var c' := Run(env, c, ops);
            forall i, h | 0 <= i < |c'.shards| && h in c'.shards[i].index && !IsInline(c'.shards[i].index[h]) ::
              var e := ReadAt(c'.shards[i].ring.data, c'.shards[i].index[h]);
              e.Some? && e.value.header.hash == h && env.hash(e.value.key) == h
  {
    hide Refines, ShardGet, ReadAt, SlotsCover;
    EmptyInv(env, c, keys);
    var qs := RunKeepsInv(env, c, seq(|c.shards|, _ => []), map[], keys, ops);
    var c', last := Run(env, c, ops), RecordRun(env, c, map[], ops);
    GetIsLast(env, c', qs, last, keys, key);
    forall slot
      ensures (Listed(c'.slotIndex, slot, key) && Get(env, c', key).Some?)
         <==> (env.slot(key) == slot && Get(env, c', key).Some?)
    {
      KeysInSlotExact(env, c', qs, last, keys, slot, key);
    }
    forall i, h | 0 <= i < |c'.shards| && h in c'.shards[i].index && !IsInline(c'.shards[i].index[h])
      ensures var e := ReadAt(c'.shards[i].ring.data, c'.shards[i].index[h]);
              e.Some? && e.value.header.hash == h && env.hash(e.value.key) == h
    {
      var k, j := WordPoints(env, c'.shards[i], qs[i], last, h);
      RefinesFifo(env, c'.shards[i], qs[i], last);
      OffsetIsEntryStart(c'.shards[i].ring, qs[i], j);
    }
  }

  // ---------------------------------------------------------------------------
  // What a write keeps

  /** What the ring evicts in a Set. */
  function ShardEvicts(s: Shard, h: uint64, key: Key, value: Val): seq<Evicted>
    requires Ready(s)
  {
    var e := EntryFor(h, key, value);
    if InPlace(s, h, e) || Size(e) > s.ring.Capacity() then []
    else
      WriteSafeOnAnyBytes(s.ring, e);
      Write(s.ring, e).evicted
  }

  function EvictedBy(env: Env, c: Cache, key: Key, value: Val): seq<Evicted>
    requires AllReady(c)
  {
    ShardEvicts(c.shards[ShardOf(env, c, key)], env.hash(key), key, value)
  }

  /** The index word of a key is among them. */
  predicate Displaces(env: Env, c: Cache, key: Key, value: Val, k: Key)
    requires AllReady(c)
  {
    && Live(env, c, k) && ShardOf(env, c, k) == ShardOf(env, c, key)
    && Evicted(env.hash(k), c.shards[ShardOf(env, c, k)].index[env.hash(k)]) in EvictedBy(env, c, key, value)
  }

  /** Set drops the words of other hashes exactly where they point at evicted entries. */
  lemma ShardSetWords(s: Shard, h: uint64, key: Key, value: Val, g: uint64)
    requires Ready(s) && g != h
    ensures var e := EntryFor(h, key, value);
            var (s', ok) := ShardSet(s, h, key, value);
            (InPlace(s, h, e) ==> s'.index == s.index)
            && (ok && !InPlace(s, h, e) ==>
                  && Write(s.ring, e).Written?
                  && (g in s'.index <==> g in s.index && Evicted(g, s.index[g]) !in Write(s.ring, e).evicted))
            && (!ok ==> !InPlace(s, h, e) && Size(e) > s.ring.Capacity() && (g in s'.index <==> g in s.index))
            && (Size(e) > s.ring.Capacity() && !InPlace(s, h, e) ==> !ok)
  {
    hide UpdateInPlace;
    var e := EntryFor(h, key, value);
    WriteSafeOnAnyBytes(s.ring, e);
    hide Write;
  }

  /** Counting and deleting touch no other key; a counted key has its new value and a deleted one none. */
  lemma OthersKeep(env: Env, c: Cache, qs: seq<seq<Entry>>, last: Map, keys: set<Key>, op: Op, k: Key)
    requires Inv(env, c, qs, last, keys) && op.key in keys && k in keys && Safe(env, c, op) && !op.SetOp?
    ensures k != op.key ==> Get(env, Apply(env, c, op), k) == Get(env, c, k)
    ensures op.IncrOp? && IncrBy(env, c, op.key, op.delta).1.Some? ==>
              Get(env, Apply(env, c, op), op.key) == Some(Decimal.Format(IncrBy(env, c, op.key, op.delta).1.value))
    ensures op.DeleteOp? ==> Get(env, Apply(env, c, op), op.key) == None
  {
    hide Refines, SlotsCover, ShardGet, ReadAt;
    var c', last' := Apply(env, c, op), Record(env, c, last, op);
    var qs' := StepKeepsInv(env, c, qs, last, keys, op);
    GetIsLast(env, c', qs', last', keys, op.key);
    GetIsLast(env, c, qs, last, keys, k);
    GetIsLast(env, c', qs', last', keys, k);
  }

  /** What IncrBy answers, by what Get reads: the sum with the number the text stands for, or a new counter. */
  function Counted(text: Option<Val>, delta: int64): Option<int64> {
    if text.None? then Some(delta)
    else match Decimal.ParseInt64(text.value)
      case None => None
      case Some(n) => Some(Add64(n, delta))
  }

  /**
   * IncrBy adds. In every state, and in terms of Get alone: an absent key starts at delta, a number in decimal text is
   * added to, and anything else is refused without a change. The sum is read back exactly when it is not negative.
   */
  lemma IncrAdds(env: Env, c: Cache, key: Key, delta: int64)
    requires |c.shards| > 0
    ensures var (c', r) := IncrBy(env, c, key, delta);
            && r == Counted(Get(env, c, key), delta) && |c'.shards| > 0
            && (r.None? ==> c' == c)
            && (r.Some? ==> (Get(env, c', key) == Some(Decimal.Format(r.value)) <==> r.value >= 0))
  {
    hide Decimal.ParseInt64, Decimal.Format, ReadAt, EncodeInline, DecodeInline, IsInline, Add64;
    var i, h := ShardOf(env, c, key), env.hash(key);
    var s := c.shards[i];
    if h in s.index && IsInline(s.index[h]) {
      Decimal.ParseFormat(DecodeInline(s.index[h]));
    }
    var (c', r) := IncrBy(env, c, key, delta);
    if r.Some? {
      var v := r.value;
      InlineRoundTripIff(v);
      assert c'.shards[i].index[h] == EncodeInline(v);
      assert Get(env, c', key) == Some(Decimal.Format(DecodeInline(EncodeInline(v))));
      Decimal.ParseFormat(v);
      Decimal.ParseFormat(DecodeInline(EncodeInline(v)));
    }
  }

  /** The index word of a key: none, or an inline counter. */
  predicate CounterIs(env: Env, c: Cache, key: Key, n: Option<int64>)
    requires |c.shards| > 0
  {
    if n.None? then !Live(env, c, key)
    else n.value >= 0 && Live(env, c, key)
         && c.shards[ShardOf(env, c, key)].index[env.hash(key)] == EncodeInline(n.value)
  }

  /** What a run of operations counts on a key. */
  function Tally(n: Option<int>, key: Key, ops: seq<Op>): Option<int>
    decreases |ops|
  {
    if ops == [] then n
    else Tally(if ops[0].IncrOp? && ops[0].key == key then Some((if n.None? then 0 else n.value) + ops[0].delta) else n,
               key, ops[1..])
  }

  /** Evicted entries are ring offsets, so no inline word is dropped with them. */
  lemma EvictedAreOffsets(r: Ring, q: seq<Entry>, e: Entry, ev: Evicted)
    requires Fifo(r, q) && Size(e) <= r.Capacity()
    ensures ev in Write(r, e).evicted ==> ev.offset < r.Capacity()
  {
    FifoInBounds(r, q);
    WriteEvictsLeast(r, q, e, 0);
    hide Write, Fifo, Spares;
    if ev in Write(r, e).evicted {
      var i :| 0 <= i < |Write(r, e).evicted| && Write(r, e).evicted[i] == ev;
      OffsetInside(r, q, i);
    }
  }

  lemma OffsetInside(r: Ring, q: seq<Entry>, i: nat)
    requires Fifo(r, q) && i < |q|
    ensures 0 <= Offset(r, q, i) && Offset(r, q, i) + Size(q[i]) <= r.Capacity()
  {
    assert StoredAt(r.data, Offset(r, q, i), q[i]);
  }

  /** Set on another hash leaves an inline word as it is. */
  lemma SetKeepsCounter(env: Env, s: Shard, q: seq<Entry>, last: Map, h: uint64, key: Key, value: Val, g: uint64)
    requires Refines(env, s, q, last) && g != h
    requires g in s.index ==> IsInline(s.index[g])
    ensures Ready(s)
    ensures var s' := ShardSet(s, h, key, value).0;
            (g in s'.index <==> g in s.index) && (g in s.index ==> s'.index[g] == s.index[g])
  {
    hide Write, UpdateInPlace, Fifo;
    RefinesFifo(env, s, q, last);
    assert InBounds(s.ring) by { FifoInBounds(s.ring, q); }
    var e := EntryFor(h, key, value);
    WriteSafeOnAnyBytes(s.ring, e);
    if g in s.index && Size(e) <= s.ring.Capacity() {
      EvictedAreOffsets(s.ring, q, e, Evicted(g, s.index[g]));
    }
  }

  lemma StepCounts(env: Env, c: Cache, qs: seq<seq<Entry>>, last: Map, keys: set<Key>, op: Op,
                   key: Key, n: Option<int64>)
    requires Inv(env, c, qs, last, keys) && key in keys && op.key in keys && Safe(env, c, op)
    requires op.key == key ==> op.IncrOp?
    requires CounterIs(env, c, key, n)
    ensures var n' := Tally(n, key, [op]);
            n'.Some? ==> n'.value < INLINE_FLAG && 0 <= n'.value
    ensures CounterIs(env, Apply(env, c, op), key, Tally(n, key, [op]))
  {
    hide Refines, SlotsCover, ReadAt, Write, UpdateInPlace, EncodeInline, DecodeInline, IsInline, ShardSet;
    var i, h := ShardOf(env, c, op.key), env.hash(op.key);
    if n.Some? {
      InlineRoundTripIff(n.value);
    }
    assert Tally(n, key, [op]) == if op.key == key then Some((if n.None? then 0 else n.value) + op.delta) else n;
    if op.SetOp? {
      SetKeepsCounter(env, c.shards[i], qs[i], last, h, op.key, op.value, env.hash(key));
    }
  }

  lemma {:induction false} RunCounts(env: Env, c: Cache, qs: seq<seq<Entry>>, last: Map, keys: set<Key>, ops: seq<Op>,
                                     key: Key, n: Option<int64>)
    requires Inv(env, c, qs, last, keys) && key in keys && SafeRun(env, c, ops)
    requires forall op | op in ops :: op.key in keys && (op.key == key ==> op.IncrOp?)
    requires CounterIs(env, c, key, n)
    ensures var n' := Tally(n, key, ops);
            n'.Some? ==> n'.value < INLINE_FLAG && 0 <= n'.value
    ensures CounterIs(env, Run(env, c, ops), key, Tally(n, key, ops))
    decreases |ops|
  {
    hide Refines, SlotsCover, Apply, Record, Safe, CounterIs;
    if ops == [] {
      if n.Some? {
        CounterInRange(env, c, key, n);
      }
    } else {
      StepCounts(env, c, qs, last, keys, ops[0], key, n);
      var qs1 := StepKeepsInv(env, c, qs, last, keys, ops[0]);
      RunCounts(env, Apply(env, c, ops[0]), qs1, Record(env, c, last, ops[0]), keys, ops[1..], key,
                Tally(n, key, [ops[0]]));
    }
  }

  lemma CounterInRange(env: Env, c: Cache, key: Key, n: Option<int64>)
    requires |c.shards| > 0 && CounterIs(env, c, key, n) && n.Some?
    ensures 0 <= n.value
  {
  }

  /**
   * Counters are exact and are never evicted: after every run of supported operations from an empty cache, a key
   * that is only counted on reads as the sum of its increments, whatever happens to other keys.
   */
  lemma CountersAreSums(env: Env, c: Cache, keys: set<Key>, ops: seq<Op>, key: Key)
    requires Empty(c) && Injective(env, keys) && key in keys && SafeRun(env, c, ops)
    requires forall op | op in ops :: op.key in keys && (op.key == key ==> op.IncrOp?)
    ensures var sum := Tally(None, key, ops);
            Get(env, Run(env, c, ops), key) == if sum.None? then None else Some(Decimal.Format(sum.value))
  {
    hide Refines, SlotsCover;
    EmptyInv(env, c, keys);
    RunCounts(env, c, seq(|c.shards|, _ => []), map[], keys, ops, key, None);
    var sum := Tally(None, key, ops);
    if sum.Some? {
      InlineRoundTripIff(sum.value);
    }
    hide Run, SafeRun, Tally;
  }

  // ---------------------------------------------------------------------------
  // What one Set keeps, with a gap or a shrinking entry or without

  /** A word at another entry still reads as that entry after an update in place. */
  lemma UpdateSparesOthers(r: Ring, q: seq<Entry>, i: nat, e: Entry, j: nat)
    requires Fifo(r, q) && i < |q| && j < |q| && i != j && UpdateInPlace(r, Offset(r, q, i), e).Some?
    ensures ReadAt(UpdateInPlace(r, Offset(r, q, i), e).value.data, Offset(r, q, j)) == Some(q[j])
  {
    OffsetIsEntryStart(r, q, i);
    UpdateInside(r, Offset(r, q, i), e);
    hide ReadAt, UpdateInPlace, Fifo;
    EntriesDisjoint(r, q, if i < j then i else j, if i < j then j else i);
    OffsetInside(r, q, i);
    UpdateFits(r, q, i, e);
    SplicedElsewhere(r, q, e, j, Offset(r, q, i));
  }

  lemma UpdateFits(r: Ring, q: seq<Entry>, i: nat, e: Entry)
    requires Fifo(r, q) && i < |q| && UpdateInPlace(r, Offset(r, q, i), e).Some?
    ensures Size(e) <= Size(q[i])
  {
    OffsetIsEntryStart(r, q, i);
    assert Faithful(q[i]) by { assert StoredAt(r.data, Offset(r, q, i), q[i]); }
  }

  lemma UpdateReadsBack(r: Ring, q: seq<Entry>, i: nat, e: Entry)
    requires Fifo(r, q) && i < |q| && Faithful(e) && UpdateInPlace(r, Offset(r, q, i), e).Some?
    ensures ReadAt(UpdateInPlace(r, Offset(r, q, i), e).value.data, Offset(r, q, i)) == Some(e)
  {
    var at := Offset(r, q, i);
    OffsetIsEntryStart(r, q, i);
    UpdateInside(r, at, e);
    hide Unmarshal, ReadAt, UpdateInPlace;
    SpliceInside(r.data, at, Bytes(e));
    ReadSpliced(Splice(r.data, at, Bytes(e)), at, e);
  }

  /** The words of two hashes point at different entries. */
  lemma WordsApart(s: Shard, q: seq<Entry>, g: uint64, h: uint64, i: nat, j: nat)
    requires g in s.index && h in s.index && g != h && i < |q| && j < |q|
    requires PointsAt(s, q, g, i) && PointsAt(s, q, h, j)
    ensures i != j
  {
  }

  /** What Get reads of another key of the shard after an update in place. */
  lemma InPlaceSpares(env: Env, s: Shard, q: seq<Entry>, last: Map, key: Key, value: Val, k: Key)
    requires Refines(env, s, q, last) && env.hash(k) != env.hash(key)
    requires InPlace(s, env.hash(key), EntryFor(env.hash(key), key, value))
    ensures Ready(s)
    ensures ShardGet(ShardSet(s, env.hash(key), key, value).0, env.hash(k), k) == ShardGet(s, env.hash(k), k)
  {
    hide ReadAt, HeaderAt, Write, Fifo, Refines, UpdateInPlace;
    var h, g := env.hash(key), env.hash(k);
    RefinesNoPanic(env, s, q, last, h, key, value);
    RefinesFifo(env, s, q, last);
    var k0, i := WordPoints(env, s, q, last, h);
    if g in s.index && !IsInline(s.index[g]) {
      var k1, j := WordPoints(env, s, q, last, g);
      WordsApart(s, q, h, g, i, j);
      UpdateSparesOthers(s.ring, q, i, EntryFor(h, key, value), j);
      OffsetIsEntryStart(s.ring, q, j);
    }
  }

  /** The same after a write that evicts: the key is gone exactly if its word is among the evicted ones. */
  lemma WriteSpares(env: Env, s: Shard, q: seq<Entry>, last: Map, key: Key, value: Val, k: Key)
    requires Refines(env, s, q, last) && env.hash(k) != env.hash(key) && Ready(s)
    requires !InPlace(s, env.hash(key), EntryFor(env.hash(key), key, value))
    requires ShardSet(s, env.hash(key), key, value).1
    ensures var h, g := env.hash(key), env.hash(k);
            var evicted := Write(s.ring, EntryFor(h, key, value)).evicted;
            ShardGet(ShardSet(s, h, key, value).0, g, k) ==
            if g in s.index && Evicted(g, s.index[g]) in evicted then None else ShardGet(s, g, k)
  {
    hide ReadAt, HeaderAt, Write, Fifo, Refines, UpdateInPlace;
    var h, g := env.hash(key), env.hash(k);
    var e := EntryFor(h, key, value);
    RefinesFifo(env, s, q, last);
    ShardSetWords(s, h, key, value, g);
    WriteSafeOnAnyBytes(s.ring, e);
    if g in s.index && !IsInline(s.index[g]) && Evicted(g, s.index[g]) !in Write(s.ring, e).evicted {
      var k1, j := WordPoints(env, s, q, last, g);
      WriteEvictsLeast(s.ring, q, e, j);
      VictimListed(s.ring, q, |Write(s.ring, e).evicted|, j);
      SurvivorsAreRead(s.ring, q, e, j);
      OffsetIsEntryStart(s.ring, q, j);
    }
  }

  /** The index word of a hash is an inline counter. */
  predicate CountsInline(s: Shard, h: uint64) { h in s.index && IsInline(s.index[h]) }

  /** Set succeeds exactly when the entry fits the ring; then it is read back, otherwise only a counter is dropped. */
  lemma SetReadsBack(env: Env, s: Shard, q: seq<Entry>, last: Map, key: Key, value: Val)
    requires Refines(env, s, q, last) && |key| < 0x1_0000 && |value| < 0x1_0000
    ensures Ready(s)
    ensures var h := env.hash(key);
            var (s', ok) := ShardSet(s, h, key, value);
            && (ok <==> HEADER_SIZE + |key| + |value| <= s.ring.Capacity())
            && ShardGet(s', h, key) == if ok then Some(value)
                                       else if CountsInline(s, h) then None else ShardGet(s, h, key)
  {
    hide ReadAt, HeaderAt, Write, Fifo, Refines, UpdateInPlace;
    var h := env.hash(key);
    var e := EntryFor(h, key, value);
    RefinesNoPanic(env, s, q, last, h, key, value);
    RefinesFifo(env, s, q, last);
    if InPlace(s, h, e) {
      var k0, i := WordPoints(env, s, q, last, h);
      UpdateInPlaceFifoIff(s.ring, q, i, e);
      OffsetInside(s.ring, q, i);
      UpdateReadsBack(s.ring, q, i, e);
    } else {
      WriteSafeOnAnyBytes(s.ring, e);
    }
  }

  /** What Get reads of another key of the shard after any Set. */
  lemma ShardSetSpares(env: Env, s: Shard, q: seq<Entry>, last: Map, key: Key, value: Val, k: Key)
    requires Refines(env, s, q, last) && env.hash(k) != env.hash(key)
    ensures Ready(s)
    ensures var h, g := env.hash(key), env.hash(k);
            ShardGet(ShardSet(s, h, key, value).0, g, k) ==
            if g in s.index && Evicted(g, s.index[g]) in ShardEvicts(s, h, key, value) then None else ShardGet(s, g, k)
  {
    hide Refines, Write, UpdateInPlace, ReadAt, HeaderAt;
    var h := env.hash(key);
    RefinesNoPanic(env, s, q, last, h, key, value);
    ShardSetWords(s, h, key, value, env.hash(k));
    if InPlace(s, h, EntryFor(h, key, value)) {
      InPlaceSpares(env, s, q, last, key, value, k);
    } else if ShardSet(s, h, key, value).1 {
      WriteSpares(env, s, q, last, key, value, k);
    }
  }

  /**
   * One Set from any state a supported run reaches, even one that leaves a gap or shrinks an entry: it succeeds
   * exactly when the entry fits the ring, and then the key is read back; otherwise only a counter is dropped. Another
   * key changes only by disappearing, exactly when it is evicted.
   */
  lemma SetRetains(env: Env, c: Cache, qs: seq<seq<Entry>>, last: Map, keys: set<Key>, key: Key, value: Val, k: Key)
    requires Inv(env, c, qs, last, keys) && key in keys && k in keys && |key| < 0x1_0000 && |value| < 0x1_0000
    ensures var (c', ok) := Set(env, c, key, value);
            var s := c.shards[ShardOf(env, c, key)];
            && (ok <==> HEADER_SIZE + |key| + |value| <= s.ring.Capacity())
            && Get(env, c', key) == (if ok then Some(value)
                                     else if CountsInline(s, env.hash(key)) then None else Get(env, c, key))
            && (k != key ==> Get(env, c', k) == if Displaces(env, c, key, value, k) then None else Get(env, c, k))
  {
    hide Refines, SlotsCover, ShardSet, ShardGet, InPlace, ShardEvicts;
    var i := ShardOf(env, c, key);
    SetReadsBack(env, c.shards[i], qs[i], last, key, value);
    if k != key && ShardOf(env, c, k) == i {
      ShardSetSpares(env, c.shards[i], qs[i], last, key, value, k);
    }
  }

  /**
   * After every run of supported operations from an empty cache, Set addresses nothing past a ring's end, and any
   * Set of 16-bit lengths that succeeds is read back at once, while every other key keeps what it had unless it is
   * evicted.
   */
  lemma CacheKeepsWrites(env: Env, c: Cache, keys: set<Key>, ops: seq<Op>, key: Key, value: Val, k: Key)
    requires Empty(c) && Injective(env, keys) && key in keys && k in keys
    requires SafeRun(env, c, ops) && forall op | op in ops :: op.key in keys
    ensures var c1 := Run(env, c, ops);
            && !Panics(c1.shards[ShardOf(env, c1, key)], env.hash(key), key, value)
            && (|key| < 0x1_0000 && |value| < 0x1_0000 ==>
                  var (c2, ok) := Set(env, c1, key, value);
                  && (ok ==> Get(env, c2, key) == Some(value))
                  && (k != key ==>
                        Get(env, c2, k) == if Displaces(env, c1, key, value, k) then None else Get(env, c1, k)))
  {
    hide Refines, SlotsCover, ShardGet, ShardSet, Panics, Safe;
    EmptyInv(env, c, keys);
    var qs := RunKeepsInv(env, c, seq(|c.shards|, _ => []), map[], keys, ops);
    var c1, last := Run(env, c, ops), RecordRun(env, c, map[], ops);
    var i := ShardOf(env, c1, key);
    RefinesNoPanic(env, c1.shards[i], qs[i], last, env.hash(key), key, value);
    if |key| < 0x1_0000 && |value| < 0x1_0000 {
      SetRetains(env, c1, qs, last, keys, key, value, k);
    }
  }
}

/** The cache itself: shards whose index and ring are updated in place. */
module ShardedCaches {
  import opened Options
  import opened EntryFormat
  import opened RingModel
  import opened RingBuffers
  import opened CacheModel
  import opened CacheRefinement
  import Decimal

  const DEFAULT_SHARDS := 4096
  const DEFAULT_RING_SIZE := 0x40_0000

  class ZeroGCShard {
    var index: map<uint64, uint64>
    const ring: RingBuffer

    function View(): Shard
      reads this, ring, ring.data
    {
      Shard(index, ring.View())
    }

    constructor (ringSize: int64)
      ensures fresh(ring) && fresh(ring.data)
      ensures View().index == map[] && Fifo(View().ring, []) && View().ring.Capacity() <= INLINE_FLAG
    {
      index := map[];
      ring := new RingBuffer(ringSize);
    }

    /** The locked part of Set: in place if it fits, otherwise a ring write and an index update. */
    method Set(hash: uint64, key: Key, value: Val) returns (ok: bool, inPlace: bool)
      requires Ready(View()) && !Panics(View(), hash, key, value)
      modifies this, ring, ring.data
      ensures (View(), ok) == ShardSet(old(View()), hash, key, value)
      ensures inPlace == InPlace(old(View()), hash, EntryFor(hash, key, value))
    {
      hide Write, Unmarshal, HeaderAt;
      var e := EntryFor(hash, key, value);
      if hash in index && IsInline(index[hash]) {
        index := index - {hash};
      } else if hash in index {
        inPlace := ring.UpdateInPlace(index[hash], e);
        if inPlace {
          return true, true;
        }
      }
      WriteSafeOnAnyBytes(ring.View(), e);
      var offset, evicted;
      ok, offset, evicted := ring.WriteWithEvict(e);
      if !ok {
        return false, false;
      }
      ghost var before := index;
      for i := 0 to |evicted|
        invariant ring.View() == Write(old(ring.View()), e).ring
        invariant Unindex(index, evicted[i..]) == Unindex(before, evicted)
      {
        var ev := evicted[i];
        assert evicted[i..][1..] == evicted[i + 1..];
        if ev.hash in index && index[ev.hash] == ev.offset {
          index := index - {ev.hash};
        }
      }
      index := index[hash := offset];
      inPlace := false;
    }

    method Get(hash: uint64, key: Key) returns (r: Option<Val>)
      ensures r == ShardGet(View(), hash, key)
    {
      if hash !in index {
        return None;
      }
      if IsInline(index[hash]) {
        return Some(Decimal.Format(DecodeInline(index[hash])));
      }
      var e := ring.ReadAt(index[hash]);
      if e.None? || e.value.key != key {
        return None;
      }
      return Some(e.value.value);
    }

    method IncrBy(hash: uint64, key: Key, delta: int64) returns (r: Option<int64>, created: bool)
      modifies `index
      ensures match ShardIncr(old(View()), hash, key, delta)
              case NotInteger => View() == old(View()) && r == None && !created
              case Incremented(shard, v, isNew) => View() == shard && r == Some(v) && created == isNew
    {
      created := hash !in index;
      var v := delta;
      if hash in index && IsInline(index[hash]) {
        v := Add64(DecodeInline(index[hash]), delta);
      } else if hash in index {
        var e := ring.ReadAt(index[hash]);
        if e.Some? && e.value.key == key {
          var current := Decimal.ParseInt64(e.value.value);
          if current.None? {
            return None, false;
          }
          v := Add64(current.value, delta);
        }
      }
      index := index[hash := EncodeInline(v)];
      r := Some(v);
    }
  }

  class ShardedCache {
    const env: Env
    const shards: seq<ZeroGCShard>
    var slotIndex: map<Slot, set<Key>>

    ghost function Repr(): (r: set<object>)
      ensures this in r
      ensures forall i | 0 <= i < |shards| :: shards[i] in r && shards[i].ring in r && shards[i].ring.data in r
    {
      (set s: ZeroGCShard | s in shards :: s as object) + (set s: ZeroGCShard | s in shards :: s.ring as object)
      + (set s: ZeroGCShard | s in shards :: s.ring.data as object) + {this as object}
    }

    /** Shards share no memory. */
    ghost predicate Valid()
    {
      |shards| > 0 &&
      forall i, j | 0 <= i < j < |shards| ::
        shards[i] != shards[j] && shards[i].ring != shards[j].ring && shards[i].ring.data != shards[j].ring.data
    }

    ghost function View(): (c: Cache)
      reads this, Repr()
      ensures |c.shards| == |shards|
    {
      Cache(seq(|shards|, i requires 0 <= i < |shards| reads Repr() => shards[i].View()), slotIndex)
    }

    constructor (env: Env, shardCount: int, ringSize: int64)
      ensures Valid() && fresh(Repr()) && this.env == env
      ensures |shards| == if shardCount <= 0 then DEFAULT_SHARDS else shardCount
      ensures Empty(View())
    {
      var n := if shardCount <= 0 then DEFAULT_SHARDS else shardCount;
      var size := if ringSize <= 0 then DEFAULT_RING_SIZE else ringSize;
      var created: seq<ZeroGCShard> := [];
      while |created| < n
        invariant |created| <= n
        invariant forall i | 0 <= i < |created| ::
          fresh(created[i]) && fresh(created[i].ring) && fresh(created[i].ring.data)
          && created[i].View().index == map[] && Fifo(created[i].View().ring, [])
          && created[i].View().ring.Capacity() <= INLINE_FLAG
        invariant forall i, j | 0 <= i < j < |created| ::
          created[i] != created[j] && created[i].ring != created[j].ring && created[i].ring.data != created[j].ring.data
      {
        var shard := new ZeroGCShard(size);
        created := created + [shard];
      }
      this.env := env;
      shards := created;
      slotIndex := map[];
    }

    method Set(key: Key, value: Val) returns (ok: bool)
      requires Valid() && Ready(View().shards[ShardOf(env, View(), key)])
      requires !Panics(View().shards[ShardOf(env, View(), key)], env.hash(key), key, value)
      modifies Repr()
      ensures (View(), ok) == CacheModel.Set(env, old(View()), key, value)
    {
      hide ShardSet, Ready, Panics, InPlace;
      var i := env.hash(key) % |shards|;
      var inPlace;
      ok, inPlace := shards[i].Set(env.hash(key), key, value);
      if ok && !inPlace {
        var slot := env.slot(key);
        slotIndex := slotIndex[slot := (if slot in slotIndex then slotIndex[slot] else {}) + {key}];
      }
      assert View().shards == old(View()).shards[i := shards[i].View()];
    }

    method Get(key: Key) returns (r: Option<Val>)
      requires Valid()
      ensures r == CacheModel.Get(env, View(), key)
    {
      var i := env.hash(key) % |shards|;
      r := shards[i].Get(env.hash(key), key);
    }

    method IncrBy(key: Key, delta: int64) returns (r: Option<int64>)
      requires Valid()
      modifies Repr()
      ensures (View(), r) == CacheModel.IncrBy(env, old(View()), key, delta)
    {
      hide ShardIncr;
      var i := env.hash(key) % |shards|;
      var created;
      r, created := shards[i].IncrBy(env.hash(key), key, delta);
      if created {
        var slot := env.slot(key);
        slotIndex := slotIndex[slot := (if slot in slotIndex then slotIndex[slot] else {}) + {key}];
      }
      assert View().shards == old(View()).shards[i := shards[i].View()];
    }

    method Delete(key: Key) returns (existed: bool)
      requires Valid()
      modifies Repr()
      ensures (View(), existed) == CacheModel.Delete(env, old(View()), key)
    {
      var i, hash := env.hash(key) % |shards|, env.hash(key);
      if hash !in shards[i].index {
        return false;
      }
      shards[i].index := shards[i].index - {hash};
      slotIndex := RemoveFromSlot(slotIndex, env.slot(key), {key});
      assert View().shards == old(View()).shards[i := shards[i].View()];
      existed := true;
    }

    /**
     * The readable keys listed under a slot, each once, at most count of them if count is positive, in any order;
     * keys found unreadable on the way are dropped from the list.
     */
    method KeysInSlot(slot: Slot, count: int) returns (result: seq<Key>, ghost stale: set<Key>)
      requires Valid()
      modifies `slotIndex
      ensures forall i, j | 0 <= i < j < |result| :: result[i] != result[j]
      ensures forall k | k in result :: Listed(old(slotIndex), slot, k) && CacheModel.Get(env, old(View()), k).Some?
      ensures count > 0 ==> |result| <= count
      ensures count <= 0 || |result| < count ==>
                forall k | Listed(old(slotIndex), slot, k) && CacheModel.Get(env, old(View()), k).Some? :: k in result
      ensures forall k | k in stale :: Listed(old(slotIndex), slot, k) && CacheModel.Get(env, old(View()), k).None?
      ensures View() == if stale == {} then old(View())
                        else old(View()).(slotIndex := RemoveFromSlot(old(slotIndex), slot, stale))
    {
      hide ShardGet;
      result, stale := [], {};
      if slot !in slotIndex {
        return;
      }
      var listed := slotIndex[slot];
      var candidates, unreadable: set<Key> := listed, {};
      ghost var c := View();
      while candidates != {} && !(count > 0 && |result| >= count)
        invariant View() == c && candidates <= listed && unreadable <= listed
        invariant forall k | k in result :: k in listed - candidates && CacheModel.Get(env, c, k).Some?
        invariant forall i, j | 0 <= i < j < |result| :: result[i] != result[j]
        invariant forall k | k in unreadable :: CacheModel.Get(env, c, k).None?
        invariant forall k | k in listed - candidates :: k in result || k in unreadable
        invariant count > 0 ==> |result| <= count
        decreases candidates
      {
        var k :| k in candidates;
        var r := Get(k);
        if r.Some? {
          assert k !in result;
          result := result + [k];
        } else {
          unreadable := unreadable + {k};
        }
        candidates := candidates - {k};
      }
      stale := unreadable;
      if unreadable != {} {
        slotIndex := RemoveFromSlot(slotIndex, slot, unreadable);
        assert View() == c.(slotIndex := slotIndex);
      }
    }
  }
}
