/** Serialised entries: bytes, little-endian integers and the 24-byte entry header. */
module EntryFormat {
  import opened Options

  type byte = b: int | 0 <= b < 256
  type uint16 = n: int | 0 <= n < 0x1_0000
  type uint64 = n: int | 0 <= n < 0x1_0000_0000_0000_0000
  type int64 = n: int | -0x8000_0000_0000_0000 <= n < 0x8000_0000_0000_0000

  const HEADER_SIZE := 24

  datatype Header = Header(expireAt: int64, hash: uint64,
                           keyLen: uint16, valLen: uint16, valCap: uint16, flags: uint16)

  /** An entry as its writer sees it. */
  datatype Entry = Entry(header: Header, key: seq<byte>, value: seq<byte>)

  /** Conversion of a signed to an unsigned 64-bit word, and back. */
  function ToUint64(n: int64): uint64 {
    if n < 0 then n + 0x1_0000_0000_0000_0000 else n
  }

  function ToInt64(n: uint64): int64 {
    if n < 0x8000_0000_0000_0000 then n else n - 0x1_0000_0000_0000_0000
  }

  function Pow256(k: nat): nat {
    if k == 0 then 1 else 256 * Pow256(k - 1)
  }

  function LittleEndian(n: nat, width: nat): (s: seq<byte>)
    ensures |s| == width
  {
    if width == 0 then [] else [n % 256] + LittleEndian(n / 256, width - 1)
  }

  function FromLittleEndian(s: seq<byte>): (n: nat)
    ensures n < Pow256(|s|)
  {
    if s == [] then 0 else s[0] + 256 * FromLittleEndian(s[1..])
  }

  lemma {:induction false} LittleEndianRoundTrip(n: nat, width: nat)
    requires n < Pow256(width)
    ensures FromLittleEndian(LittleEndian(n, width)) == n
  {
    if width > 0 {
      LittleEndianRoundTrip(n / 256, width - 1);
      assert LittleEndian(n, width)[1..] == LittleEndian(n / 256, width - 1);
    }
  }

  lemma WidthBounds()
    ensures Pow256(2) == 0x1_0000
    ensures Pow256(8) == 0x1_0000_0000_0000_0000
  {
    assert Pow256(4) == 0x1_0000_0000;
    assert Pow256(6) == 0x1_0000_0000_0000;
  }

  function Uint16From(s: seq<byte>): uint16
    requires |s| == 2
  {
    WidthBounds();
    FromLittleEndian(s)
  }

  function Uint64From(s: seq<byte>): uint64
    requires |s| == 8
  {
    WidthBounds();
    FromLittleEndian(s)
  }

  function Marshal(h: Header): (s: seq<byte>)
    ensures |s| == HEADER_SIZE
  {
    LittleEndian(ToUint64(h.expireAt), 8) + LittleEndian(h.hash, 8)
    + LittleEndian(h.keyLen, 2) + LittleEndian(h.valLen, 2)
    + LittleEndian(h.valCap, 2) + LittleEndian(h.flags, 2)
  }

  function Unmarshal(s: seq<byte>): Header
    requires |s| >= HEADER_SIZE
  {
    Header(ToInt64(Uint64From(s[0..8])), Uint64From(s[8..16]),
           Uint16From(s[16..18]), Uint16From(s[18..20]),
           Uint16From(s[20..22]), Uint16From(s[22..24]))
  }

  /** Reading back a marshalled header gives the header, whatever follows it. */
  lemma HeaderRoundTrip(h: Header, rest: seq<byte>)
    ensures Unmarshal(Marshal(h) + rest) == h
  {
    WidthBounds();
    var s := Marshal(h) + rest;
    assert s[0..8] == LittleEndian(ToUint64(h.expireAt), 8);
    assert s[8..16] == LittleEndian(h.hash, 8);
    assert s[16..18] == LittleEndian(h.keyLen, 2);
    assert s[18..20] == LittleEndian(h.valLen, 2);
    assert s[20..22] == LittleEndian(h.valCap, 2);
    assert s[22..24] == LittleEndian(h.flags, 2);
    LittleEndianRoundTrip(ToUint64(h.expireAt), 8);
    LittleEndianRoundTrip(h.hash, 8);
    LittleEndianRoundTrip(h.keyLen, 2);
    LittleEndianRoundTrip(h.valLen, 2);
    LittleEndianRoundTrip(h.valCap, 2);
    LittleEndianRoundTrip(h.flags, 2);
  }

  /** The size a header announces. */
  function HeaderEntrySize(h: Header): nat {
    HEADER_SIZE + h.keyLen + h.valLen
  }

  /** The size an entry takes. */
  function Size(e: Entry): nat {
    HEADER_SIZE + |e.key| + |e.value|
  }

  function Bytes(e: Entry): (s: seq<byte>)
    ensures |s| == Size(e)
  {
    Marshal(e.header) + e.key + e.value
  }

  /** The header's lengths are the real ones. */
  predicate Faithful(e: Entry) {
    e.header.keyLen == |e.key| && e.header.valLen == |e.value|
  }
}

/**
 * The ring buffer on values: what every operation does to the bytes and the
 * three positions, and when it behaves as a FIFO queue of entries.
 */
module RingModel {
  import opened Options
  import opened EntryFormat

  datatype Ring = Ring(data: seq<byte>, head: int, tail: int, used: int) {
    function Capacity(): nat { |data| }
  }

  datatype Evicted = Evicted(hash: uint64, offset: int)

  /** Bounds that hold of any buffer, whatever bytes it contains. */
  predicate InBounds(r: Ring) {
    0 <= r.head < r.Capacity() && 0 <= r.tail <= r.Capacity() && r.used <= r.Capacity()
  }

  function HeaderAt(data: seq<byte>, offset: int): Option<Header> {
    if offset < 0 || offset + HEADER_SIZE > |data| then None
    else Some(Unmarshal(data[offset..]))
  }

  /** ReadAt: header, key and value at an offset, or no result when out of range. */
  function ReadAt(data: seq<byte>, offset: int): Option<Entry> {
    match HeaderAt(data, offset)
    case None => None
    case Some(h) =>
      var keyStart := offset + HEADER_SIZE;
      var keyEnd := keyStart + h.keyLen;
      var valEnd := keyEnd + h.valLen;
      if valEnd > |data| then None
      else Some(Entry(h, data[keyStart..keyEnd], data[keyEnd..valEnd]))
  }

  /** Overwrites |bytes| bytes from offset on. */
  function Splice(data: seq<byte>, offset: nat, bytes: seq<byte>): (d: seq<byte>)
    requires offset + |bytes| <= |data|
    ensures |d| == |data|
  {
    data[..offset] + bytes + data[offset + |bytes|..]
  }

  /** One eviction: drops the item at head; None when the bytes there are no item. */
  function EvictOne(r: Ring): Option<(Ring, Evicted)> {
    match HeaderAt(r.data, r.head)
    case None => None
    case Some(h) =>
      var itemSize := HeaderEntrySize(h);
      if itemSize > r.Capacity() then None
      else
        var next := r.head + itemSize;
        Some((r.(head := if next >= r.Capacity() then 0 else next, used := r.used - itemSize),
              Evicted(h.hash, r.head)))
  }

  function Cleared(r: Ring): Ring {
    r.(head := 0, tail := 0, used := 0)
  }

  /** First loop of a write: evict from the head until size bytes are free. */
  function EvictForSpace(r: Ring, size: nat, evicted: seq<Evicted>): (Ring, seq<Evicted>)
    requires size <= r.Capacity()
    decreases r.used
  {
    if size <= r.Capacity() - r.used then (r, evicted)
    else match EvictOne(r)
      case None => (Cleared(r), [])
      case Some((next, ev)) => EvictForSpace(next, size, evicted + [ev])
  }

  /** Second loop of a write, after a wrap: evict until the head is beyond size. */
  function EvictForWrap(r: Ring, size: nat, evicted: seq<Evicted>): (Ring, seq<Evicted>)
    decreases r.used
  {
    if !(r.used > 0 && size > r.head) then (r, evicted)
    else match EvictOne(r)
      case None => (Cleared(r), [])
      case Some((next, ev)) => EvictForWrap(next, size, evicted + [ev])
  }

  /** Both loops: the ring before the bytes go in at its tail, and the evicted items. */
  function MakeRoom(r: Ring, size: nat): (Ring, seq<Evicted>)
    requires size <= r.Capacity()
  {
    var (r1, ev1) := EvictForSpace(r, size, []);
    if r1.tail + size > r.Capacity() then EvictForWrap(r1.(tail := 0), size, ev1) else (r1, ev1)
  }

  datatype WriteResult = TooLarge | Written(ring: Ring, offset: int, evicted: seq<Evicted>)

  function Write(r: Ring, e: Entry): WriteResult
    requires InBounds(r)
  {
    if Size(e) > r.Capacity() then TooLarge
    else
      MakeRoomInBounds(r, Size(e));
      var (room, evicted) := MakeRoom(r, Size(e));
      Written(Ring(Splice(room.data, room.tail, Bytes(e)), room.head, room.tail + Size(e), room.used + Size(e)),
              room.tail, evicted)
  }

  /** An offset at which an entry that lies inside the buffer starts. */
  predicate EntryStart(r: Ring, offset: int) {
    HeaderAt(r.data, offset).Some? ==>
      offset + HeaderEntrySize(HeaderAt(r.data, offset).value) <= r.Capacity()
  }

  /** As many of the bytes as there is room for: copying stops at the end of the buffer. */
  function Fitting(bytes: seq<byte>, room: nat): (r: seq<byte>)
    ensures |r| <= room && r <= bytes
  {
    if |bytes| <= room then bytes else bytes[..room]
  }

  /** In-place overwrite: None when the offset is out of range or the old entry too small. */
  function UpdateInPlace(r: Ring, offset: int, e: Entry): Option<Ring> {
    match HeaderAt(r.data, offset)
    case None => None
    case Some(stored) =>
      if Size(e) > HeaderEntrySize(stored) then None
      else Some(r.(data := Splice(r.data, offset, Fitting(Bytes(e), r.Capacity() - offset))))
  }

  /** An overwrite whose key runs past the end of the buffer, where the value cannot be addressed any more. */
  predicate Overruns(r: Ring, offset: int, e: Entry) {
    UpdateInPlace(r, offset, e).Some? && offset + HEADER_SIZE + |e.key| > r.Capacity()
  }

  lemma UpdateKeepsShape(r: Ring, offset: int, e: Entry)
    requires UpdateInPlace(r, offset, e).Some?
    ensures var r' := UpdateInPlace(r, offset, e).value;
            r'.head == r.head && r'.tail == r.tail && r'.used == r.used && r'.Capacity() == r.Capacity()
  {
  }

  /** Inside an entry of the buffer, nothing is cut off. */
  lemma UpdateInside(r: Ring, offset: int, e: Entry)
    requires EntryStart(r, offset)
    ensures !Overruns(r, offset, e)
    ensures UpdateInPlace(r, offset, e).Some? ==>
              offset >= 0 && offset + Size(e) <= r.Capacity()
              && UpdateInPlace(r, offset, e) == Some(r.(data := Splice(r.data, offset, Bytes(e))))
  {
    hide Unmarshal;
  }

  // ---------------------------------------------------------------------------
  // Safety on any bytes

  lemma {:induction false} EvictForSpaceInBounds(r: Ring, size: nat, evicted: seq<Evicted>)
    requires InBounds(r) && size <= r.Capacity()
    ensures var r' := EvictForSpace(r, size, evicted).0;
            InBounds(r') && r'.data == r.data && size <= r'.Capacity() - r'.used
    decreases r.used
  {
    if size > r.Capacity() - r.used && EvictOne(r).Some? {
      var (next, ev) := EvictOne(r).value;
      EvictForSpaceInBounds(next, size, evicted + [ev]);
    }
  }

  lemma {:induction false} EvictForWrapInBounds(r: Ring, size: nat, evicted: seq<Evicted>)
    requires InBounds(r) && r.tail == 0 && size <= r.Capacity() - r.used
    ensures var r' := EvictForWrap(r, size, evicted).0;
            InBounds(r') && r'.data == r.data && r'.tail == 0 && r'.used <= r.used && (r'.used <= 0 || size <= r'.head)
    decreases r.used
  {
    if r.used > 0 && size > r.head && EvictOne(r).Some? {
      var (next, ev) := EvictOne(r).value;
      EvictForWrapInBounds(next, size, evicted + [ev]);
    }
  }

  /** Whatever the bytes are, both loops make room, and after a wrap no counted byte lies before the end of the room. */
  lemma MakeRoomInBounds(r: Ring, size: nat)
    requires InBounds(r) && size <= r.Capacity()
    ensures var room := MakeRoom(r, size).0;
            InBounds(room) && room.data == r.data
            && room.tail + size <= r.Capacity() && room.used + size <= r.Capacity()
    ensures EvictForSpace(r, size, []).0.tail + size > r.Capacity() ==>
              var room := MakeRoom(r, size).0;
              room.tail == 0 && (room.used <= 0 || size <= room.head)
  {
    EvictForSpaceInBounds(r, size, []);
    var (r1, ev1) := EvictForSpace(r, size, []);
    if r1.tail + size > r.Capacity() {
      EvictForWrapInBounds(r1.(tail := 0), size, ev1);
    }
  }

  /** The bytes at the head are no item: no header fits there, or it announces more than the buffer holds. */
  predicate Damaged(r: Ring) {
    match HeaderAt(r.data, r.head)
    case None => true
    case Some(h) => HeaderEntrySize(h) > r.Capacity()
  }

  /** A write that would have to evict damaged bytes starts over: the ring is emptied and nothing is reported. */
  lemma DamageClears(r: Ring, e: Entry)
    requires InBounds(r) && Size(e) <= r.Capacity() && Damaged(r)
    ensures var starts := Written(Ring(Splice(r.data, 0, Bytes(e)), 0, Size(e), Size(e)), 0, []);
            && (Size(e) > r.Capacity() - r.used ==> Write(r, e) == starts)
            && (Size(e) <= r.Capacity() - r.used && r.tail + Size(e) > r.Capacity() && r.used > 0 && r.head < Size(e)
                ==> Write(r, e) == starts)
  {
    hide Unmarshal;
    MakeRoomInBounds(r, Size(e));
  }

  /** An entry stored at an offset is read back from there. */
  lemma ReadSpliced(data: seq<byte>, offset: nat, e: Entry)
    requires offset + Size(e) <= |data| && data[offset..offset + Size(e)] == Bytes(e)
    ensures HeaderAt(data, offset) == Some(e.header)
    ensures ReadAt(data, offset) == Some(e) <==> Faithful(e)
  {
    assert data[offset..] == Marshal(e.header) + (e.key + e.value + data[offset + Size(e)..]) by {
      assert data[offset..] == data[offset..offset + Size(e)] + data[offset + Size(e)..];
    }
    HeaderRoundTrip(e.header, e.key + e.value + data[offset + Size(e)..]);
    if Faithful(e) {
      var s := data[offset..offset + Size(e)];
      var k, v := offset + HEADER_SIZE, offset + HEADER_SIZE + |e.key|;
      assert data[k..v] == s[HEADER_SIZE..HEADER_SIZE + |e.key|] == e.key;
      assert data[v..v + |e.value|] == s[HEADER_SIZE + |e.key|..] == e.value;
    }
  }

  // ---------------------------------------------------------------------------
  // FIFO behaviour

  function Total(q: seq<Entry>): nat {
    if q == [] then 0 else Size(q[0]) + Total(q[1..])
  }

  /** Folds a position in [0, 2 * capacity) back into the buffer. */
  function Wrap(position: int, capacity: int): int {
    if position >= capacity then position - capacity else position
  }

  /** Where entry i of a queue starts when the oldest is at head: entries follow each other. */
  function Position(capacity: nat, head: int, q: seq<Entry>, i: nat): int
    requires i <= |q|
  {
    Wrap(head + Total(q[..i]), capacity)
  }

  function Offset(r: Ring, q: seq<Entry>, i: nat): int
    requires i <= |q|
  {
    Position(r.Capacity(), r.head, q, i)
  }

  predicate StoredAt(data: seq<byte>, offset: int, e: Entry) {
    0 <= offset && offset + Size(e) <= |data| && data[offset..offset + Size(e)] == Bytes(e)
  }

  /** Every entry of the queue is in place, with its real lengths in its header. */
  ghost predicate Layout(data: seq<byte>, head: int, q: seq<Entry>) {
    forall i {:trigger Position(|data|, head, q, i)} | 0 <= i < |q| ::
      Faithful(q[i]) && StoredAt(data, Position(|data|, head, q, i), q[i])
  }

  /** The ring holds exactly the queue q, oldest first, as one circular chain from head to tail. */
  ghost predicate Fifo(r: Ring, q: seq<Entry>) {
    && InBounds(r)
    && r.used == Total(q)
    && Wrap(r.head + r.used, r.Capacity()) == Wrap(r.tail, r.Capacity())
    && Layout(r.data, r.head, q)
  }

  /** A write of this size does not leave unaccounted bytes at the end of the buffer. */
  predicate NoGap(r: Ring, size: nat) {
    r.tail + size <= r.Capacity() || r.tail == r.Capacity()
  }

  lemma {:induction false} TotalConcat(a: seq<Entry>, b: seq<Entry>)
    ensures Total(a + b) == Total(a) + Total(b)
  {
    if a == [] {
      assert a + b == b;
    } else {
      assert (a + b)[1..] == a[1..] + b;
      TotalConcat(a[1..], b);
    }
  }

  lemma TotalSplit(q: seq<Entry>, i: nat)
    requires i <= |q|
    ensures Total(q[..i]) + Total(q[i..]) == Total(q)
  {
    assert q[..i] + q[i..] == q;
    TotalConcat(q[..i], q[i..]);
  }

  lemma TotalStep(q: seq<Entry>, i: nat)
    requires i < |q|
    ensures Total(q[..i + 1]) == Total(q[..i]) + Size(q[i])
  {
    assert q[..i + 1] == q[..i] + [q[i]];
    TotalConcat(q[..i], [q[i]]);
  }

  lemma TotalMonotone(q: seq<Entry>, i: nat, j: nat)
    requires i < j <= |q|
    ensures Total(q[..i]) + Size(q[i]) <= Total(q[..j]) <= Total(q)
  {
    TotalStep(q, i);
    assert q[..j][..i + 1] == q[..i + 1];
    TotalSplit(q[..j], i + 1);
    TotalSplit(q, j);
  }

  /** Live entries occupy disjoint byte ranges, and start at different offsets. */
  lemma EntriesDisjoint(r: Ring, q: seq<Entry>, i: nat, j: nat)
    requires Fifo(r, q) && i < j < |q|
    ensures Offset(r, q, i) + Size(q[i]) <= Offset(r, q, j) || Offset(r, q, j) + Size(q[j]) <= Offset(r, q, i)
  {
    TotalMonotone(q, i, j);
    TotalMonotone(q, j, |q|);
    assert q[..|q|] == q;
    assert StoredAt(r.data, Offset(r, q, i), q[i]) && StoredAt(r.data, Offset(r, q, j), q[j]);
  }

  /** The ring with its oldest entry dropped. */
  function Popped(r: Ring, q: seq<Entry>): Ring
    requires q != []
  {
    r.(head := Wrap(r.head + Size(q[0]), r.Capacity()), used := r.used - Size(q[0]))
  }

  lemma PoppedOffset(r: Ring, q: seq<Entry>, i: nat)
    requires Fifo(r, q) && i < |q|
    ensures Offset(Popped(r, q), q[1..], i) == Offset(r, q, i + 1)
  {
    assert q[..i + 1][1..] == q[1..][..i];
    TotalSplit(q[1..], i);
  }

  lemma FrontStored(r: Ring, q: seq<Entry>)
    requires Fifo(r, q) && q != []
    ensures Offset(r, q, 0) == r.head && StoredAt(r.data, r.head, q[0]) && Faithful(q[0])
  {
    assert q[..0] == [];
  }

  lemma PoppedFifo(r: Ring, q: seq<Entry>)
    requires Fifo(r, q) && q != []
    ensures Fifo(Popped(r, q), q[1..])
  {
    var next := Popped(r, q);
    FrontStored(r, q);
    forall i | 0 <= i < |q[1..]|
      ensures Faithful(q[1..][i]) && StoredAt(r.data, Position(r.Capacity(), next.head, q[1..], i), q[1..][i])
    {
      assert q[1..][i] == q[i + 1];
      PoppedOffset(r, q, i);
      assert StoredAt(r.data, Offset(r, q, i + 1), q[i + 1]);
    }
  }

  /** What eviction reads at the head is the oldest entry. */
  lemma EvictOneFifo(r: Ring, q: seq<Entry>)
    requires Fifo(r, q) && q != []
    ensures EvictOne(r) == Some((Popped(r, q), Evicted(q[0].header.hash, r.head)))
  {
    FrontStored(r, q);
    ReadSpliced(r.data, r.head, q[0]);
  }

  /** The k oldest entries as (hash, offset) pairs, oldest first. */
  function Victims(r: Ring, q: seq<Entry>, k: nat): seq<Evicted>
    requires k <= |q|
  {
    seq(k, i requires 0 <= i < k => Evicted(q[i].header.hash, Offset(r, q, i)))
  }

  /** How many of the oldest entries must go before size bytes fit. */
  function Displaced(q: seq<Entry>, size: nat, capacity: nat): (k: nat)
    ensures k <= |q|
  {
    if q == [] || Total(q) + size <= capacity then 0 else 1 + Displaced(q[1..], size, capacity)
  }

  /** Displaced is the least number of oldest entries whose removal makes room. */
  lemma {:induction false} DisplacedIsLeast(q: seq<Entry>, size: nat, capacity: nat, j: nat)
    requires size <= capacity && j <= |q|
    ensures Total(q[j..]) + size <= capacity <==> j >= Displaced(q, size, capacity)
  {
    if j == 0 {
      assert q[0..] == q;
    } else {
      assert q[1..][j - 1..] == q[j..];
      DisplacedIsLeast(q[1..], size, capacity, j - 1);
      assert q[0..1] + q[1..] == q;
      TotalSplit(q, j);
    }
  }

  lemma VictimsStep(r: Ring, q: seq<Entry>, k: nat)
    requires Fifo(r, q) && 0 < k <= |q|
    ensures Victims(r, q, k) == [Evicted(q[0].header.hash, r.head)] + Victims(Popped(r, q), q[1..], k - 1)
  {
    assert q[..0] == [];
    forall i | 1 <= i < k
      ensures Victims(r, q, k)[i] == Victims(Popped(r, q), q[1..], k - 1)[i - 1]
    {
      PoppedOffset(r, q, i - 1);
    }
  }

  /** The first loop evicts exactly the displaced entries, in order. */
  lemma {:induction false} EvictForSpaceFifo(r: Ring, q: seq<Entry>, size: nat, evicted: seq<Evicted>)
    requires Fifo(r, q) && size <= r.Capacity()
    ensures var k := Displaced(q, size, r.Capacity());
            var (r', ev) := EvictForSpace(r, size, evicted);
            Fifo(r', q[k..]) && r'.tail == r.tail && r'.data == r.data && r'.head == Offset(r, q, k)
            && ev == evicted + Victims(r, q, k)
    decreases |q|
  {
    var k := Displaced(q, size, r.Capacity());
    if size <= r.Capacity() - r.used {
      assert q[0..] == q && q[..0] == [];
    } else {
      EvictOneFifo(r, q);
      PoppedFifo(r, q);
      hide EvictOne, Layout;
      var (next, ev) := EvictOne(r).value;
      EvictForSpaceFifo(next, q[1..], size, evicted + [ev]);
      assert q[1..][k - 1..] == q[k..];
      PoppedOffset(r, q, k - 1);
      VictimsStep(r, q, k);
    }
  }

  function Appended(r: Ring, offset: nat, e: Entry): Ring
    requires offset + Size(e) <= r.Capacity()
  {
    Ring(Splice(r.data, offset, Bytes(e)), r.head, offset + Size(e), r.used + Size(e))
  }

  /** Bytes outside the written range are untouched. */
  lemma SpliceOutside(data: seq<byte>, offset: nat, bytes: seq<byte>, lo: nat, hi: nat)
    requires offset + |bytes| <= |data| && lo <= hi <= |data|
    requires hi <= offset || offset + |bytes| <= lo
    ensures Splice(data, offset, bytes)[lo..hi] == data[lo..hi]
  {
  }

  lemma SpliceTwice(data: seq<byte>, offset: nat, a: seq<byte>, b: seq<byte>)
    requires offset + |a| + |b| <= |data|
    ensures Splice(Splice(data, offset, a), offset + |a|, b) == Splice(data, offset, a + b)
  {
    assert Splice(data, offset, a)[..offset + |a|] == data[..offset] + a;
  }

  lemma SpliceInside(data: seq<byte>, offset: nat, bytes: seq<byte>)
    requires offset + |bytes| <= |data|
    ensures Splice(data, offset, bytes)[offset..offset + |bytes|] == bytes
  {
  }

  lemma AppendedKeeps(r: Ring, q: seq<Entry>, e: Entry, offset: nat, i: nat)
    requires Fifo(r, q) && i < |q| && r.used + Size(e) <= r.Capacity()
    requires offset == Wrap(r.head + r.used, r.Capacity()) && offset + Size(e) <= r.Capacity()
    ensures StoredAt(Splice(r.data, offset, Bytes(e)), Offset(r, q, i), q[i])
  {
    assert StoredAt(r.data, Offset(r, q, i), q[i]);
    TotalMonotone(q, i, |q|);
    assert q[..|q|] == q;
    SpliceOutside(r.data, offset, Bytes(e), Offset(r, q, i), Offset(r, q, i) + Size(q[i]));
  }

  lemma AppendedLayout(r: Ring, q: seq<Entry>, e: Entry, offset: nat)
    requires Fifo(r, q) && Faithful(e) && r.used + Size(e) <= r.Capacity()
    requires offset == Wrap(r.head + r.used, r.Capacity()) && offset + Size(e) <= r.Capacity()
    ensures Layout(Splice(r.data, offset, Bytes(e)), r.head, q + [e])
  {
    hide Splice, Bytes;
    var data := Splice(r.data, offset, Bytes(e));
    forall i | 0 <= i < |q + [e]|
      ensures Faithful((q + [e])[i]) && StoredAt(data, Position(|data|, r.head, q + [e], i), (q + [e])[i])
    {
      if i < |q| {
        AppendedKeeps(r, q, e, offset, i);
        assert (q + [e])[..i] == q[..i];
      } else {
        assert (q + [e])[..i] == q;
        SpliceInside(r.data, offset, Bytes(e));
      }
    }
  }

  /** Writing where the chain ends, with room for it, adds one entry to the queue. */
  lemma AppendedFifo(r: Ring, q: seq<Entry>, e: Entry, offset: nat)
    requires Fifo(r, q) && Faithful(e) && r.used + Size(e) <= r.Capacity()
    requires offset == Wrap(r.head + r.used, r.Capacity()) && offset + Size(e) <= r.Capacity()
    ensures Fifo(Appended(r, offset, e), q + [e]) && Offset(r, q + [e], |q|) == offset
  {
    AppendedLayout(r, q, e, offset);
    TotalConcat(q, [e]);
    assert Total([e]) == Size(e);
    assert (q + [e])[..|q|] == q;
  }

  lemma EvictOneIgnoresTail(r: Ring, tail: int)
    requires EvictOne(r.(tail := tail)).Some?
    ensures EvictOne(r).Some? && EvictOne(r.(tail := tail)).value.0 == EvictOne(r).value.0.(tail := tail)
    ensures EvictOne(r).value.0.tail == r.tail && EvictOne(r).value.0.data == r.data
  {
  }

  /** How many of the oldest entries start before position size, when the oldest is at head. */
  function InTheWay(head: int, q: seq<Entry>, size: nat): (k: nat)
    ensures k <= |q|
    decreases |q|
  {
    if q == [] || size <= head then 0 else 1 + InTheWay(head + Size(q[0]), q[1..], size)
  }

  /** What is left is not in the way, and every entry before it is. */
  lemma {:induction false} InTheWayExact(head: int, q: seq<Entry>, size: nat, j: nat)
    requires j <= |q|
    ensures j >= InTheWay(head, q, size) <==> j == |q| || size <= head + Total(q[..j])
    decreases |q|
  {
    if j == 0 {
      assert q[..0] == [];
    } else if q != [] && size > head {
      InTheWayExact(head + Size(q[0]), q[1..], size, j - 1);
      assert q[..j][1..] == q[1..][..j - 1];
    } else {
      TotalSplit(q[..j], 0);
    }
  }

  /** A chain that does not wrap around, ending before the end of the buffer. */
  predicate Straight(r: Ring, tail: int) {
    r.head + r.used == tail < r.Capacity()
  }

  lemma VictimsIgnoreTail(r: Ring, tail: int, q: seq<Entry>, k: nat)
    requires k <= |q|
    ensures Victims(r.(tail := tail), q, k) == Victims(r, q, k)
  {
  }

  /** One eviction from a chain that does not wrap around. */
  lemma EvictStraight(r: Ring, q: seq<Entry>, tail: int)
    requires Fifo(r.(tail := tail), q) && Straight(r, tail) && q != []
    ensures EvictOne(r).Some?
    ensures var (next, ev) := EvictOne(r).value;
            && next.(tail := tail) == Popped(r.(tail := tail), q) && ev == Evicted(q[0].header.hash, r.head)
            && Fifo(next.(tail := tail), q[1..]) && Straight(next, tail) && next.head == r.head + Size(q[0])
            && next.data == r.data && next.tail == r.tail
  {
    var full := r.(tail := tail);
    EvictOneFifo(full, q);
    PoppedFifo(full, q);
    EvictOneIgnoresTail(r, tail);
    hide EvictOne, Layout;
    TotalSplit(q, 1);
    TotalStep(q, 0);
    assert q[..0] == [];
  }

  /** The second loop evicts exactly the entries in the way, in order, and keeps the place where the chain ends. */
  lemma {:induction false} EvictForWrapFifo(r: Ring, q: seq<Entry>, size: nat, evicted: seq<Evicted>, tail: int)
    requires Fifo(r.(tail := tail), q) && Straight(r, tail)
    ensures var k := InTheWay(r.head, q, size);
            var (r', ev) := EvictForWrap(r, size, evicted);
            Fifo(r'.(tail := tail), q[k..]) && Straight(r', tail) && r'.data == r.data && r'.tail == r.tail
            && r'.head == Offset(r, q, k) && ev == evicted + Victims(r, q, k)
    decreases |q|
  {
    hide EvictOne, Layout;
    var k := InTheWay(r.head, q, size);
    if r.used > 0 && size > r.head {
      EvictStraight(r, q, tail);
      var (next, ev) := EvictOne(r).value;
      hide Fifo;
      EvictForWrapFifo(next, q[1..], size, evicted + [ev], tail);
      WrapStep(r, q, k, tail, evicted, next);
    } else {
      NoVictims(r, q);
      assert q[0..] == q && evicted + [] == evicted;
    }
  }

  lemma NoVictims(r: Ring, q: seq<Entry>)
    requires 0 <= r.head < r.Capacity()
    ensures Victims(r, q, 0) == [] && Offset(r, q, 0) == r.head
  {
    assert q[..0] == [];
  }

  lemma WrapStep(r: Ring, q: seq<Entry>, k: nat, tail: int, evicted: seq<Evicted>, next: Ring)
    requires Fifo(r.(tail := tail), q) && 0 < k <= |q| && next.(tail := tail) == Popped(r.(tail := tail), q)
    ensures q[1..][k - 1..] == q[k..] && Offset(next, q[1..], k - 1) == Offset(r, q, k)
    ensures evicted + [Evicted(q[0].header.hash, r.head)] + Victims(next, q[1..], k - 1) == evicted + Victims(r, q, k)
  {
    var full := r.(tail := tail);
    PoppedOffset(full, q, k - 1);
    VictimsStep(full, q, k);
    VictimsIgnoreTail(next, tail, q[1..], k - 1);
    VictimsIgnoreTail(r, tail, q, k);
    assert Popped(full, q) == next.(tail := tail);
  }

  /** In the absence of a gap the second loop has nothing to do. */
  lemma MakeRoomFifo(r: Ring, q: seq<Entry>, size: nat)
    requires Fifo(r, q) && 0 < size <= r.Capacity() && NoGap(r, size)
    ensures var k := Displaced(q, size, r.Capacity());
            var (room, evicted) := MakeRoom(r, size);
            Fifo(room, q[k..]) && evicted == Victims(r, q, k) && room.head == Offset(r, q, k)
            && room.tail == Wrap(room.head + room.used, r.Capacity()) == Wrap(r.tail, r.Capacity())
  {
    hide EvictForSpace, EvictOne;
    EvictForSpaceFifo(r, q, size, []);
    EvictForSpaceInBounds(r, size, []);
    var k := Displaced(q, size, r.Capacity());
    assert [] + Victims(r, q, k) == Victims(r, q, k);
  }

  lemma WriteUnfolds(r: Ring, e: Entry)
    requires InBounds(r) && Size(e) <= r.Capacity()
    ensures var (room, evicted) := MakeRoom(r, Size(e));
            0 <= room.tail && room.tail + Size(e) <= room.Capacity()
            && Write(r, e) == Written(Appended(room, room.tail, e), room.tail, evicted)
  {
    MakeRoomInBounds(r, Size(e));
  }

  /**
   * A write without a gap is a FIFO enqueue: it drops the fewest oldest entries that make room,
   * reports exactly those, oldest first, and adds the new one at the end.
   */
  lemma WriteIsEnqueue(r: Ring, q: seq<Entry>, e: Entry)
    requires Fifo(r, q) && Faithful(e) && Size(e) <= r.Capacity() && NoGap(r, Size(e))
    ensures var k := Displaced(q, Size(e), r.Capacity());
            var w := Write(r, e);
            w.Written? && Fifo(w.ring, q[k..] + [e]) && w.evicted == Victims(r, q, k)
            && w.offset == Offset(w.ring, q[k..] + [e], |q| - k)
            && w.ring.head == Offset(r, q, k)
  {
    hide MakeRoom, Write, Displaced, Victims, Splice, Layout, Bytes, Position;
    var k := Displaced(q, Size(e), r.Capacity());
    var (room, evicted) := MakeRoom(r, Size(e));
    assert Write(r, e) == Written(Appended(room, room.tail, e), room.tail, evicted) by { WriteUnfolds(r, e); }
    assert Fifo(room, q[k..]) && room.used + Size(e) <= room.Capacity() by {
      MakeRoomFifo(r, q, Size(e));
      MakeRoomInBounds(r, Size(e));
    }
    MakeRoomFifo(r, q, Size(e));
    AppendedFifo(room, q[k..], e, room.tail);
  }

  /** Before a wrap over a gap, what the first loop leaves does not wrap around. */
  lemma GapIsStraight(r: Ring, q: seq<Entry>, size: nat)
    requires Fifo(r, q) && 0 < size <= r.Capacity() - r.used && !NoGap(r, size)
    ensures Straight(r, r.tail)
  {
  }

  /** How many entries a write of this size evicts. */
  function Overwritten(r: Ring, q: seq<Entry>, size: nat): (k: nat)
    ensures k <= |q|
  {
    var k := Displaced(q, size, r.Capacity());
    if NoGap(r, size) then k else k + InTheWay(Offset(r, q, k), q[k..], size)
  }

  lemma VictimsConcat(r: Ring, q: seq<Entry>, r1: Ring, k: nat, m: nat)
    requires Fifo(r, q) && k + m <= |q| && r1.head == Offset(r, q, k) && r1.Capacity() == r.Capacity()
    ensures Victims(r, q, k) + Victims(r1, q[k..], m) == Victims(r, q, k + m)
    ensures Offset(r1, q[k..], m) == Offset(r, q, k + m)
  {
    forall i | k <= i <= k + m
      ensures Offset(r1, q[k..], i - k) == Offset(r, q, i)
    {
      assert q[..i][k..] == q[k..][..i - k] && q[..i][..k] == q[..k];
      TotalSplit(q[..i], k);
      TotalSplit(q, i);
    }
    assert forall i | 0 <= i < m :: q[k..][i] == q[k + i];
  }

  /** The ring before a wrap over a gap. */
  lemma BeforeWrap(r: Ring, q: seq<Entry>, size: nat)
    requires Fifo(r, q) && 0 < size <= r.Capacity() && !NoGap(r, size)
    ensures var k := Displaced(q, size, r.Capacity());
            var (r1, ev1) := EvictForSpace(r, size, []);
            && Fifo(r1, q[k..]) && r1.tail == r.tail && r1.data == r.data && r1.head == Offset(r, q, k)
            && ev1 == Victims(r, q, k) && Straight(r1, r.tail)
            && MakeRoom(r, size) == EvictForWrap(r1.(tail := 0), size, ev1)
  {
    hide EvictForSpace, EvictForWrap, EvictOne, Layout, Displaced, Victims;
    var k := Displaced(q, size, r.Capacity());
    EvictForSpaceFifo(r, q, size, []);
    EvictForSpaceInBounds(r, size, []);
    assert [] + Victims(r, q, k) == Victims(r, q, k);
    GapIsStraight(EvictForSpace(r, size, []).0, q[k..], size);
  }

  /** With a gap, making room moves the tail to the front although the chain ends elsewhere. */
  lemma MakeRoomGap(r: Ring, q: seq<Entry>, size: nat)
    requires Fifo(r, q) && 0 < size <= r.Capacity() && !NoGap(r, size)
    ensures var k := Overwritten(r, q, size);
            var (room, evicted) := MakeRoom(r, size);
            && room.data == r.data && room.tail == 0 && Straight(room, r.tail)
            && room.head == Offset(r, q, k) && evicted == Victims(r, q, k)
            && Fifo(room.(tail := r.tail), q[k..])
  {
    hide EvictForSpace, EvictForWrap, Displaced, MakeRoom, Fifo, Victims, Offset, Straight, InTheWay, NoGap;
    BeforeWrap(r, q, size);
    var (r1, ev1) := EvictForSpace(r, size, []);
    var k := Displaced(q, size, r.Capacity());
    var wrapped, m := r1.(tail := 0), InTheWay(r1.head, q[k..], size);
    assert wrapped.(tail := r.tail) == r1;
    assert Straight(wrapped, r.tail) by { StraightIgnoresTail(r1, 0, r.tail); }
    EvictForWrapFifo(wrapped, q[k..], size, ev1, r.tail);
    VictimsConcat(r, q, wrapped, k, m);
    assert q[k..][m..] == q[k + m..];
  }

  lemma StraightIgnoresTail(r: Ring, tail: int, end: int)
    ensures Straight(r.(tail := tail), end) == Straight(r, end)
  {
  }

  lemma GapArithmetic(head: int, used: int, tail: int, size: nat, capacity: nat)
    requires 0 <= head < capacity && 0 <= used && used + size <= capacity && 0 < size
    requires Wrap(head + used, capacity) == tail && tail + size > capacity
    ensures Wrap(head + (used + size), capacity) != Wrap(size, capacity)
  {
  }

  /** A write that wraps over a gap breaks the chain, whatever queue is meant to end in its entry. */
  lemma GapBreaksChain(r: Ring, q: seq<Entry>, e: Entry, q': seq<Entry>)
    requires Fifo(r, q) && Size(e) <= r.Capacity() && !NoGap(r, Size(e))
    ensures !Fifo(Write(r, e).ring, q' + [e])
  {
    var room := MakeRoom(r, Size(e)).0;
    MakeRoomGap(r, q, Size(e));
    WriteUnfolds(r, e);
    if Fifo(Appended(room, 0, e), q' + [e]) {
      GapArithmetic(room.head, room.used, r.tail, Size(e), r.Capacity());
    }
  }

  /**
   * The FIFO property of a write, exactly: the ring afterwards is a queue ending in the new
   * entry if and only if the write leaves no gap.
   */
  lemma WriteFifoIff(r: Ring, q: seq<Entry>, e: Entry)
    requires Fifo(r, q) && Faithful(e) && Size(e) <= r.Capacity()
    ensures (exists q' :: Fifo(Write(r, e).ring, q' + [e])) <==> NoGap(r, Size(e))
  {
    if NoGap(r, Size(e)) {
      WriteIsEnqueue(r, q, e);
    } else {
      forall q': seq<Entry>
        ensures !Fifo(Write(r, e).ring, q' + [e])
      {
        GapBreaksChain(r, q, e, q');
      }
    }
  }

  // ---------------------------------------------------------------------------
  // What a write evicts, with a gap or without

  /** No entry from the j-th on has a byte in the range of size bytes at offset. */
  ghost predicate Spares(r: Ring, q: seq<Entry>, j: nat, offset: int, size: nat) {
    forall i | j <= i < |q| :: Apart(r, q, i, offset, size)
  }

  predicate Apart(r: Ring, q: seq<Entry>, i: nat, offset: int, size: nat)
    requires i < |q|
  {
    Offset(r, q, i) + Size(q[i]) <= offset || offset + size <= Offset(r, q, i)
  }

  /** Where making room puts an entry, and what it reports. */
  lemma MakeRoomEvicts(r: Ring, q: seq<Entry>, size: nat)
    requires Fifo(r, q) && 0 < size <= r.Capacity()
    ensures var (room, evicted) := MakeRoom(r, size);
            && evicted == Victims(r, q, Overwritten(r, q, size))
            && room.tail == if NoGap(r, size) then Wrap(r.tail, r.Capacity()) else 0
  {
    hide MakeRoom, Fifo, Displaced, Victims;
    if NoGap(r, size) {
      MakeRoomFifo(r, q, size);
    } else {
      MakeRoomGap(r, q, size);
    }
  }

  /** What is left after a write without a gap lies outside the written range. */
  lemma SparesAtEnd(r: Ring, q: seq<Entry>, j: nat, size: nat)
    requires Fifo(r, q) && j <= |q| && 0 < size && NoGap(r, size) && Total(q[j..]) + size <= r.Capacity()
    ensures Spares(r, q, j, Wrap(r.tail, r.Capacity()), size)
  {
    forall i | j <= i < |q| ensures Apart(r, q, i, Wrap(r.tail, r.Capacity()), size) {
      TotalMonotone(q, i, |q|);
      assert q[..|q|] == q;
      TotalSplit(q, j);
      assert q[..i][..j] == q[..j];
      TotalSplit(q[..i], j);
      assert StoredAt(r.data, Offset(r, q, i), q[i]);
    }
  }

  /** The same after a write over a gap: exactly from there on, nothing is in the way at the front. */
  lemma SparesAtFront(r: Ring, q: seq<Entry>, j: nat, size: nat)
    requires Fifo(r, q) && j <= |q| && 0 < size && !NoGap(r, size) && Total(q[j..]) + size <= r.Capacity()
    ensures Spares(r, q, j, 0, size) <==> j == |q| || size <= Offset(r, q, j)
  {
    TotalSplit(q, j);
    forall i | j <= i < |q| ensures Offset(r, q, i) == Offset(r, q, j) + Total(q[..i]) - Total(q[..j]) {
      TotalMonotone(q, i, |q|);
      assert q[..|q|] == q;
      assert q[..i][..j] == q[..j];
      TotalSplit(q[..i], j);
    }
    forall i | j <= i < |q| && size <= Offset(r, q, j) ensures Apart(r, q, i, 0, size) {
      assert q[..i][..j] == q[..j];
      TotalSplit(q[..i], j);
    }
    if j < |q| && Spares(r, q, j, 0, size) {
      assert Apart(r, q, j, 0, size);
      assert StoredAt(r.data, Offset(r, q, j), q[j]);
    }
  }

  /** Dropping this many entries makes room and spares the others; dropping fewer does not. */
  lemma OverwrittenIsLeast(r: Ring, q: seq<Entry>, size: nat, j: nat)
    requires Fifo(r, q) && 0 < size <= r.Capacity() && j <= |q|
    ensures var offset := if NoGap(r, size) then Wrap(r.tail, r.Capacity()) else 0;
            j >= Overwritten(r, q, size) <==>
              Total(q[j..]) + size <= r.Capacity() && Spares(r, q, j, offset, size)
  {
    hide Fifo, Spares;
    var k := Displaced(q, size, r.Capacity());
    DisplacedIsLeast(q, size, r.Capacity(), j);
    DisplacedIsLeast(q, size, r.Capacity(), k);
    if j >= k {
      if NoGap(r, size) {
        SparesAtEnd(r, q, j, size);
      } else {
        SparesAtFront(r, q, j, size);
        InTheWayExact(Offset(r, q, k), q[k..], size, j - k);
        StraightOffset(r, q, size, k, j);
      }
    }
  }

  lemma StraightOffset(r: Ring, q: seq<Entry>, size: nat, k: nat, j: nat)
    requires Fifo(r, q) && k <= j <= |q| && 0 < size && !NoGap(r, size) && Total(q[k..]) + size <= r.Capacity()
    ensures Offset(r, q, j) == Offset(r, q, k) + Total(q[k..][..j - k])
  {
    assert q[..j][k..] == q[k..][..j - k] && q[..j][..k] == q[..k];
    TotalSplit(q[..j], k);
    TotalSplit(q, j);
    TotalSplit(q, k);
  }

  /**
   * What any write to a queue evicts, with a gap or without: it reports the oldest entries, oldest first, and
   * exactly as many as it must, so that the others leave room for the new one and lie outside its bytes.
   */
  lemma WriteEvictsLeast(r: Ring, q: seq<Entry>, e: Entry, j: nat)
    requires Fifo(r, q) && Size(e) <= r.Capacity() && j <= |q|
    ensures var w := Write(r, e);
            && w.Written? && |w.evicted| <= |q| && w.evicted == Victims(r, q, |w.evicted|)
            && (j >= |w.evicted| <==> Total(q[j..]) + Size(e) <= r.Capacity() && Spares(r, q, j, w.offset, Size(e)))
  {
    WriteUnfolds(r, e);
    hide Fifo, Spares, Write, MakeRoom, Overwritten, Appended;
    MakeRoomEvicts(r, q, Size(e));
    OverwrittenIsLeast(r, q, Size(e), j);
  }

  /** So every entry that a write does not report is still read at its offset. */
  lemma SurvivorsAreRead(r: Ring, q: seq<Entry>, e: Entry, i: nat)
    requires Fifo(r, q) && Size(e) <= r.Capacity() && i < |q|
    ensures var w := Write(r, e);
            i >= |w.evicted| ==> ReadAt(w.ring.data, Offset(r, q, i)) == Some(q[i])
  {
    hide MakeRoom, Splice, Bytes, ReadAt, HeaderAt;
    var w := Write(r, e);
    WriteEvictsLeast(r, q, e, i);
    WriteUnfolds(r, e);
    assert MakeRoom(r, Size(e)).0.data == r.data by { MakeRoomInBounds(r, Size(e)); }
    if i >= |w.evicted| {
      assert Apart(r, q, i, w.offset, Size(e));
      SplicedElsewhere(r, q, e, i, w.offset);
    }
  }

  /** A live entry outside the bytes that are written is still read. */
  lemma SplicedElsewhere(r: Ring, q: seq<Entry>, e: Entry, i: nat, offset: nat)
    requires Fifo(r, q) && i < |q| && offset + Size(e) <= r.Capacity() && Apart(r, q, i, offset, Size(e))
    ensures ReadAt(Splice(r.data, offset, Bytes(e)), Offset(r, q, i)) == Some(q[i])
  {
    var at := Offset(r, q, i);
    assert StoredAt(r.data, at, q[i]) && Faithful(q[i]);
    hide Splice, Bytes, ReadAt, HeaderAt, Fifo;
    SpliceOutside(r.data, offset, Bytes(e), at, at + Size(q[i]));
    ReadSpliced(Splice(r.data, offset, Bytes(e)), at, q[i]);
  }

  // ---------------------------------------------------------------------------
  // A gap is reached

  /** n copies of an entry. */
  function Copies(e: Entry, n: nat): seq<Entry> { seq(n, _ => e) }

  /** The bytes they take. */
  function Filled(e: Entry, n: nat): nat { n * Size(e) }

  lemma FilledStep(e: Entry, n: nat)
    ensures Filled(e, 0) == 0 && Filled(e, n + 1) == Filled(e, n) + Size(e)
  {
  }

  lemma {:induction false} TotalCopies(e: Entry, n: nat)
    ensures Total(Copies(e, n)) == Filled(e, n)
  {
    hide Filled;
    FilledStep(e, 0);
    if n > 0 {
      TotalCopies(e, n - 1);
      FilledStep(e, n - 1);
      assert Copies(e, n) == Copies(e, n - 1) + [e];
      TotalConcat(Copies(e, n - 1), [e]);
    }
  }

  /** Writing one entry over and over. */
  function WriteAgain(r: Ring, e: Entry, n: nat): (r': Ring)
    requires InBounds(r) && Size(e) <= r.Capacity()
    ensures InBounds(r') && r'.Capacity() == r.Capacity()
  {
    if n == 0 then r
    else
      var before := WriteAgain(r, e, n - 1);
      WriteSafeOnAnyBytes(before, e);
      Write(before, e).ring
  }

  /** A new ring takes one entry after the other as long as they fit before the end. */
  lemma {:induction false} FirstLap(r: Ring, e: Entry, n: nat)
    requires Fifo(r, []) && r.head == r.tail == 0 && Faithful(e) && Size(e) <= r.Capacity()
    requires Filled(e, n) <= r.Capacity()
    ensures var r' := WriteAgain(r, e, n);
            Fifo(r', Copies(e, n)) && r'.head == 0 && r'.tail == Filled(e, n) && r'.Capacity() == r.Capacity()
  {
    hide *;
    FifoInBounds(r, []);
    FilledStep(e, 0);
    if n == 0 {
      NoCopies(r, e);
    } else {
      FilledStep(e, n - 1);
      FirstLap(r, e, n - 1);
      LapStep(WriteAgain(r, e, n - 1), e, n - 1);
      WriteAgainStep(r, e, n - 1);
    }
  }

  lemma FifoInBounds(r: Ring, q: seq<Entry>)
    requires Fifo(r, q)
    ensures InBounds(r)
  {
  }

  lemma NoCopies(r: Ring, e: Entry)
    requires InBounds(r) && Size(e) <= r.Capacity()
    ensures Copies(e, 0) == [] && WriteAgain(r, e, 0) == r
  {
  }

  lemma LapStep(r: Ring, e: Entry, n: nat)
    requires Fifo(r, Copies(e, n)) && r.head == 0 && r.tail == Filled(e, n) && Faithful(e)
    requires Filled(e, n + 1) <= r.Capacity()
    ensures var r' := Write(r, e).ring;
            Fifo(r', Copies(e, n + 1)) && r'.head == 0 && r'.tail == Filled(e, n + 1) && r'.Capacity() == r.Capacity()
  {
    hide Filled;
    FilledStep(e, n);
    var q := Copies(e, n);
    TotalCopies(e, n);
    assert q[0..] == q;
    DisplacedIsLeast(q, Size(e), r.Capacity(), 0);
    WriteIsEnqueue(r, q, e);
    assert q[Displaced(q, Size(e), r.Capacity())..] == q;
    assert Offset(r, q, 0) == 0 by { assert q[..0] == []; }
    EvictsNothing(r, Size(e));
    assert q + [e] == Copies(e, n + 1);
  }

  lemma EvictsNothing(r: Ring, size: nat)
    requires size <= r.Capacity() && size <= r.Capacity() - r.used && r.tail + size <= r.Capacity()
    ensures MakeRoom(r, size) == (r, [])
  {
  }

  /**
   * From a new ring of any capacity that is no multiple of an entry's size, writing that entry until it no
   * longer fits before the end, and once more, leaves no queue with the new entry last.
   */
  lemma GapIsReached(r: Ring, e: Entry, q': seq<Entry>)
    requires Fifo(r, []) && r.head == r.tail == 0 && Faithful(e) && Size(e) <= r.Capacity()
    requires r.Capacity() % Size(e) != 0
    ensures !Fifo(WriteAgain(r, e, r.Capacity() / Size(e) + 1), q' + [e])
  {
    assert Size(e) > 0;
    hide *;
    FifoInBounds(r, []);
    var n := r.Capacity() / Size(e);
    LapsDivide(r.Capacity(), e);
    FirstLap(r, e, n);
    LastLap(WriteAgain(r, e, n), e, n, q');
    WriteAgainStep(r, e, n);
  }

  lemma LapsDivide(capacity: nat, e: Entry)
    requires capacity % Size(e) != 0
    ensures Filled(e, capacity / Size(e)) < capacity < Filled(e, capacity / Size(e)) + Size(e)
  {
  }

  lemma LastLap(full: Ring, e: Entry, n: nat, q': seq<Entry>)
    requires Fifo(full, Copies(e, n)) && full.tail == Filled(e, n) && Size(e) <= full.Capacity()
    requires Filled(e, n) < full.Capacity() < Filled(e, n) + Size(e)
    ensures !Fifo(Write(full, e).ring, q' + [e])
  {
    hide Write, MakeRoom, Filled;
    GapBreaksChain(full, Copies(e, n), e, q');
  }

  lemma WriteAgainStep(r: Ring, e: Entry, n: nat)
    requires InBounds(r) && Size(e) <= r.Capacity()
    ensures WriteAgain(r, e, n + 1) == Write(WriteAgain(r, e, n), e).ring
  {
  }

  // ---------------------------------------------------------------------------
  // Updates in place

  lemma TotalUpdate(q: seq<Entry>, i: nat, e: Entry, j: nat)
    requires i < |q| && j <= |q|
    ensures Total(q[i := e][..j]) == Total(q[..j]) + if i < j then Size(e) - Size(q[i]) else 0
  {
    if i < j {
      assert q[..j] == q[..i] + [q[i]] + q[i + 1..j];
      assert q[i := e][..j] == q[..i] + [e] + q[i + 1..j];
      TotalConcat(q[..i] + [q[i]], q[i + 1..j]);
      TotalConcat(q[..i], [q[i]]);
      TotalConcat(q[..i] + [e], q[i + 1..j]);
      TotalConcat(q[..i], [e]);
    } else {
      assert q[i := e][..j] == q[..j];
    }
  }

  lemma UpdateKeeps(r: Ring, q: seq<Entry>, i: nat, e: Entry, j: nat)
    requires Fifo(r, q) && i < |q| && j < |q| && Size(e) == Size(q[i])
    requires StoredAt(r.data, Offset(r, q, i), q[i])
    ensures StoredAt(Splice(r.data, Offset(r, q, i), Bytes(e)), Offset(r, q, j), q[i := e][j])
  {
    assert StoredAt(r.data, Offset(r, q, j), q[j]);
    if i == j {
      SpliceInside(r.data, Offset(r, q, i), Bytes(e));
    } else {
      EntriesDisjoint(r, q, if i < j then i else j, if i < j then j else i);
      SpliceOutside(r.data, Offset(r, q, i), Bytes(e), Offset(r, q, j), Offset(r, q, j) + Size(q[j]));
    }
  }

  lemma UpdatedLayout(r: Ring, q: seq<Entry>, i: nat, e: Entry)
    requires Fifo(r, q) && i < |q| && Size(e) == Size(q[i]) && Faithful(e)
    requires StoredAt(r.data, Offset(r, q, i), q[i])
    ensures Layout(Splice(r.data, Offset(r, q, i), Bytes(e)), r.head, q[i := e])
  {
    hide Splice, Bytes;
    var data, q' := Splice(r.data, Offset(r, q, i), Bytes(e)), q[i := e];
    forall j | 0 <= j < |q'|
      ensures Faithful(q'[j]) && StoredAt(data, Position(|data|, r.head, q', j), q'[j])
    {
      TotalUpdate(q, i, e, j);
      UpdateKeeps(r, q, i, e, j);
    }
  }

  lemma OffsetIsEntryStart(r: Ring, q: seq<Entry>, i: nat)
    requires Fifo(r, q) && i < |q|
    ensures EntryStart(r, Offset(r, q, i))
    ensures HeaderAt(r.data, Offset(r, q, i)) == Some(q[i].header)
    ensures ReadAt(r.data, Offset(r, q, i)) == Some(q[i])
  {
    assert StoredAt(r.data, Offset(r, q, i), q[i]);
    ReadSpliced(r.data, Offset(r, q, i), q[i]);
  }

  /**
   * An in-place update happens exactly when the new entry is no larger, and replaces the entry
   * in the queue if and only if it has the same size.
   */
  lemma UpdateInPlaceFifoIff(r: Ring, q: seq<Entry>, i: nat, e: Entry)
    requires Fifo(r, q) && i < |q| && Faithful(e)
    ensures !Overruns(r, Offset(r, q, i), e)
    ensures UpdateInPlace(r, Offset(r, q, i), e).Some? <==> Size(e) <= Size(q[i])
    ensures Size(e) <= Size(q[i]) ==>
              (Fifo(UpdateInPlace(r, Offset(r, q, i), e).value, q[i := e]) <==> Size(e) == Size(q[i]))
  {
    OffsetIsEntryStart(r, q, i);
    UpdateInside(r, Offset(r, q, i), e);
    TotalUpdate(q, i, e, |q|);
    assert q[i := e][..|q|] == q[i := e] && q[..|q|] == q;
    if Size(e) == Size(q[i]) {
      UpdatedLayout(r, q, i, e);
    }
  }

  /**
   * Writes are safe on any bytes: an entry that fits is written inside the buffer, the bounds hold
   * again, nothing else changes, and reading at the returned offset gives the entry back
   * if and only if its header carries its real lengths.
   */
  lemma WriteSafeOnAnyBytes(r: Ring, e: Entry)
    requires InBounds(r)
    ensures Write(r, e).Written? <==> Size(e) <= r.Capacity()
    ensures Write(r, e).Written? ==>
              var w := Write(r, e);
              InBounds(w.ring) && w.ring.Capacity() == r.Capacity()
              && 0 <= w.offset && w.offset + Size(e) <= r.Capacity()
              && w.ring.data[..w.offset] == r.data[..w.offset]
              && w.ring.data[w.offset + Size(e)..] == r.data[w.offset + Size(e)..]
              && (ReadAt(w.ring.data, w.offset) == Some(e) <==> Faithful(e))
  {
    if Size(e) <= r.Capacity() {
      MakeRoomInBounds(r, Size(e));
      var w := Write(r, e);
      SpliceInside(r.data, w.offset, Bytes(e));
      ReadSpliced(w.ring.data, w.offset, e);
    }
  }
}

/** The buffer itself: a byte array written in place. */
module RingBuffers {
  import opened Options
  import opened EntryFormat
  import opened RingModel

  const MIN_RING_BUFFER_SIZE := 0x10_0000

  /** Copies bytes into an array, from an offset on. */
  method CopyInto(a: array<byte>, offset: nat, bytes: seq<byte>)
    requires offset + |bytes| <= a.Length
    modifies a
    ensures a[..] == Splice(old(a[..]), offset, bytes)
  {
    for i := 0 to |bytes|
      invariant forall j | 0 <= j < a.Length ::
                  a[j] == if offset <= j < offset + i then bytes[j - offset] else old(a[j])
    {
      a[offset + i] := bytes[i];
    }
  }

  class RingBuffer {
    const data: array<byte>
    var head: int
    var tail: int
    var used: int

    function View(): Ring
      reads this, data
    {
      Ring(data[..], head, tail, used)
    }

    constructor (capacity: int)
      ensures fresh(data) && data.Length == if capacity < MIN_RING_BUFFER_SIZE then MIN_RING_BUFFER_SIZE else capacity
      ensures Fifo(View(), [])
    {
      var size := if capacity < MIN_RING_BUFFER_SIZE then MIN_RING_BUFFER_SIZE else capacity;
      data := new byte[size](_ => 0);
      head, tail, used := 0, 0, 0;
    }

    /** Writes header, key and value one after the other; copying the value stops at the end of the buffer. */
    method Place(offset: nat, e: Entry)
      requires offset + HEADER_SIZE + |e.key| <= data.Length
      modifies data
      ensures data[..] == Splice(old(data[..]), offset, Fitting(Bytes(e), data.Length - offset))
    {
      hide Marshal, Splice;
      var valStart := offset + HEADER_SIZE + |e.key|;
      var value := Fitting(e.value, data.Length - valStart);
      CopyInto(data, offset, Marshal(e.header));
      CopyInto(data, offset + HEADER_SIZE, e.key);
      CopyInto(data, valStart, value);
      SpliceTwice(old(data[..]), offset, Marshal(e.header), e.key);
      SpliceTwice(old(data[..]), offset, Marshal(e.header) + e.key, value);
      assert Marshal(e.header) + e.key + value == Fitting(Bytes(e), data.Length - offset);
    }

    method WriteWithEvict(e: Entry) returns (ok: bool, offset: int, evicted: seq<Evicted>)
      requires InBounds(View())
      modifies this, data
      ensures !ok ==> Write(old(View()), e) == TooLarge && View() == old(View()) && offset == -1 && evicted == []
      ensures ok ==> Write(old(View()), e) == Written(View(), offset, evicted)
    {
      hide Unmarshal, Marshal, Splice;
      var size := Size(e);
      if size > data.Length {
        return false, -1, [];
      }
      var h, t, u := head, tail, used;
      evicted := [];
      ghost var start := View();
      while size > data.Length - u
        invariant EvictForSpace(Ring(start.data, h, t, u), size, evicted) == EvictForSpace(start, size, [])
        decreases u
      {
        var header := HeaderAt(data[..], h);
        if header.None? || HeaderEntrySize(header.value) > data.Length {
          h, t, u, evicted := 0, 0, 0, [];
          break;
        }
        var itemSize := HeaderEntrySize(header.value);
        evicted := evicted + [Evicted(header.value.hash, h)];
        h := h + itemSize;
        if h >= data.Length {
          h := 0;
        }
        u := u - itemSize;
      }
      assert (Ring(start.data, h, t, u), evicted) == EvictForSpace(start, size, []);
      if t + size > data.Length {
        t := 0;
        ghost var r1, ev1 := Ring(start.data, h, t, u), evicted;
        while u > 0 && size > h
          invariant EvictForWrap(Ring(start.data, h, t, u), size, evicted) == EvictForWrap(r1, size, ev1)
          decreases u
        {
          var header := HeaderAt(data[..], h);
          if header.None? || HeaderEntrySize(header.value) > data.Length {
            h, t, u, evicted := 0, 0, 0, [];
            break;
          }
          var itemSize := HeaderEntrySize(header.value);
          evicted := evicted + [Evicted(header.value.hash, h)];
          h := h + itemSize;
          if h >= data.Length {
            h := 0;
          }
          u := u - itemSize;
        }
      }
      assert (Ring(start.data, h, t, u), evicted) == MakeRoom(start, size);
      MakeRoomInBounds(start, size);
      offset := t;
      Place(offset, e);
      head, tail, used := h, offset + size, u + size;
      ok := true;
    }

    method UpdateInPlace(offset: int, e: Entry) returns (ok: bool)
      requires !Overruns(View(), offset, e)
      modifies data
      ensures var updated := RingModel.UpdateInPlace(old(View()), offset, e);
              ok == updated.Some? && View() == if ok then updated.value else old(View())
    {
      var header := HeaderAt(data[..], offset);
      if header.None? || Size(e) > HeaderEntrySize(header.value) {
        return false;
      }
      Place(offset, e);
      ok := true;
    }

    /** A write that leaves no gap appends to the queue behind the entries that survive. */
    method Enqueue(e: Entry, ghost q: seq<Entry>) returns (offset: int, evicted: seq<Evicted>, ghost q': seq<Entry>)
      requires Fifo(View(), q) && Faithful(e) && Size(e) <= data.Length && NoGap(View(), Size(e))
      modifies this, data
      ensures Fifo(View(), q') && RingModel.ReadAt(data[..], offset) == Some(e)
      ensures q' == q[Displaced(q, Size(e), data.Length)..] + [e]
      ensures evicted == old(Victims(View(), q, Displaced(q, Size(e), data.Length)))
    {
      WriteIsEnqueue(View(), q, e);
      WriteSafeOnAnyBytes(View(), e);
      var ok;
      ok, offset, evicted := WriteWithEvict(e);
      q' := q[Displaced(q, Size(e), data.Length)..] + [e];
    }

    method ReadAt(offset: int) returns (r: Option<Entry>)
      ensures r == RingModel.ReadAt(data[..], offset)
    {
      var header := HeaderAt(data[..], offset);
      if header.None? {
        return None;
      }
      var keyStart := offset + HEADER_SIZE;
      var keyEnd := keyStart + header.value.keyLen;
      var valEnd := keyEnd + header.value.valLen;
      if valEnd > data.Length {
        return None;
      }
      r := Some(Entry(header.value, data[keyStart..keyEnd], data[keyEnd..valEnd]));
    }
  }
}
