/** The bounded replication log and incremental resynchronisation. */
module ReplicationLog {
  import opened Slots
  import P = SlotPersistence
  import opened Options
  import opened SlotModel
  import EntryFormat

  type Bytes = seq<EntryFormat.byte>

  datatype LogOp = LogOp(slot: Slot, epoch: nat, lsn: nat, opType: Bytes, key: Bytes, payload: Bytes, expireAtNs: int)

  datatype Store = Store(limit: nat, logs: map<Slot, seq<LogOp>>, first: map<Slot, nat>, last: map<Slot, nat>)

  function OpsOf(s: Store, slot: Slot): seq<LogOp> {
    if slot in s.logs then s.logs[slot] else []
  }

  function LastOf(s: Store, slot: Slot): nat {
    if slot in s.last then s.last[slot] else 0
  }

  /** The newest limit operations. */
  function Trim(ops: seq<LogOp>, limit: nat): seq<LogOp> {
    if |ops| > limit then ops[|ops| - limit..] else ops
  }

  /** Append; None when the LSN is not the next one. */
  function Append(s: Store, op: LogOp): Option<Store> {
    if op.lsn != LastOf(s, op.slot) + 1 then None
    else
      var ops := Trim(OpsOf(s, op.slot) + [op], s.limit);
      var first := if op.slot in s.first then s.first else s.first[op.slot := op.lsn];
      Some(s.(logs := s.logs[op.slot := ops],
              first := if ops != [] then first[op.slot := ops[0].lsn] else first,
              last := s.last[op.slot := op.lsn]))
  }

  function ListAfter(ops: seq<LogOp>, lsn: nat): seq<LogOp> {
    if ops == [] then []
    else (if ops[0].lsn > lsn then [ops[0]] else []) + ListAfter(ops[1..], lsn)
  }

  predicate CanReplayFrom(s: Store, slot: Slot, applied: nat) {
    if slot !in s.last then applied == 0
    else if applied > s.last[slot] then false
    else if applied == s.last[slot] then true
    else applied + 1 >= if slot in s.first then s.first[slot] else 0
  }

  /** The operations a replica that has applied so many is missing, if the log still has them. */
  function IncrementalOps(s: Store, slot: Slot, applied: nat): Option<seq<LogOp>> {
    if CanReplayFrom(s, slot, applied) then Some(ListAfter(OpsOf(s, slot), applied)) else None
  }

  // ---------------------------------------------------------------------------
  // The log is the newest part of the history

  /** Operation i of a slot's history carries LSN i + 1. */
  predicate Numbered(history: seq<LogOp>, slot: Slot) {
    forall i | 0 <= i < |history| :: history[i].lsn == i + 1 && history[i].slot == slot
  }

  /** The store holds the newest operations of the history, at most limit of them, and nothing else. */
  predicate Holds(s: Store, slot: Slot, history: seq<LogOp>) {
    && s.limit > 0 && Numbered(history, slot)
    && if history == [] then slot !in s.last && slot !in s.first && slot !in s.logs
       else && slot in s.last && s.last[slot] == |history|
            && slot in s.logs && s.logs[slot] == Trim(history, s.limit)
            && slot in s.first && s.first[slot] == |history| - |s.logs[slot]| + 1
  }

  /** Trimming before an append makes no difference to trimming after it. */
  lemma TrimAppend(history: seq<LogOp>, op: LogOp, limit: nat)
    requires limit > 0
    ensures Trim(Trim(history, limit) + [op], limit) == Trim(history + [op], limit)
  {
    var a, b := Trim(history, limit) + [op], history + [op];
    if |history| >= limit {
      var cut := |history| - limit;
      assert a == b[cut..];
      assert Trim(a, limit) == a[1..] && Trim(b, limit) == b[cut + 1..];
    }
  }

  /** The next operation, and only that one, is accepted; the log stays the newest part of the history. */
  lemma AppendKeeps(s: Store, slot: Slot, history: seq<LogOp>, op: LogOp)
    requires Holds(s, slot, history) && op.slot == slot
    ensures Append(s, op).Some? <==> op.lsn == |history| + 1
    ensures Append(s, op).Some? ==> Holds(Append(s, op).value, slot, history + [op])
  {
    if op.lsn == |history| + 1 {
      var ops := Trim(OpsOf(s, slot) + [op], s.limit);
      TrimAppend(history, op, s.limit);
      assert ops[0].lsn == |history| + 1 - |ops| + 1;
    }
  }

  lemma AppendElsewhere(s: Store, slot: Slot, history: seq<LogOp>, op: LogOp)
    requires Holds(s, slot, history) && op.slot != slot && Append(s, op).Some?
    ensures Holds(Append(s, op).value, slot, history)
  {
  }

  lemma ListAfterStep(ops: seq<LogOp>, i: nat, lsn: nat)
    requires i < |ops|
    ensures ListAfter(ops[i..], lsn) == (if ops[i].lsn > lsn then [ops[i]] else []) + ListAfter(ops[i + 1..], lsn)
  {
    assert ops[i..][1..] == ops[i + 1..];
  }

  lemma ListAfterNothing(lsn: nat)
    ensures ListAfter([], lsn) == []
  {
  }

  lemma {:induction false} ListAfterSuffix(ops: seq<LogOp>, start: nat, lsn: nat)
    requires forall i | 0 <= i < |ops| :: ops[i].lsn == start + i + 1
    ensures ListAfter(ops, lsn) == if lsn <= start then ops else if lsn - start <= |ops| then ops[lsn - start..] else []
    decreases |ops|
  {
    if ops != [] {
      ListAfterSuffix(ops[1..], start + 1, lsn);
    }
  }

  /**
   * Incremental resync is exact: it succeeds if and only if the replica is not ahead and nothing it
   * misses was trimmed, and then it gives exactly the missing operations.
   */
  lemma IncrementalExact(s: Store, slot: Slot, history: seq<LogOp>, applied: nat)
    requires Holds(s, slot, history)
    ensures IncrementalOps(s, slot, applied).Some? <==>
              applied <= |history| && |history| - applied <= |Trim(history, s.limit)|
    ensures IncrementalOps(s, slot, applied).Some? ==> IncrementalOps(s, slot, applied).value == history[applied..]
    ensures |OpsOf(s, slot)| <= s.limit
  {
    if history != [] {
      ListAfterSuffix(OpsOf(s, slot), |history| - |OpsOf(s, slot)|, applied);
    }
  }

  function Fold<S>(f: (S, LogOp) -> S, state: S, ops: seq<LogOp>): S
    decreases |ops|
  {
    if ops == [] then state else Fold(f, f(state, ops[0]), ops[1..])
  }

  lemma {:induction false} FoldConcat<S>(f: (S, LogOp) -> S, state: S, a: seq<LogOp>, b: seq<LogOp>)
    ensures Fold(f, state, a + b) == Fold(f, Fold(f, state, a), b)
    decreases |a|
  {
    if a == [] {
      assert a + b == b;
    } else {
      assert (a + b)[1..] == a[1..] + b;
      FoldConcat(f, f(state, a[0]), a[1..], b);
    }
  }

  /** Replaying the missing operations on the state after the applied ones gives the master's state. */
  lemma ResyncCatchesUp<S>(f: (S, LogOp) -> S, initial: S, s: Store, slot: Slot, history: seq<LogOp>, applied: nat)
    requires Holds(s, slot, history) && applied <= |history| && IncrementalOps(s, slot, applied).Some?
    ensures var missing := IncrementalOps(s, slot, applied).value;
            Fold(f, Fold(f, initial, history[..applied]), missing) == Fold(f, initial, history)
  {
    IncrementalExact(s, slot, history, applied);
    FoldConcat(f, initial, history[..applied], history[applied..]);
    assert history[..applied] + history[applied..] == history;
  }

  // ---------------------------------------------------------------------------
  // Writes: apply, allocate, append

  datatype Master = Master(table: Table, store: Store)

  datatype Request = Request(slot: Slot, opType: Bytes, key: Bytes, payload: Bytes, expireAtNs: int)

  function OpFor(r: Request, info: SlotInfo): LogOp {
    LogOp(r.slot, info.configEpoch, info.nextLSN + 1, r.opType, r.key, r.payload, r.expireAtNs)
  }

  /** ApplyWrite once its callback has succeeded: the LSN is used up even if the log refuses the operation. */
  function ApplyWrite(m: Master, r: Request): (Master, Option<LogOp>)
    requires Sized(m.table)
  {
    if r.slot >= SLOT_COUNT || m.table.slots[r.slot].nodeID == "" then (m, None)
    else
      var op := OpFor(r, m.table.slots[r.slot]);
      var table := Step(m.table, AllocateLSN(r.slot));
      match Append(m.store, op)
      case None => (m.(table := table), None)
      case Some(store) => (Master(table, store), Some(op))
  }

  /**
   * A write on an assigned slot succeeds if and only if the allocator and the log agree beforehand. Its LSN is used
   * up in any case, and a refused write leaves the log as it was.
   */
  lemma WriteSucceedsIff(m: Master, r: Request)
    requires Sized(m.table) && r.slot < SLOT_COUNT && m.table.slots[r.slot].nodeID != ""
    ensures ApplyWrite(m, r).1.Some? <==> m.table.slots[r.slot].nextLSN == LastOf(m.store, r.slot)
    ensures var t := ApplyWrite(m, r).0.table;
            Sized(t) && t.slots[r.slot].nextLSN == m.table.slots[r.slot].nextLSN + 1
    ensures ApplyWrite(m, r).1.None? ==> ApplyWrite(m, r).0.store == m.store
  {
  }

  /** Every slot's log holds its history, and the allocator is at its end. */
  ghost predicate Synced(m: Master, histories: map<Slot, seq<LogOp>>) {
    && Sized(m.table)
    && forall slot: Slot | slot < SLOT_COUNT ::
         slot in histories && Holds(m.store, slot, histories[slot]) && m.table.slots[slot].nextLSN == |histories[slot]|
  }

  /** A serialised write on an assigned slot is never refused, and extends the history by one. */
  lemma WriteKeepsSynced(m: Master, histories: map<Slot, seq<LogOp>>, r: Request)
    requires Synced(m, histories) && r.slot < SLOT_COUNT && m.table.slots[r.slot].nodeID != ""
    ensures var (m', op) := ApplyWrite(m, r);
            && op.Some? && op.value.lsn == |histories[r.slot]| + 1
            && op.value.key == r.key && op.value.payload == r.payload
            && m'.table.slots[r.slot].nodeID != ""
            && Synced(m', histories[r.slot := histories[r.slot] + [op.value]])
  {
    hide Holds, Append;
    var (m', op) := ApplyWrite(m, r);
    var history := histories[r.slot];
    assert Holds(m.store, r.slot, history);
    AppendKeeps(m.store, r.slot, history, OpFor(r, m.table.slots[r.slot]));
    var histories' := histories[r.slot := history + [op.value]];
    forall slot: Slot | slot < SLOT_COUNT
      ensures Holds(m'.store, slot, histories'[slot]) && m'.table.slots[slot].nextLSN == |histories'[slot]|
    {
      assert Holds(m.store, slot, histories[slot]);
      if slot != r.slot {
        AppendElsewhere(m.store, slot, histories[slot], op.value);
      }
    }
  }

  /** Writes on assigned slots, one after the other. */
  function Writes(m: Master, rs: seq<Request>): (m': Master)
    requires Sized(m.table)
    ensures Sized(m'.table)
    decreases |rs|
  {
    if rs == [] then m else Writes(ApplyWrite(m, rs[0]).0, rs[1..])
  }

  predicate Assigned(m: Master, rs: seq<Request>)
    requires Sized(m.table)
  {
    forall i | 0 <= i < |rs| :: rs[i].slot < SLOT_COUNT && m.table.slots[rs[i].slot].nodeID != ""
  }

  /** The histories a run of writes leaves behind. */
  ghost function HistoriesAfter(m: Master, histories: map<Slot, seq<LogOp>>, rs: seq<Request>): map<Slot, seq<LogOp>>
    requires Synced(m, histories) && Assigned(m, rs)
    decreases |rs|
  {
    if rs == [] then histories
    else
      WriteKeepsSynced(m, histories, rs[0]);
      var (m', op) := ApplyWrite(m, rs[0]);
      HistoriesAfter(m', histories[rs[0].slot := histories[rs[0].slot] + [op.value]], rs[1..])
  }

  /** Over every run of writes the log is in step with the allocator, so that no append is refused. */
  lemma {:induction false} WritesKeepSynced(m: Master, histories: map<Slot, seq<LogOp>>, rs: seq<Request>)
    requires Synced(m, histories) && Assigned(m, rs)
    ensures Synced(Writes(m, rs), HistoriesAfter(m, histories, rs))
    decreases |rs|
  {
    hide Holds, Append;
    if rs != [] {
      WriteKeepsSynced(m, histories, rs[0]);
      var (m', op) := ApplyWrite(m, rs[0]);
      WritesKeepSynced(m', histories[rs[0].slot := histories[rs[0].slot] + [op.value]], rs[1..]);
    }
  }

  /** The requests of a run on one slot, in order. */
  function On(rs: seq<Request>, slot: Slot): seq<Request>
    decreases |rs|
  {
    if rs == [] then [] else (if rs[0].slot == slot then [rs[0]] else []) + On(rs[1..], slot)
  }

  /** An operation that logs a request. */
  predicate Logs(op: LogOp, r: Request, epoch: nat) {
    op.slot == r.slot && op.epoch == epoch && op.opType == r.opType && op.key == r.key && op.payload == r.payload
    && op.expireAtNs == r.expireAtNs
  }

  /** The operations log the requests, one each, in order. */
  predicate LogsAll(ops: seq<LogOp>, rs: seq<Request>, epoch: nat) {
    |ops| == |rs| && forall i | 0 <= i < |ops| :: Logs(ops[i], rs[i], epoch)
  }

  lemma LogsAllCons(op: LogOp, ops: seq<LogOp>, r: Request, rs: seq<Request>, epoch: nat)
    requires Logs(op, r, epoch) && LogsAll(ops, rs, epoch)
    ensures LogsAll([op] + ops, [r] + rs, epoch)
  {
    var all, requests := [op] + ops, [r] + rs;
    forall i | 0 <= i < |all| ensures Logs(all[i], requests[i], epoch) {
      if i > 0 { assert all[i] == ops[i - 1] && requests[i] == rs[i - 1]; }
    }
  }

  lemma WriteKeepsEpoch(m: Master, r: Request, slot: Slot)
    requires Sized(m.table) && slot < SLOT_COUNT
    ensures var m' := ApplyWrite(m, r).0;
            m'.table.slots[slot].configEpoch == m.table.slots[slot].configEpoch && m'.store.limit == m.store.limit
  {
  }

  /** A run of writes extends each slot's history by the requests on that slot, in order, and by nothing else. */
  lemma {:induction false} HistoriesAre(m: Master, histories: map<Slot, seq<LogOp>>, rs: seq<Request>, slot: Slot)
    returns (added: seq<LogOp>)
    requires Synced(m, histories) && Assigned(m, rs) && slot < SLOT_COUNT
    ensures var after := HistoriesAfter(m, histories, rs);
            slot in after && after[slot] == histories[slot] + added
            && LogsAll(added, On(rs, slot), m.table.slots[slot].configEpoch)
    ensures Writes(m, rs).store.limit == m.store.limit
    decreases |rs|
  {
    hide Holds, Append, Logs;
    if rs == [] {
      added := [];
      assert histories[slot] + [] == histories[slot];
    } else {
      WriteKeepsSynced(m, histories, rs[0]);
      WriteKeepsEpoch(m, rs[0], slot);
      var (m', op) := ApplyWrite(m, rs[0]);
      var histories' := histories[rs[0].slot := histories[rs[0].slot] + [op.value]];
      var rest := HistoriesAre(m', histories', rs[1..], slot);
      if rs[0].slot == slot {
        OpLogs(m, rs[0]);
        LogsAllCons(op.value, rest, rs[0], On(rs[1..], slot), m.table.slots[slot].configEpoch);
        added := [op.value] + rest;
        assert histories[slot] + [op.value] + rest == histories[slot] + added;
      } else {
        added := rest;
        assert On(rs, slot) == [] + On(rs[1..], slot);
      }
    }
  }

  lemma OpLogs(m: Master, r: Request)
    requires Sized(m.table) && r.slot < SLOT_COUNT && ApplyWrite(m, r).1.Some?
    ensures Logs(ApplyWrite(m, r).1.value, r, m.table.slots[r.slot].configEpoch)
  {
  }

  ghost function NoHistories(): (h: map<Slot, seq<LogOp>>)
    ensures forall s: Slot | s < SLOT_COUNT :: s in h && h[s] == []
  {
    map s: Slot | 0 <= s < SLOT_COUNT :: NoHistory(s)
  }

  function NoHistory(slot: Slot): seq<LogOp> { [] }

  /** A fresh start: nothing allocated, nothing logged. */
  lemma FreshIsSynced(table: Table, limit: nat)
    requires Sized(table) && limit > 0 && forall s | 0 <= s < SLOT_COUNT :: table.slots[s].nextLSN == 0
    ensures Synced(Master(table, Store(limit, map[], map[], map[])), NoHistories())
  {
  }

  /**
   * From a fresh master, after any run of writes on assigned slots: a slot's history logs exactly the requests on
   * it, in order; allocator and log both stand at their number; and a replica that has applied so many can be
   * brought up to date incrementally if and only if it is not ahead and misses no more than the log keeps, by
   * exactly the operations it misses, which lead it to the master's state.
   */
  lemma FreshWritesResync<S>(table: Table, limit: nat, rs: seq<Request>, slot: Slot, applied: nat,
                             f: (S, LogOp) -> S, initial: S) returns (history: seq<LogOp>)
    requires Sized(table) && limit > 0 && forall s | 0 <= s < SLOT_COUNT :: table.slots[s].nextLSN == 0
    requires Assigned(Master(table, Store(limit, map[], map[], map[])), rs) && slot < SLOT_COUNT
    ensures Numbered(history, slot) && LogsAll(history, On(rs, slot), table.slots[slot].configEpoch)
    ensures var m := Writes(Master(table, Store(limit, map[], map[], map[])), rs);
            var n := |On(rs, slot)|;
            var missing := IncrementalOps(m.store, slot, applied);
            && Sized(m.table) && m.table.slots[slot].nextLSN == LastOf(m.store, slot) == n
            && (missing.Some? <==> applied <= n && n - applied <= limit)
            && (missing.Some? ==>
                  && missing.value == history[applied..]
                  && Fold(f, Fold(f, initial, history[..applied]), missing.value) == Fold(f, initial, history))
  {
    hide IncrementalOps, Append, ApplyWrite, Logs;
    var m := Master(table, Store(limit, map[], map[], map[]));
    FreshIsSynced(table, limit);
    WritesKeepSynced(m, NoHistories(), rs);
    history := HistoriesAre(m, NoHistories(), rs, slot);
    assert NoHistories()[slot] + history == history;
    var m' := Writes(m, rs);
    assert Holds(m'.store, slot, history);
    IncrementalExact(m'.store, slot, history, applied);
    if IncrementalOps(m'.store, slot, applied).Some? {
      ResyncCatchesUp(f, initial, m'.store, slot, history, applied);
    }
  }

  /** Once the allocator is ahead of the log, it stays ahead and every further write is refused. */
  lemma {:induction false} AheadStaysAhead(m: Master, rs: seq<Request>, slot: Slot)
    requires Sized(m.table) && slot < SLOT_COUNT && m.table.slots[slot].nodeID != ""
    requires m.table.slots[slot].nextLSN > LastOf(m.store, slot)
    ensures var m' := Writes(m, rs);
            && Sized(m'.table) && m'.table.slots[slot].nodeID != ""
            && m'.table.slots[slot].nextLSN > LastOf(m'.store, slot) == LastOf(m.store, slot)
            && forall r: Request | r.slot == slot :: ApplyWrite(m', r).1 == None
    decreases |rs|
  {
    if rs == [] {
      forall r: Request | r.slot == slot ensures ApplyWrite(m, r).1 == None {
        WriteSucceedsIff(m, r);
      }
    } else {
      AheadStaysAhead(ApplyWrite(m, rs[0]).0, rs[1..], slot);
    }
  }

  /** A promotion leaves allocator and log in step if and only if the promoted replica is not ahead of the log. */
  lemma PromotionInStepIff(m: Master, slot: Slot, n: NodeId)
    requires Sized(m.table) && slot < SLOT_COUNT && HasReplica(m.table.slots[slot].replicas, n)
    requires m.table.slots[slot].nextLSN == LastOf(m.store, slot)
    ensures Step(m.table, Promote(slot, n)).slots[slot].nextLSN == LastOf(m.store, slot) <==>
              LastNamed(m.table.slots[slot].replicas, n).matchLSN <= LastOf(m.store, slot)
  {
    hide LastNamed, HasReplica;
  }

  // ---------------------------------------------------------------------------
  // One process, and a restart

  /** What happens on a running master: writes, and table operations other than allocating by itself. */
  datatype Activity = Write(r: Request) | Change(op: Op)

  /** Replicas acknowledge only what has been logged and sent to them. */
  predicate Happens(m: Master, a: Activity)
    requires Sized(m.table)
  {
    a.Change? ==>
      && Callable(a.op) && !a.op.AllocateLSN?
      && (a.op.UpdateReplicaLSN? ==> a.op.lsn <= LastOf(m.store, a.op.slot))
  }

  function Do(m: Master, a: Activity): (m': Master)
    requires Sized(m.table) && Happens(m, a)
    ensures Sized(m'.table)
  {
    match a
    case Write(r) => ApplyWrite(m, r).0
    case Change(op) => m.(table := Step(m.table, op))
  }

  predicate Acknowledged(rs: seq<Replica>, lsn: nat) {
    forall i | 0 <= i < |rs| :: rs[i].matchLSN <= lsn
  }

  /** Allocator and log agree, and no replica is ahead of them. */
  predicate SlotInStep(info: SlotInfo, last: nat) {
    info.nextLSN == last && Acknowledged(info.replicas, last)
  }

  ghost predicate InStep(m: Master) {
    Sized(m.table) && forall slot: Slot | slot < SLOT_COUNT :: SlotInStep(m.table.slots[slot], LastOf(m.store, slot))
  }

  lemma {:induction false} AdvanceAcknowledged(rs: seq<Replica>, n: NodeId, lsn: nat, last: nat)
    requires Acknowledged(rs, last) && lsn <= last
    ensures Acknowledged(Advance(rs, n, lsn), last)
  {
    if rs != [] && rs[0].nodeID != n {
      AdvanceAcknowledged(rs[1..], n, lsn, last);
    }
  }

  lemma {:induction false} WithoutAcknowledged(rs: seq<Replica>, n: NodeId, last: nat)
    requires Acknowledged(rs, last)
    ensures Acknowledged(Without(rs, n), last)
  {
    if rs != [] {
      WithoutAcknowledged(rs[1..], n, last);
    }
  }

  lemma {:induction false} FreshAcknowledged(ids: seq<NodeId>, primary: NodeId, last: nat)
    ensures Acknowledged(FreshReplicas(ids, primary), last)
  {
    if ids != [] {
      FreshAcknowledged(ids[1..], primary, last);
    }
  }

  /** A table operation keeps a slot in step. */
  lemma ChangeKeepsSlot(m: Master, op: Op, slot: Slot)
    requires InStep(m) && slot < SLOT_COUNT && Happens(m, Change(op))
    ensures SlotInStep(Step(m.table, op).slots[slot], LastOf(m.store, slot))
  {
    hide Advance, Without, FreshReplicas, LastNamed, HasReplica;
    var info, last := m.table.slots[slot], LastOf(m.store, slot);
    assert SlotInStep(info, last);
    match op
    case UpdateReplicaLSN(_, n, lsn) => if op.slot == slot { AdvanceAcknowledged(info.replicas, n, lsn, last); }
    case Configure(_, n, ids, _) => FreshAcknowledged(ids, n, last);
    case Promote(_, n) =>
      WithoutAcknowledged(info.replicas, n, last);
      if HasReplica(info.replicas, n) { NamedAcknowledged(info.replicas, n, last); }
    case _ =>
  }

  lemma NamedAcknowledged(rs: seq<Replica>, n: NodeId, last: nat)
    requires Acknowledged(rs, last) && HasReplica(rs, n)
    ensures LastNamed(rs, n).matchLSN <= last
  {
    var r := LastNamed(rs, n);
    var i :| 0 <= i < |rs| && rs[i] == r;
  }

  lemma WriteKeepsSlot(m: Master, r: Request, slot: Slot)
    requires InStep(m) && slot < SLOT_COUNT
    ensures SlotInStep(ApplyWrite(m, r).0.table.slots[slot], LastOf(ApplyWrite(m, r).0.store, slot))
  {
    assert SlotInStep(m.table.slots[slot], LastOf(m.store, slot));
    if r.slot < SLOT_COUNT {
      assert SlotInStep(m.table.slots[r.slot], LastOf(m.store, r.slot));
    }
  }

  function DoAll(m: Master, acts: seq<Activity>): (m': Master)
    requires Sized(m.table) && HappensAll(m, acts)
    ensures Sized(m'.table)
    decreases |acts|
  {
    if acts == [] then m else DoAll(Do(m, acts[0]), acts[1..])
  }

  predicate HappensAll(m: Master, acts: seq<Activity>)
    requires Sized(m.table)
    decreases |acts|
  {
    acts == [] || (Happens(m, acts[0]) && HappensAll(Do(m, acts[0]), acts[1..]))
  }

  /**
   * Within one process, over every run of writes, acknowledgements, promotions and other table changes, allocator
   * and log stay in step on every slot, so that no write on an assigned slot is ever refused.
   */
  lemma {:induction false} RunStaysInStep(m: Master, acts: seq<Activity>, r: Request)
    requires InStep(m) && HappensAll(m, acts)
    ensures InStep(DoAll(m, acts))
    ensures var m' := DoAll(m, acts);
            r.slot < SLOT_COUNT && m'.table.slots[r.slot].nodeID != "" ==> ApplyWrite(m', r).1.Some?
    decreases |acts|
  {
    hide Step, ApplyWrite;
    if acts == [] {
      if r.slot < SLOT_COUNT && m.table.slots[r.slot].nodeID != "" {
        assert SlotInStep(m.table.slots[r.slot], LastOf(m.store, r.slot));
        WriteSucceedsIff(m, r);
      }
    } else {
      var m' := Do(m, acts[0]);
      forall slot: Slot | slot < SLOT_COUNT ensures SlotInStep(m'.table.slots[slot], LastOf(m'.store, slot)) {
        match acts[0]
        case Write(w) => WriteKeepsSlot(m, w, slot);
        case Change(op) => ChangeKeepsSlot(m, op, slot);
      }
      RunStaysInStep(m', acts[1..], r);
    }
  }

  lemma NewIsInStep(limit: nat)
    ensures InStep(Master(P.NEW_TABLE, Store(limit, map[], map[], map[])))
  {
  }

  /**
   * After a restart the table has its LSN counters back and the log is empty: every write on a slot that was
   * written before is refused, after any run of writes; on a slot that was not, the first one succeeds.
   */
  lemma RestartBlocksTheLog(t: Table, migrationOrder: seq<Slot>, replicaOrder: seq<Slot>, limit: nat,
                            rs: seq<Request>, r: Request)
    requires Good(t) && P.Visits(migrationOrder, P.MigrationsOf(t)) && P.Visits(replicaOrder, P.ReplicationOf(t))
    requires r.slot < SLOT_COUNT && t.slots[r.slot].nodeID != ""
    ensures var t' := P.Restore(P.SlotMapOf(t), P.MigrationsOf(t), migrationOrder, P.ReplicationOf(t), replicaOrder);
            var m := Master(t', Store(limit, map[], map[], map[]));
            && (t.slots[r.slot].nextLSN > 0 ==> ApplyWrite(Writes(m, rs), r).1 == None)
            && (ApplyWrite(m, r).1.Some? <==> t.slots[r.slot].nextLSN == 0)
  {
    hide P.Restore, ApplyWrite;
    P.RestoreUndoesSnapshot(t, migrationOrder, replicaOrder);
    var t' := P.Restore(P.SlotMapOf(t), P.MigrationsOf(t), migrationOrder, P.ReplicationOf(t), replicaOrder);
    var m := Master(t', Store(limit, map[], map[], map[]));
    assert t'.slots[r.slot] == P.ActivePeers(t.slots[r.slot]);
    WriteSucceedsIff(m, r);
    if t.slots[r.slot].nextLSN > 0 {
      AheadStaysAhead(m, rs, r.slot);
    }
  }
}

/** The log store and the write path as objects. */
module LogStores {
  import opened Options
  import opened SlotModel
  import opened SlotManagers
  import opened ReplicationLog

  const DEFAULT_LIMIT := 1024

  class LogStore {
    const limit: nat
    var logs: map<Slot, seq<LogOp>>
    var first: map<Slot, nat>
    var last: map<Slot, nat>

    function View(): Store
      reads this
    {
      Store(limit, logs, first, last)
    }

    constructor (limit: int)
      ensures View() == Store(if limit <= 0 then DEFAULT_LIMIT else limit, map[], map[], map[])
    {
      this.limit := if limit <= 0 then DEFAULT_LIMIT else limit;
      logs, first, last := map[], map[], map[];
    }

    method Append(op: LogOp) returns (ok: bool)
      modifies this
      ensures match ReplicationLog.Append(old(View()), op)
              case None => !ok && View() == old(View())
              case Some(store) => ok && View() == store
    {
      var lastLSN := if op.slot in last then last[op.slot] else 0;
      if op.lsn != lastLSN + 1 {
        return false;
      }
      var ops := (if op.slot in logs then logs[op.slot] else []) + [op];
      logs := logs[op.slot := ops];
      if op.slot !in first {
        first := first[op.slot := op.lsn];
      }
      last := last[op.slot := op.lsn];
      if |ops| > limit {
        ops := ops[|ops| - limit..];
        logs := logs[op.slot := ops];
      }
      assert ops == Trim(OpsOf(old(View()), op.slot) + [op], limit);
      assert logs == old(logs)[op.slot := ops];
      if ops != [] {
        first := first[op.slot := ops[0].lsn];
      }
      ok := true;
    }

    method ListAfter(slot: Slot, lsn: nat) returns (result: seq<LogOp>)
      ensures result == ReplicationLog.ListAfter(OpsOf(View(), slot), lsn)
    {
      hide ReplicationLog.ListAfter;
      var ops := if slot in logs then logs[slot] else [];
      result := [];
      assert ops[0..] == ops;
      for i := 0 to |ops|
        invariant ReplicationLog.ListAfter(ops, lsn) == result + ReplicationLog.ListAfter(ops[i..], lsn)
      {
        ListAfterStep(ops, i, lsn);
        if ops[i].lsn > lsn {
          result := result + [ops[i]];
        }
      }
      assert ops[|ops|..] == [];
      ListAfterNothing(lsn);
    }

    method IncrementalOps(slot: Slot, applied: nat) returns (r: Option<seq<LogOp>>)
      ensures r == ReplicationLog.IncrementalOps(View(), slot, applied)
    {
      if !CanReplayFrom(View(), slot, applied) {
        return None;
      }
      var ops := ListAfter(slot, applied);
      r := Some(ops);
    }
  }

  class ReplicationManager {
    const slots: SlotManager
    const store: LogStore

    ghost function View(): Master
      reads this, slots, slots.slots, store
    {
      Master(slots.View(), store.View())
    }

    constructor (slots: SlotManager, store: LogStore)
      ensures this.slots == slots && this.store == store
    {
      this.slots, this.store := slots, store;
    }

    /** The callback's outcome is given; a failed callback leaves everything as it is. */
    method ApplyWrite(r: Request, applied: bool) returns (op: Option<LogOp>)
      requires slots.Valid()
      modifies slots.slots, store
      ensures slots.Valid()
      ensures !applied ==> op == None && View() == old(View())
      ensures applied ==> (View(), op) == ReplicationLog.ApplyWrite(old(View()), r)
    {
      if !applied {
        return None;
      }
      var ok, epoch, lsn := slots.AllocateLSN(r.slot);
      if !ok {
        return None;
      }
      var candidate := LogOp(r.slot, epoch, lsn, r.opType, r.key, r.payload, r.expireAtNs);
      var accepted := store.Append(candidate);
      op := if accepted then Some(candidate) else None;
    }
  }
}

/** Applying replicated operations: duplicates are skipped, older epochs refused, gaps accepted. */
module ReplicaApply {
  import opened SlotModel
  import opened ReplicationLog

  datatype Progress = Progress(epoch: nat, lsn: nat)

  datatype Verdict = Stale | Skip | Proceed

  function Begin(p: Progress, op: LogOp): Verdict {
    if op.epoch < p.epoch then Stale
    else if op.lsn <= (if op.epoch > p.epoch then 0 else p.lsn) then Skip
    else Proceed
  }

  /** A delivery, with the outcome of applying it to the engine if it comes to that. */
  datatype Delivery = Delivery(op: LogOp, succeeds: bool)

  predicate Applies(p: Progress, d: Delivery) {
    Begin(p, d.op) == Proceed && d.succeeds
  }

  function Deliver(p: Progress, d: Delivery): Progress {
    if Applies(p, d) then Progress(d.op.epoch, d.op.lsn) else p
  }

  function ProgressAfter(p: Progress, ds: seq<Delivery>): Progress
    decreases |ds|
  {
    if ds == [] then p else ProgressAfter(Deliver(p, ds[0]), ds[1..])
  }

  /** The operations applied, in order. */
  function Applied(p: Progress, ds: seq<Delivery>): seq<LogOp>
    decreases |ds|
  {
    if ds == [] then []
    else (if Applies(p, ds[0]) then [ds[0].op] else []) + Applied(Deliver(p, ds[0]), ds[1..])
  }

  predicate Before(p: Progress, q: Progress) {
    p.epoch < q.epoch || (p.epoch == q.epoch && p.lsn < q.lsn)
  }

  function At(op: LogOp): Progress { Progress(op.epoch, op.lsn) }

  /** For every delivery sequence the applied (epoch, LSN) pairs strictly increase, from the start on. */
  lemma {:induction false} AppliedIncrease(p: Progress, ds: seq<Delivery>)
    ensures forall i | 0 <= i < |Applied(p, ds)| :: Before(p, At(Applied(p, ds)[i]))
    ensures forall i, j | 0 <= i < j < |Applied(p, ds)| :: Before(At(Applied(p, ds)[i]), At(Applied(p, ds)[j]))
    decreases |ds|
  {
    if ds != [] {
      AppliedIncrease(Deliver(p, ds[0]), ds[1..]);
    }
  }

  /** Deliveries of one epoch, among deliveries older than what was seen. */
  predicate WithinEpoch(ds: seq<Delivery>, p: Progress, epoch: nat) {
    p.epoch <= epoch && forall i | 0 <= i < |ds| :: ds[i].op.epoch < p.epoch || ds[i].op.epoch == epoch
  }

  /** An epoch goes on where the one before left off: its operations have LSNs above a base. */
  predicate AboveBase(ds: seq<Delivery>, epoch: nat, base: nat) {
    forall i | 0 <= i < |ds| && ds[i].op.epoch == epoch :: ds[i].op.lsn > base
  }

  /** First successful arrivals come in order: nothing of this epoch is applicable before its predecessor is applied. */
  predicate InOrder(ds: seq<Delivery>, epoch: nat, top: nat)
    decreases |ds|
  {
    ds == [] ||
    if ds[0].op.epoch != epoch || ds[0].op.lsn <= top || !ds[0].succeeds then InOrder(ds[1..], epoch, top)
    else ds[0].op.lsn == top + 1 && InOrder(ds[1..], epoch, top + 1)
  }

  predicate Consecutive(ops: seq<LogOp>, epoch: nat, top: nat) {
    forall i | 0 <= i < |ops| :: ops[i].epoch == epoch && ops[i].lsn == top + 1 + i
  }

  /** Where progress stands within an epoch that begins above a base. */
  function TopIn(p: Progress, epoch: nat, base: nat): nat {
    if p.epoch == epoch then p.lsn else base
  }

  /**
   * Each operation is applied once, in order and without a gap, if and only if first successful arrivals are in
   * order; whatever is delivered twice, comes from an older epoch, or fails to apply.
   */
  lemma {:induction false} ExactlyOnceIff(p: Progress, ds: seq<Delivery>, epoch: nat, base: nat)
    requires WithinEpoch(ds, p, epoch) && AboveBase(ds, epoch, base)
    ensures Consecutive(Applied(p, ds), epoch, TopIn(p, epoch, base)) <==> InOrder(ds, epoch, TopIn(p, epoch, base))
    decreases |ds|
  {
    if ds != [] {
      var p', rest := Deliver(p, ds[0]), Applied(Deliver(p, ds[0]), ds[1..]);
      ExactlyOnceIff(p', ds[1..], epoch, base);
      if Applies(p, ds[0]) {
        var all, top := Applied(p, ds), TopIn(p, epoch, base);
        assert all == [ds[0].op] + rest;
        if Consecutive(all, epoch, top) {
          assert all[0].lsn == top + 1;
          assert forall i | 0 <= i < |rest| :: rest[i] == all[i + 1];
        }
      } else {
        assert Applied(p, ds) == rest;
      }
    }
  }

  /** An operation that arrives before its predecessor is applied all the same, and the predecessor then never is. */
  lemma GapIsApplied(a: LogOp, b: LogOp, c: LogOp)
    requires a.epoch == b.epoch == c.epoch && a.lsn == 1 && b.lsn == 2 && c.lsn == 3
    ensures Applied(Progress(0, 0), [Delivery(a, true), Delivery(c, true), Delivery(b, true)]) == [a, c]
  {
    var ds := [Delivery(a, true), Delivery(c, true), Delivery(b, true)];
    assert ds[1..] == [Delivery(c, true), Delivery(b, true)] && ds[1..][1..] == [Delivery(b, true)];
    assert Applies(Progress(0, 0), ds[0]) && Applies(At(a), ds[1]) && !Applies(At(c), ds[2]);
    assert Applied(At(c), [Delivery(b, true)]) == [] + Applied(At(c), []);
    assert Applied(At(a), ds[1..]) == [c] + Applied(At(c), [Delivery(b, true)]);
  }

  /** The deliveries of an epoch carry the operations of the master's history in it, which begins above the base. */
  predicate FromHistory(ds: seq<Delivery>, epoch: nat, base: nat, history: seq<LogOp>) {
    forall i | 0 <= i < |ds| && ds[i].op.epoch == epoch ::
      base < ds[i].op.lsn <= base + |history| && ds[i].op == history[ds[i].op.lsn - base - 1]
  }

  /** Progress within the epoch is somewhere in its history. */
  predicate InHistory(p: Progress, epoch: nat, base: nat, history: seq<LogOp>) {
    base <= TopIn(p, epoch, base) <= base + |history|
  }

  /** The operations of a history after one LSN and up to another. */
  function Stretch(history: seq<LogOp>, base: nat, from: nat, to: nat): seq<LogOp>
    requires base <= from <= to <= base + |history|
  {
    history[from - base..to - base]
  }

  lemma StretchCons(history: seq<LogOp>, base: nat, from: nat, to: nat)
    requires base <= from < to <= base + |history|
    ensures Stretch(history, base, from, to) == [history[from - base]] + Stretch(history, base, from + 1, to)
  {
  }

  lemma StretchNothing(history: seq<LogOp>, base: nat, from: nat)
    requires base <= from <= base + |history|
    ensures Stretch(history, base, from, from) == []
  {
  }

  lemma StretchConcat(history: seq<LogOp>, base: nat, from: nat, to: nat)
    requires base <= from <= to <= base + |history|
    ensures Stretch(history, base, base, from) + Stretch(history, base, from, to) == Stretch(history, base, base, to)
  {
  }

  lemma DeliverInHistory(p: Progress, ds: seq<Delivery>, epoch: nat, base: nat, history: seq<LogOp>)
    requires ds != [] && WithinEpoch(ds, p, epoch) && FromHistory(ds, epoch, base, history)
    requires InOrder(ds, epoch, TopIn(p, epoch, base)) && InHistory(p, epoch, base, history)
    ensures var p', top := Deliver(p, ds[0]), TopIn(p, epoch, base);
            && WithinEpoch(ds[1..], p', epoch) && FromHistory(ds[1..], epoch, base, history)
            && InOrder(ds[1..], epoch, TopIn(p', epoch, base)) && InHistory(p', epoch, base, history)
            && if Applies(p, ds[0])
               then top < base + |history| && ds[0].op == history[top - base] && TopIn(p', epoch, base) == top + 1
               else TopIn(p', epoch, base) == top
  {
  }

  /** What is applied is the master's history up to where progress then stands. */
  lemma {:induction false} AppliedIsHistory(p: Progress, ds: seq<Delivery>, epoch: nat, base: nat, history: seq<LogOp>)
    requires WithinEpoch(ds, p, epoch) && FromHistory(ds, epoch, base, history)
    requires InOrder(ds, epoch, TopIn(p, epoch, base)) && InHistory(p, epoch, base, history)
    ensures var top, n := TopIn(p, epoch, base), TopIn(ProgressAfter(p, ds), epoch, base);
            && InHistory(ProgressAfter(p, ds), epoch, base, history) && top <= n
            && Applied(p, ds) == Stretch(history, base, top, n)
    decreases |ds|
  {
    hide WithinEpoch, FromHistory, InOrder, TopIn, Stretch, Applies, Deliver;
    var top := TopIn(p, epoch, base);
    if ds == [] {
      StretchNothing(history, base, top);
    } else {
      DeliverInHistory(p, ds, epoch, base, history);
      AppliedIsHistory(Deliver(p, ds[0]), ds[1..], epoch, base, history);
      if Applies(p, ds[0]) {
        StretchCons(history, base, top, TopIn(ProgressAfter(p, ds), epoch, base));
      } else {
        SameProgress(p, ds[0]);
      }
    }
  }

  lemma SameProgress(p: Progress, d: Delivery)
    ensures !Applies(p, d) ==> Deliver(p, d) == p
  {
  }

  /** Progress is at or past everything delivered with success. */
  lemma {:induction false} ProgressCovers(p: Progress, ds: seq<Delivery>)
    ensures !Before(ProgressAfter(p, ds), p)
    ensures forall i | 0 <= i < |ds| && ds[i].succeeds ::
              !Before(ProgressAfter(p, ds), At(ds[i].op)) || ds[i].op.lsn == 0
    decreases |ds|
  {
    if ds != [] {
      ProgressCovers(Deliver(p, ds[0]), ds[1..]);
      forall i | 0 <= i < |ds| && ds[i].succeeds
        ensures !Before(ProgressAfter(p, ds), At(ds[i].op)) || ds[i].op.lsn == 0
      {
        if i > 0 { assert ds[i] == ds[1..][i - 1]; }
      }
    }
  }

  predicate Delivered(ds: seq<Delivery>, q: Progress) {
    exists i :: 0 <= i < |ds| && At(ds[i].op) == q && ds[i].succeeds
  }

  lemma {:induction false} ProgressWithin(p: Progress, ds: seq<Delivery>, epoch: nat)
    requires WithinEpoch(ds, p, epoch)
    ensures ProgressAfter(p, ds).epoch <= epoch
    decreases |ds|
  {
    if ds != [] {
      ProgressWithin(Deliver(p, ds[0]), ds[1..], epoch);
    }
  }

  /**
   * The replica converges: with first successful arrivals in order, however duplicates, stale deliveries and
   * failures are interleaved, its state is the fold of the master's operations up to the last one delivered.
   */
  lemma ReplicaConverges<S>(f: (S, LogOp) -> S, atBase: S, p: Progress, ds: seq<Delivery>,
                            epoch: nat, base: nat, history: seq<LogOp>)
    requires WithinEpoch(ds, p, epoch) && FromHistory(ds, epoch, base, history)
    requires InOrder(ds, epoch, TopIn(p, epoch, base)) && InHistory(p, epoch, base, history)
    ensures var top, n := TopIn(p, epoch, base), TopIn(ProgressAfter(p, ds), epoch, base);
            && top <= n <= base + |history|
            && Fold(f, Fold(f, atBase, Stretch(history, base, base, top)), Applied(p, ds)) ==
               Fold(f, atBase, Stretch(history, base, base, n))
            && (Delivered(ds, Progress(epoch, base + |history|)) && history != [] ==> n == base + |history|)
  {
    hide InOrder, FromHistory, Applied, ProgressAfter, Fold, Stretch;
    AppliedIsHistory(p, ds, epoch, base, history);
    var top, n := TopIn(p, epoch, base), TopIn(ProgressAfter(p, ds), epoch, base);
    if Delivered(ds, Progress(epoch, base + |history|)) && history != [] {
      ProgressCovers(p, ds);
      ProgressWithin(p, ds, epoch);
    }
    FoldConcat(f, atBase, Stretch(history, base, base, top), Stretch(history, base, top, n));
    StretchConcat(history, base, top, n);
  }

  lemma {:induction false} AppliedConcat(p: Progress, a: seq<Delivery>, b: seq<Delivery>)
    ensures Applied(p, a + b) == Applied(p, a) + Applied(ProgressAfter(p, a), b)
    ensures ProgressAfter(p, a + b) == ProgressAfter(ProgressAfter(p, a), b)
    decreases |a|
  {
    if a == [] {
      assert a + b == b;
    } else {
      assert (a + b)[1..] == a[1..] + b;
      AppliedConcat(Deliver(p, a[0]), a[1..], b);
    }
  }

  // ---------------------------------------------------------------------------
  // Across failovers

  /** One epoch as a replica sees it: what is delivered, and the master's history in it. */
  datatype Term = Term(epoch: nat, ds: seq<Delivery>, history: seq<LogOp>)

  function Deliveries(terms: seq<Term>): seq<Delivery> {
    if terms == [] then [] else terms[0].ds + Deliveries(terms[1..])
  }

  function Histories(terms: seq<Term>): seq<LogOp> {
    if terms == [] then [] else terms[0].history + Histories(terms[1..])
  }

  /** The operations a replica has of the current term. */
  function TopAfter(p: Progress, base: nat, t: Term): nat {
    TopIn(ProgressAfter(p, t.ds), t.epoch, base)
  }

  /**
   * Each term goes on with the LSNs of the one before it, its first successful arrivals are in order, and the
   * replica has all of it before the next one begins.
   */
  predicate Chained(p: Progress, base: nat, terms: seq<Term>)
    decreases |terms|
  {
    terms != [] ==>
      var t := terms[0];
      && WithinEpoch(t.ds, p, t.epoch) && TopIn(p, t.epoch, base) == base
      && FromHistory(t.ds, t.epoch, base, t.history) && InOrder(t.ds, t.epoch, base)
      && (|terms| > 1 ==> t.epoch < terms[1].epoch && TopAfter(p, base, t) == base + |t.history|)
      && Chained(ProgressAfter(p, t.ds), base + |t.history|, terms[1..])
  }

  /** How many operations the replica has in the end: all of the earlier terms, and some of the last. */
  function Reached(p: Progress, base: nat, terms: seq<Term>): int
    decreases |terms|
  {
    if terms == [] then 0
    else if |terms| == 1 then TopAfter(p, base, terms[0]) - base
    else |terms[0].history| + Reached(ProgressAfter(p, terms[0].ds), base + |terms[0].history|, terms[1..])
  }

  lemma TermApplied(p: Progress, base: nat, t: Term)
    requires WithinEpoch(t.ds, p, t.epoch) && TopIn(p, t.epoch, base) == base
    requires FromHistory(t.ds, t.epoch, base, t.history) && InOrder(t.ds, t.epoch, base)
    ensures base <= TopAfter(p, base, t) <= base + |t.history|
    ensures Applied(p, t.ds) == t.history[..TopAfter(p, base, t) - base]
  {
    hide InOrder, Applied, ProgressAfter, FromHistory, WithinEpoch;
    AppliedIsHistory(p, t.ds, t.epoch, base, t.history);
  }

  /** Over any number of epochs, what is applied is the joined history of the epochs up to where the replica is. */
  lemma {:induction false} AppliedAcrossTerms(p: Progress, base: nat, terms: seq<Term>)
    requires Chained(p, base, terms)
    ensures 0 <= Reached(p, base, terms) <= |Histories(terms)|
    ensures Applied(p, Deliveries(terms)) == Histories(terms)[..Reached(p, base, terms)]
    decreases |terms|
  {
    hide InOrder, FromHistory, WithinEpoch, TopAfter;
    if terms != [] {
      var t, rest := terms[0], terms[1..];
      var p', base' := ProgressAfter(p, t.ds), base + |t.history|;
      TermApplied(p, base, t);
      AppliedConcat(p, t.ds, Deliveries(rest));
      AppliedAcrossTerms(p', base', rest);
      hide Applied, ProgressAfter;
      if |terms| == 1 {
        assert rest == [];
        NothingApplied(p');
        assert t.ds + [] == t.ds && t.history + [] == t.history;
      } else {
        assert t.history[..|t.history|] == t.history;
      }
    }
  }

  lemma NothingApplied(p: Progress)
    ensures Applied(p, []) == []
  {
  }

  /** So a replica that starts empty ends, over any number of failovers, in the master's state at that point. */
  lemma ConvergesAcrossFailovers<S>(f: (S, LogOp) -> S, initial: S, terms: seq<Term>)
    requires Chained(Progress(0, 0), 0, terms)
    ensures var n := Reached(Progress(0, 0), 0, terms);
            && 0 <= n <= |Histories(terms)|
            && Fold(f, initial, Applied(Progress(0, 0), Deliveries(terms))) == Fold(f, initial, Histories(terms)[..n])
  {
    hide Applied, Deliveries, Histories, Reached, Chained, Fold;
    AppliedAcrossTerms(Progress(0, 0), 0, terms);
  }

  predicate Has(ops: seq<LogOp>, q: Progress) {
    exists k :: 0 <= k < |ops| && At(ops[k]) == q
  }

  /** Some delivery of a position succeeds before progress has passed it. */
  predicate ArrivesInTime(p: Progress, ds: seq<Delivery>, q: Progress) {
    exists i :: 0 <= i < |ds| && At(ds[i].op) == q && ds[i].succeeds && Before(ProgressAfter(p, ds[..i]), q)
  }

  lemma ArrivesCons(p: Progress, ds: seq<Delivery>, q: Progress)
    requires ds != []
    ensures ArrivesInTime(p, ds, q) <==>
              (At(ds[0].op) == q && ds[0].succeeds && Before(p, q)) || ArrivesInTime(Deliver(p, ds[0]), ds[1..], q)
  {
    var p', rest := Deliver(p, ds[0]), ds[1..];
    assert ds[..0] == [];
    forall i | 0 < i < |ds|
      ensures ProgressAfter(p, ds[..i]) == ProgressAfter(p', rest[..i - 1]) && ds[i] == rest[i - 1]
    {
      assert ds[..i][1..] == rest[..i - 1];
    }
    if ArrivesInTime(p', rest, q) {
      var i :| 0 <= i < |rest| && At(rest[i].op) == q && rest[i].succeeds && Before(ProgressAfter(p', rest[..i]), q);
      assert At(ds[i + 1].op) == q;
    }
  }

  /** A position of the stream is applied if and only if it arrives, with success, before progress has passed it. */
  lemma {:induction false} AppliedIff(p: Progress, ds: seq<Delivery>, q: Progress)
    requires q.lsn > 0
    ensures Has(Applied(p, ds), q) <==> ArrivesInTime(p, ds, q)
    decreases |ds|
  {
    if ds != [] {
      var rest := Applied(Deliver(p, ds[0]), ds[1..]);
      AppliedIff(Deliver(p, ds[0]), ds[1..], q);
      ArrivesCons(p, ds, q);
      hide ArrivesInTime;
      var all := Applied(p, ds);
      if Applies(p, ds[0]) {
        assert all == [ds[0].op] + rest;
        assert forall k | 0 <= k < |rest| :: all[k + 1] == rest[k];
        assert all[0] == ds[0].op;
      } else {
        assert all == rest;
      }
    }
  }

  /** An operation whose application fails is never applied once a later one is, whatever is sent afterwards. */
  lemma FailedApplyIsLost(p: Progress, a: LogOp, b: LogOp, ds: seq<Delivery>)
    requires Before(At(a), At(b)) && Applies(p, Delivery(b, true))
    ensures var all := Applied(p, [Delivery(a, false), Delivery(b, true)] + ds);
            forall k | 0 <= k < |all| :: At(all[k]) != At(a)
  {
    var ds' := [Delivery(a, false), Delivery(b, true)];
    AppliedConcat(p, ds', ds);
    assert ds'[1..] == [Delivery(b, true)];
    assert ds'[1..][1..] == [];
    assert Deliver(p, ds'[0]) == p && Deliver(p, ds'[1]) == At(b);
    assert ProgressAfter(p, ds'[1..]) == ProgressAfter(At(b), []) == At(b);
    assert Applied(p, ds'[1..]) == [b] + Applied(At(b), []);
    AppliedIncrease(At(b), ds);
  }

  class ReplicaApplier {
    var progress: map<Slot, Progress>

    constructor ()
      ensures progress == map[]
    {
      progress := map[];
    }

    function Of(slot: Slot): Progress
      reads this
    {
      if slot in progress then progress[slot] else Progress(0, 0)
    }

    /** applyIncomingReplicationOp, given what applying to the engine would yield. */
    method ApplyIncoming(op: LogOp, succeeds: bool) returns (verdict: Verdict, committed: bool)
      modifies this
      ensures verdict == Begin(old(Of(op.slot)), op) && committed == Applies(old(Of(op.slot)), Delivery(op, succeeds))
      ensures forall slot ::
                Of(slot) == if slot == op.slot then Deliver(old(Of(slot)), Delivery(op, succeeds)) else old(Of(slot))
    {
      verdict, committed := Proceed, false;
      var state := Of(op.slot);
      if op.epoch < state.epoch {
        return Stale, false;
      }
      if op.epoch > state.epoch {
        state := Progress(op.epoch, 0);
      }
      if op.lsn <= state.lsn {
        return Skip, false;
      }
      if succeeds {
        progress := progress[op.slot := Progress(op.epoch, op.lsn)];
        committed := true;
      }
    }
  }
}
