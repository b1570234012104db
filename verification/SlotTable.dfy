/** The slot table on values: ownership of the 16384 slots and its reverse index. */
module SlotModel {
  import opened Slots

  type NodeId = string
  type Slot = s: int | 0 <= s < 0x1_0000

  datatype SlotState = Normal | Importing | Exporting

  datatype Replica = Replica(nodeID: NodeId, matchLSN: nat, healthy: bool)

  datatype SlotInfo = SlotInfo(state: SlotState, nodeID: NodeId, primaryID: NodeId, replicas: seq<Replica>,
                               configEpoch: nat, nextLSN: nat, importing: NodeId, exporting: NodeId)

  datatype Table = Table(slots: seq<SlotInfo>, nodeSlots: map<NodeId, seq<Slot>>)

  const FREE := SlotInfo(Normal, "", "", [], 0, 0, "", "")

  predicate Sized(t: Table) { |t.slots| == SLOT_COUNT }

  /** The reverse index: the slots listed for a node. */
  function Owned(t: Table, n: NodeId): seq<Slot> {
    if n in t.nodeSlots then t.nodeSlots[n] else []
  }

  function WithInfo(t: Table, slot: Slot, info: SlotInfo): Table
    requires slot < |t.slots|
  {
    t.(slots := t.slots[slot := info])
  }

  function RemoveFirst(l: seq<Slot>, slot: Slot): seq<Slot> {
    if l == [] then [] else if l[0] == slot then l[1..] else [l[0]] + RemoveFirst(l[1..], slot)
  }

  function RemoveSlot(t: Table, n: NodeId, slot: Slot): Table {
    if slot in Owned(t, n) then t.(nodeSlots := t.nodeSlots[n := RemoveFirst(Owned(t, n), slot)]) else t
  }

  function AppendSlot(t: Table, n: NodeId, slot: Slot): Table {
    t.(nodeSlots := t.nodeSlots[n := Owned(t, n) + [slot]])
  }

  /** setOwnerLocked. */
  function SetOwner(t: Table, slot: Slot, n: NodeId): (t': Table)
    requires slot < |t.slots|
    ensures t'.slots == t.slots[slot := t.slots[slot].(nodeID := n)]
  {
    var previous := t.slots[slot].nodeID;
    var t1 := if previous != "" && previous != n then RemoveSlot(t, previous, slot) else t;
    var t2 := WithInfo(t1, slot, t.slots[slot].(nodeID := n));
    if n == "" || slot in Owned(t2, n) then t2 else AppendSlot(t2, n, slot)
  }

  // ---------------------------------------------------------------------------
  // Operations

  datatype Op =
    | Assign(slot: Slot, node: NodeId)
    | SetConfigEpoch(slot: Slot, epoch: nat)
    | Configure(slot: Slot, node: NodeId, replicaIDs: seq<NodeId>, epoch: nat)
    | AddReplica(slot: Slot, node: NodeId)
    | AddReplicaToMaster(master: NodeId, node: NodeId, epoch: nat)
    | AllocateLSN(slot: Slot)
    | UpdateReplicaLSN(slot: Slot, node: NodeId, lsn: nat)
    | Promote(slot: Slot, node: NodeId)
    | SetImporting(slot: Slot, node: NodeId)
    | SetExporting(slot: Slot, node: NodeId)
    | SetStable(slot: Slot)
    | FinishMigration(slot: Slot, node: NodeId)

  /** Operations without a range check of their own are called with a checked slot. */
  predicate Callable(op: Op) {
    (op.SetImporting? || op.SetExporting? || op.SetStable? || op.FinishMigration?) ==> op.slot < SLOT_COUNT
  }

  function AssignSlot(t: Table, slot: Slot, n: NodeId): Table
    requires slot < |t.slots|
  {
    var info := t.slots[slot];
    var t1 := if info.nodeID != "" then RemoveSlot(t, info.nodeID, slot) else t;
    var t2 := WithInfo(t1, slot, info.(nodeID := n, primaryID := n, replicas := [], state := Normal));
    AppendSlot(t2, n, slot)
  }

  function FreshReplicas(ids: seq<NodeId>, primary: NodeId): seq<Replica> {
    if ids == [] then []
    else
      (if ids[0] == "" || ids[0] == primary then [] else [Replica(ids[0], 0, true)])
      + FreshReplicas(ids[1..], primary)
  }

  predicate HasReplica(rs: seq<Replica>, n: NodeId) {
    exists i :: 0 <= i < |rs| && rs[i].nodeID == n
  }

  function WithReplica(rs: seq<Replica>, n: NodeId): seq<Replica> {
    if HasReplica(rs, n) then rs else rs + [Replica(n, 0, true)]
  }

  /** A replica that acknowledged an LSN: its match LSN never falls, and it is healthy again. */
  function Raised(r: Replica, lsn: nat): Replica {
    Replica(r.nodeID, if lsn > r.matchLSN then lsn else r.matchLSN, true)
  }

  /** Raises the first replica with this id. */
  function Advance(rs: seq<Replica>, n: NodeId, lsn: nat): seq<Replica> {
    if rs == [] then []
    else if rs[0].nodeID == n then [Raised(rs[0], lsn)] + rs[1..]
    else [rs[0]] + Advance(rs[1..], n, lsn)
  }

  function Without(rs: seq<Replica>, n: NodeId): seq<Replica> {
    if rs == [] then []
    else (if rs[0].nodeID == n then [] else [rs[0]]) + Without(rs[1..], n)
  }

  /** The last replica with this id. */
  function LastNamed(rs: seq<Replica>, n: NodeId): (r: Replica)
    requires HasReplica(rs, n)
    ensures r in rs && r.nodeID == n
    decreases |rs|
  {
    if rs[|rs| - 1].nodeID == n then rs[|rs| - 1] else LastNamed(rs[..|rs| - 1], n)
  }

  function PromotedInfo(info: SlotInfo, n: NodeId): SlotInfo
    requires HasReplica(info.replicas, n)
  {
    var was := if info.primaryID == "" then info.nodeID else info.primaryID;
    var lsn := LastNamed(info.replicas, n).matchLSN;
    info.(nodeID := n, primaryID := n, configEpoch := info.configEpoch + 1,
          replicas := Without(info.replicas, n) + (if was != "" && was != n then [Replica(was, 0, true)] else []),
          nextLSN := if lsn > info.nextLSN then lsn else info.nextLSN)
  }

  /** The four CLUSTER SETSLOT transitions of a slot. */
  function Imported(info: SlotInfo, n: NodeId): SlotInfo {
    info.(state := Importing, importing := n)
  }

  function Exported(info: SlotInfo, n: NodeId): SlotInfo {
    info.(state := Exporting, exporting := n)
  }

  function Stabilised(info: SlotInfo): SlotInfo {
    info.(state := Normal, importing := "", exporting := "",
          primaryID := if info.primaryID == "" then info.nodeID else info.primaryID)
  }

  function Finished(info: SlotInfo, n: NodeId): SlotInfo {
    info.(nodeID := n, primaryID := n, state := Normal, importing := "", exporting := "")
  }

  /** A slot of a master that has a new replica. */
  function Replicated(info: SlotInfo, master: NodeId, n: NodeId, epoch: nat): SlotInfo {
    info.(primaryID := master, configEpoch := epoch, replicas := WithReplica(info.replicas, n))
  }

  /** One operation; those that fail leave the table as it is. */
  function Step(t: Table, op: Op): (t': Table)
    requires Sized(t) && Callable(op)
    ensures Sized(t')
  {
    if op.AddReplicaToMaster? then
      if op.master == "" || op.node == "" || op.master == op.node then t
      else t.(slots := seq(|t.slots|, s requires 0 <= s < |t.slots| =>
        var info := t.slots[s];
        if info.nodeID != op.master then info
        else Replicated(info, op.master, op.node, op.epoch)))
    else if op.slot >= SLOT_COUNT then t
    else
      var info := t.slots[op.slot];
      match op
      case Assign(slot, n) => AssignSlot(t, slot, n)
      case SetConfigEpoch(slot, epoch) => WithInfo(t, slot, info.(configEpoch := epoch))
      case Configure(slot, n, ids, epoch) =>
        WithInfo(SetOwner(t, slot, n), slot,
                 info.(nodeID := n, primaryID := n, configEpoch := epoch, replicas := FreshReplicas(ids, n)))
      case AddReplica(slot, n) =>
        if n == "" || info.nodeID == "" then t else WithInfo(t, slot, info.(replicas := WithReplica(info.replicas, n)))
      case AllocateLSN(slot) =>
        if info.nodeID == "" then t else WithInfo(t, slot, info.(nextLSN := info.nextLSN + 1))
      case UpdateReplicaLSN(slot, n, lsn) =>
        WithInfo(t, slot, info.(replicas := Advance(info.replicas, n, lsn)))
      case Promote(slot, n) =>
        if HasReplica(info.replicas, n) then WithInfo(SetOwner(t, slot, n), slot, PromotedInfo(info, n)) else t
      case SetImporting(slot, n) => WithInfo(t, slot, Imported(info, n))
      case SetExporting(slot, n) => WithInfo(t, slot, Exported(info, n))
      case SetStable(slot) => WithInfo(t, slot, Stabilised(info))
      case FinishMigration(slot, n) => WithInfo(SetOwner(t, slot, n), slot, Finished(info, n))
  }

  // ---------------------------------------------------------------------------
  // Replica lists

  /** The ids of a replica list. */
  function Ids(rs: seq<Replica>): set<NodeId> {
    set i | 0 <= i < |rs| :: rs[i].nodeID
  }

  lemma IdsConcat(a: seq<Replica>, b: seq<Replica>)
    ensures Ids(a + b) == Ids(a) + Ids(b)
  {
    var l := a + b;
    forall x | x in Ids(a) ensures x in Ids(l) {
      var i :| 0 <= i < |a| && a[i].nodeID == x;
      assert l[i].nodeID == x;
    }
    forall x | x in Ids(b) ensures x in Ids(l) {
      var i :| 0 <= i < |b| && b[i].nodeID == x;
      assert l[|a| + i].nodeID == x;
    }
  }

  lemma IdsOne(r: Replica)
    ensures Ids([r]) == {r.nodeID}
  {
    assert [r][0].nodeID in Ids([r]);
  }

  /** Configuring a slot lists every given id but blanks and the primary, healthy and with nothing acknowledged. */
  lemma {:induction false} FreshReplicasExact(ids: seq<NodeId>, primary: NodeId)
    ensures Ids(FreshReplicas(ids, primary)) == (set n | n in ids && n != "" && n != primary)
    ensures forall r | r in FreshReplicas(ids, primary) :: r.matchLSN == 0 && r.healthy
  {
    if ids != [] {
      FreshReplicasExact(ids[1..], primary);
      var first, rest := Replica(ids[0], 0, true), FreshReplicas(ids[1..], primary);
      assert forall n :: n in ids <==> n == ids[0] || n in ids[1..];
      IdsOne(first);
      IdsConcat([first], rest);
      assert [] + rest == rest;
    }
  }

  /** Adding a replica keeps those listed, and lists it once more only if it was not. */
  lemma WithReplicaExact(rs: seq<Replica>, n: NodeId)
    ensures rs <= WithReplica(rs, n) && Ids(WithReplica(rs, n)) == Ids(rs) + {n}
    ensures |WithReplica(rs, n)| == |rs| <==> n in Ids(rs)
  {
    IdsOne(Replica(n, 0, true));
    IdsConcat(rs, [Replica(n, 0, true)]);
    assert HasReplica(rs, n) <==> n in Ids(rs);
  }

  /** The first replica with this id. */
  predicate FirstAt(rs: seq<Replica>, n: NodeId, i: nat) {
    i < |rs| && rs[i].nodeID == n && forall j | 0 <= j < i :: rs[j].nodeID != n
  }

  function Max(a: nat, b: nat): nat { if a < b then b else a }

  /**
   * An acknowledged LSN reaches the first replica with the id and no other: it is healthy then, at the greater of
   * what it had and what it acknowledged.
   */
  lemma {:induction false} AdvanceExact(rs: seq<Replica>, n: NodeId, lsn: nat, i: nat)
    requires i < |rs|
    ensures |Advance(rs, n, lsn)| == |rs|
    ensures Advance(rs, n, lsn)[i] ==
            if FirstAt(rs, n, i) then Replica(n, Max(rs[i].matchLSN, lsn), true) else rs[i]
  {
    if rs[0].nodeID != n {
      if i > 0 {
        AdvanceExact(rs[1..], n, lsn, i - 1);
        assert FirstAt(rs[1..], n, i - 1) <==> FirstAt(rs, n, i) by {
          if FirstAt(rs[1..], n, i - 1) {
            assert forall j | 1 <= j < i :: rs[j].nodeID == rs[1..][j - 1].nodeID;
          }
        }
      } else if |rs| > 1 {
        AdvanceExact(rs[1..], n, lsn, 0);
      }
    }
  }

  lemma {:induction false} WithoutIds(rs: seq<Replica>, n: NodeId)
    ensures Ids(Without(rs, n)) == Ids(rs) - {n}
  {
    if rs != [] {
      WithoutIds(rs[1..], n);
      assert rs == [rs[0]] + rs[1..];
      IdsOne(rs[0]);
      IdsConcat([rs[0]], rs[1..]);
      IdsConcat([rs[0]], Without(rs[1..], n));
      assert [] + Without(rs[1..], n) == Without(rs[1..], n);
    }
  }

  lemma {:induction false} AdvanceIds(rs: seq<Replica>, n: NodeId, lsn: nat)
    ensures Ids(Advance(rs, n, lsn)) == Ids(rs)
  {
    if rs != [] {
      AdvanceIds(rs[1..], n, lsn);
      assert rs == [rs[0]] + rs[1..];
      IdsOne(rs[0]);
      IdsOne(Raised(rs[0], lsn));
      IdsConcat([rs[0]], rs[1..]);
      IdsConcat([Raised(rs[0], lsn)], rs[1..]);
      IdsConcat([rs[0]], Advance(rs[1..], n, lsn));
    }
  }

  // ---------------------------------------------------------------------------
  // What the operations do, attribute by attribute

  /** Whether an operation has an effect on a slot. */
  predicate Concerns(op: Op, s: Slot, info: SlotInfo) {
    match op
    case AddReplicaToMaster(master, n, _) => master != "" && n != "" && master != n && info.nodeID == master
    case AddReplica(slot, n) => slot == s && n != "" && info.nodeID != ""
    case AllocateLSN(slot) => slot == s && info.nodeID != ""
    case Promote(slot, n) => slot == s && n in Ids(info.replicas)
    case _ => op.slot == s
  }

  function OwnerAfter(info: SlotInfo, op: Op): NodeId {
    if op.Assign? || op.Configure? || op.Promote? || op.FinishMigration? then op.node else info.nodeID
  }

  function EpochAfter(info: SlotInfo, op: Op): nat {
    if op.SetConfigEpoch? || op.Configure? || op.AddReplicaToMaster? then op.epoch
    else if op.Promote? then info.configEpoch + 1 else info.configEpoch
  }

  function StateAfter(info: SlotInfo, op: Op): SlotState {
    if op.SetImporting? then Importing else if op.SetExporting? then Exporting
    else if op.Assign? || op.SetStable? || op.FinishMigration? then Normal else info.state
  }

  /** The peers of a migration, the importing and the exporting one. */
  function PeersAfter(info: SlotInfo, op: Op): (NodeId, NodeId) {
    if op.SetStable? || op.FinishMigration? then ("", "")
    else (if op.SetImporting? then op.node else info.importing, if op.SetExporting? then op.node else info.exporting)
  }

  /** The replicas by their ids; a promotion replaces the new primary by the old one. */
  function ReplicasAfter(info: SlotInfo, op: Op): set<NodeId> {
    match op
    case Assign(_, _) => {}
    case Configure(_, n, ids, _) => set id | id in ids && id != "" && id != n
    case AddReplica(_, n) => Ids(info.replicas) + {n}
    case AddReplicaToMaster(_, n, _) => Ids(info.replicas) + {n}
    case Promote(_, n) =>
      Ids(info.replicas) - {n} + if info.nodeID == "" || info.nodeID == n then {} else {info.nodeID}
    case _ => Ids(info.replicas)
  }

  /** An LSN counter moves by allocation, and at a promotion up to what the promoted replica has acknowledged. */
  predicate CountsOn(info: SlotInfo, op: Op, lsn: nat) {
    if op.AllocateLSN? then lsn == info.nextLSN + 1
    else if op.Promote? then
      exists r :: r in info.replicas && r.nodeID == op.node && lsn == Max(r.matchLSN, info.nextLSN)
    else lsn == info.nextLSN
  }

  /** The records of the replicas: what an operation enters, keeps and raises. */
  ghost predicate RecordsAfter(info: SlotInfo, op: Op, rs: seq<Replica>) {
    match op
    case Assign(_, _) => rs == []
    case Configure(_, _, _, _) => forall r | r in rs :: r.matchLSN == 0 && r.healthy
    case AddReplica(_, n) => info.replicas <= rs <= info.replicas + [Replica(n, 0, true)]
    case AddReplicaToMaster(_, n, _) => info.replicas <= rs <= info.replicas + [Replica(n, 0, true)]
    case UpdateReplicaLSN(_, n, lsn) =>
      |rs| == |info.replicas| && forall i | 0 <= i < |rs| ::
        rs[i] == if FirstAt(info.replicas, n, i) then Replica(n, Max(info.replicas[i].matchLSN, lsn), true)
                 else info.replicas[i]
    case Promote(_, _) => forall r | r in rs :: r in info.replicas || r == Replica(info.nodeID, 0, true)
    case _ => rs == info.replicas
  }

  lemma {:induction false} WithoutKept(rs: seq<Replica>, n: NodeId)
    ensures forall r | r in Without(rs, n) :: r in rs
  {
    if rs != [] {
      WithoutKept(rs[1..], n);
    }
  }

  lemma RecordsExact(t: Table, op: Op, s: Slot)
    requires Sized(t) && Callable(op) && s < SLOT_COUNT && t.slots[s].primaryID == t.slots[s].nodeID
    requires Concerns(op, s, t.slots[s])
    ensures RecordsAfter(t.slots[s], op, Step(t, op).slots[s].replicas)
  {
    var info := t.slots[s];
    if op.Configure? {
      FreshReplicasExact(op.replicaIDs, op.node);
    } else if op.UpdateReplicaLSN? && info.replicas != [] {
      forall i | 0 <= i < |info.replicas|
        ensures |Advance(info.replicas, op.node, op.lsn)| == |info.replicas|
        ensures Advance(info.replicas, op.node, op.lsn)[i] ==
                if FirstAt(info.replicas, op.node, i)
                then Replica(op.node, Max(info.replicas[i].matchLSN, op.lsn), true) else info.replicas[i]
      {
        AdvanceExact(info.replicas, op.node, op.lsn, i);
      }
      assert |Advance(info.replicas, op.node, op.lsn)| == |info.replicas| by {
        AdvanceExact(info.replicas, op.node, op.lsn, 0);
      }
    } else if op.Promote? {
      WithoutKept(info.replicas, op.node);
      assert HasReplica(info.replicas, op.node);
    }
    hide FreshReplicas, RemoveFirst, FirstAt, LastNamed;
  }

  /** An operation, seen from one slot it concerns. */
  predicate Becomes(info: SlotInfo, op: Op, info': SlotInfo) {
    && info'.nodeID == info'.primaryID == OwnerAfter(info, op) && info'.configEpoch == EpochAfter(info, op)
    && info'.state == StateAfter(info, op) && (info'.importing, info'.exporting) == PeersAfter(info, op)
    && Ids(info'.replicas) == ReplicasAfter(info, op) && CountsOn(info, op, info'.nextLSN)
  }

  lemma StepFrame(t: Table, op: Op, s: Slot)
    requires Sized(t) && Callable(op) && s < SLOT_COUNT && !Concerns(op, s, t.slots[s])
    ensures Step(t, op).slots[s] == t.slots[s]
  {
    hide FreshReplicas, Advance, Without, WithReplica, LastNamed, RemoveFirst;
    if op.Promote? && op.slot == s {
      assert !HasReplica(t.slots[s].replicas, op.node);
    }
  }

  lemma ReplicaOpExact(t: Table, op: Op, s: Slot)
    requires Sized(t) && s < SLOT_COUNT && t.slots[s].primaryID == t.slots[s].nodeID && Concerns(op, s, t.slots[s])
    requires op.Configure? || op.AddReplica? || op.AddReplicaToMaster? || op.UpdateReplicaLSN? || op.Promote?
    ensures Becomes(t.slots[s], op, Step(t, op).slots[s])
  {
    var info := t.slots[s];
    match op {
      case Configure(_, n, ids, _) => FreshReplicasExact(ids, n);
      case AddReplica(_, n) => WithReplicaExact(info.replicas, n);
      case AddReplicaToMaster(_, n, _) => WithReplicaExact(info.replicas, n);
      case UpdateReplicaLSN(_, n, lsn) => AdvanceIds(info.replicas, n, lsn);
      case Promote(_, n) =>
        assert HasReplica(info.replicas, n);
        PromotedExact(info, n);
    }
    hide FreshReplicas, Advance, Without, WithReplica, Ids, HasReplica, RemoveFirst;
  }

  lemma OtherOpExact(t: Table, op: Op, s: Slot)
    requires Sized(t) && Callable(op) && s < SLOT_COUNT && t.slots[s].primaryID == t.slots[s].nodeID
    requires Concerns(op, s, t.slots[s])
    requires !(op.Configure? || op.AddReplica? || op.AddReplicaToMaster? || op.UpdateReplicaLSN? || op.Promote?)
    ensures Becomes(t.slots[s], op, Step(t, op).slots[s])
  {
    hide FreshReplicas, Advance, Without, WithReplica, HasReplica, RemoveFirst;
  }

  /** Every operation changes the slots it concerns, and no other, and of each the attributes that are its own. */
  lemma StepExact(t: Table, op: Op, s: Slot)
    requires Good(t) && Callable(op) && s < SLOT_COUNT
    ensures var info, info' := t.slots[s], Step(t, op).slots[s];
            if Concerns(op, s, info) then Becomes(info, op, info') && RecordsAfter(info, op, info'.replicas)
            else info' == info
  {
    hide Step, Becomes, Concerns, RecordsAfter, IndexOk;
    if Concerns(op, s, t.slots[s]) {
      RecordsExact(t, op, s);
    }
    if !Concerns(op, s, t.slots[s]) {
      StepFrame(t, op, s);
    } else if op.Configure? || op.AddReplica? || op.AddReplicaToMaster? || op.UpdateReplicaLSN? || op.Promote? {
      ReplicaOpExact(t, op, s);
    } else {
      OtherOpExact(t, op, s);
    }
  }

  lemma PromotedExact(info: SlotInfo, n: NodeId)
    requires HasReplica(info.replicas, n) && info.primaryID == info.nodeID
    ensures Ids(PromotedInfo(info, n).replicas) ==
            Ids(info.replicas) - {n} + if info.nodeID == "" || info.nodeID == n then {} else {info.nodeID}
  {
    WithoutIds(info.replicas, n);
    IdsOne(Replica(info.nodeID, 0, true));
    IdsConcat(Without(info.replicas, n), [Replica(info.nodeID, 0, true)]);
    assert Without(info.replicas, n) + [] == Without(info.replicas, n);
  }

  // ---------------------------------------------------------------------------
  // The reverse index never drifts

  predicate NoDuplicates(l: seq<Slot>) {
    forall i, j | 0 <= i < j < |l| :: l[i] != l[j]
  }

  /** The slots listed for n are exactly those n owns, each once. */
  ghost predicate Indexed(t: Table, n: NodeId) {
    NoDuplicates(Owned(t, n)) && forall s: Slot :: s in Owned(t, n) <==> s < |t.slots| && t.slots[s].nodeID == n
  }

  ghost predicate IndexOk(t: Table) {
    forall n | n != "" :: Indexed(t, n)
  }

  predicate PrimaryOk(t: Table) {
    forall s | 0 <= s < |t.slots| :: t.slots[s].primaryID == t.slots[s].nodeID
  }

  ghost predicate Good(t: Table) {
    Sized(t) && IndexOk(t) && PrimaryOk(t)
  }

  lemma {:induction false} RemoveFirstExact(l: seq<Slot>, slot: Slot)
    requires NoDuplicates(l)
    ensures NoDuplicates(RemoveFirst(l, slot))
    ensures forall s: Slot :: s in RemoveFirst(l, slot) <==> s in l && s != slot
  {
    if l != [] && l[0] != slot {
      RemoveFirstExact(l[1..], slot);
      assert forall s: Slot :: s in l <==> s == l[0] || s in l[1..];
      assert l[0] !in l[1..];
    } else if l != [] {
      assert forall s: Slot :: s in l <==> s == l[0] || s in l[1..];
    }
  }

  /** What a change of one slot's owner asks of the index. */
  lemma SetOwnerIndexed(t: Table, slot: Slot, n: NodeId, t': Table)
    requires IndexOk(t) && slot < |t.slots| && t' == SetOwner(t, slot, n)
    ensures IndexOk(t')
  {
    forall m | m != ""
      ensures Indexed(t', m)
    {
      assert Indexed(t, m);
      RemoveFirstExact(Owned(t, m), slot);
    }
  }

  lemma AssignSlotIndexed(t: Table, slot: Slot, n: NodeId, t': Table)
    requires IndexOk(t) && slot < |t.slots| && t' == AssignSlot(t, slot, n)
    ensures IndexOk(t')
  {
    forall m | m != ""
      ensures Indexed(t', m)
    {
      assert Indexed(t, m);
      RemoveFirstExact(Owned(t, m), slot);
    }
  }

  /** Changing anything but owners keeps the index. */
  lemma SameOwnersIndexed(t: Table, t': Table)
    requires IndexOk(t) && t'.nodeSlots == t.nodeSlots && |t'.slots| == |t.slots|
    requires forall s | 0 <= s < |t.slots| :: t'.slots[s].nodeID == t.slots[s].nodeID
    ensures IndexOk(t')
  {
    forall m | m != ""
      ensures Indexed(t', m)
    {
      assert Indexed(t, m);
    }
  }

  lemma StepKeepsGood(t: Table, op: Op)
    requires Good(t) && Callable(op)
    ensures Good(Step(t, op))
  {
    hide IndexOk;
    var t' := Step(t, op);
    if op.Assign? && op.slot < SLOT_COUNT {
      AssignSlotIndexed(t, op.slot, op.node, t');
    } else if (op.Configure? || op.FinishMigration?
               || (op.Promote? && op.slot < SLOT_COUNT && HasReplica(t.slots[op.slot].replicas, op.node)))
              && op.slot < SLOT_COUNT {
      var t1 := SetOwner(t, op.slot, op.node);
      SetOwnerIndexed(t, op.slot, op.node, t1);
      SameOwnersIndexed(t1, t');
    } else {
      SameOwnersIndexed(t, t');
    }
  }
}

/** Persisting the table as three snapshots and restoring it, in any iteration order of the maps. */
module SlotPersistence {
  import opened Slots
  import opened SlotModel

  datatype MigrationState = MigrationState(source: NodeId, target: NodeId, state: string)

  datatype ReplicaSet = ReplicaSet(primaryID: NodeId, replicas: seq<Replica>, configEpoch: nat, nextLSN: nat)

  function SlotMapOf(t: Table): seq<NodeId> {
    seq(|t.slots|, s requires 0 <= s < |t.slots| => t.slots[s].nodeID)
  }

  function MigrationOf(info: SlotInfo): MigrationState
    requires info.state != Normal
  {
    if info.state == Importing then MigrationState(info.importing, info.nodeID, "importing")
    else MigrationState(info.nodeID, info.exporting, "exporting")
  }

  function MigrationsOf(t: Table): map<Slot, MigrationState>
    requires Sized(t)
  {
    map s: Slot | s < |t.slots| && t.slots[s].state != Normal :: MigrationOf(t.slots[s])
  }

  /** Slots without any replication state are left out of the snapshot. */
  predicate Untouched(info: SlotInfo) {
    info.primaryID == "" && info.replicas == [] && info.configEpoch == 0 && info.nextLSN == 0
  }

  function ReplicaSetOf(info: SlotInfo): ReplicaSet {
    ReplicaSet(info.primaryID, info.replicas, info.configEpoch, info.nextLSN)
  }

  function ReplicationOf(t: Table): map<Slot, ReplicaSet>
    requires Sized(t)
  {
    map s: Slot | s < |t.slots| && !Untouched(t.slots[s]) :: ReplicaSetOf(t.slots[s])
  }

  // ---------------------------------------------------------------------------
  // Restoring, step by step

  function RestoreOwners(slotMap: seq<NodeId>, n: nat): (t: Table)
    requires n <= |slotMap| == SLOT_COUNT
    ensures Sized(t)
  {
    if n == 0 then Table(seq(SLOT_COUNT, _ => FREE), map[])
    else
      var t, id := RestoreOwners(slotMap, n - 1), slotMap[n - 1];
      if id == "" then t
      else AppendSlot(WithInfo(t, n - 1, t.slots[n - 1].(nodeID := id, primaryID := id)), id, n - 1)
  }

  /** What a persisted replica set makes of a slot. */
  function Merge(info: SlotInfo, r: ReplicaSet): SlotInfo {
    var owner := if r.primaryID != "" then r.primaryID else info.nodeID;
    var primary := if r.primaryID != "" then r.primaryID else info.primaryID;
    info.(nodeID := owner, primaryID := primary, configEpoch := r.configEpoch,
          nextLSN := r.nextLSN, replicas := r.replicas)
  }

  function RestoreReplica(t: Table, slot: Slot, r: ReplicaSet): (t': Table)
    requires Sized(t)
    ensures Sized(t')
  {
    if slot >= SLOT_COUNT then t
    else
      var t1 := if r.primaryID != "" then SetOwner(t, slot, r.primaryID) else t;
      WithInfo(t1, slot, Merge(t.slots[slot], r))
  }

  function RestoreReplicas(t: Table, order: seq<Slot>, replicas: map<Slot, ReplicaSet>): (t': Table)
    requires Sized(t) && forall s | s in order :: s in replicas
    ensures Sized(t')
    decreases |order|
  {
    if order == [] then t
    else RestoreReplicas(RestoreReplica(t, order[0], replicas[order[0]]), order[1..], replicas)
  }

  function Resume(info: SlotInfo, m: MigrationState): SlotInfo {
    if m.state == "importing" then info.(state := Importing, importing := m.source)
    else if m.state == "exporting" then info.(state := Exporting, exporting := m.target)
    else info
  }

  function RestoreMigrations(t: Table, order: seq<Slot>, migrations: map<Slot, MigrationState>): (t': Table)
    requires Sized(t) && forall s | s in order :: s in migrations && s < SLOT_COUNT
    ensures Sized(t')
    decreases |order|
  {
    if order == [] then t
    else
      var s := order[0];
      assert s in order && forall r | r in order[1..] :: r in order;
      RestoreMigrations(WithInfo(t, s, Resume(t.slots[s], migrations[s])), order[1..], migrations)
  }

  /** An order in which the keys of a map may be visited. */
  ghost predicate Visits<T>(order: seq<Slot>, m: map<Slot, T>) {
    forall s: Slot :: s in order <==> s in m
  }

  predicate Restorable(slotMap: seq<NodeId>, migrations: map<Slot, MigrationState>) {
    |slotMap| == SLOT_COUNT && forall s | s in migrations :: s < SLOT_COUNT
  }

  function Restore(slotMap: seq<NodeId>, migrations: map<Slot, MigrationState>, migrationOrder: seq<Slot>,
                   replicas: map<Slot, ReplicaSet>, replicaOrder: seq<Slot>): (t: Table)
    requires Restorable(slotMap, migrations)
    requires (forall s | s in migrationOrder :: s in migrations) && (forall s | s in replicaOrder :: s in replicas)
    ensures Sized(t)
  {
    var owned := RestoreOwners(slotMap, SLOT_COUNT);
    RestoreMigrations(RestoreReplicas(owned, replicaOrder, replicas), migrationOrder, migrations)
  }

  // ---------------------------------------------------------------------------
  // What restoring gives, whatever the order

  lemma {:induction false} OwnersGood(slotMap: seq<NodeId>, n: nat)
    requires n <= |slotMap| == SLOT_COUNT
    ensures Good(RestoreOwners(slotMap, n))
    ensures forall s | 0 <= s < SLOT_COUNT :: RestoreOwners(slotMap, n).slots[s] ==
              if s < n then FREE.(nodeID := slotMap[s], primaryID := slotMap[s]) else FREE
  {
    if n > 0 {
      OwnersGood(slotMap, n - 1);
      var t, t', id := RestoreOwners(slotMap, n - 1), RestoreOwners(slotMap, n), slotMap[n - 1];
      if id != "" {
        forall m | m != ""
          ensures Indexed(t', m)
        {
          assert Indexed(t, m);
        }
      }
    }
  }

  lemma RestoreReplicaGood(t: Table, slot: Slot, r: ReplicaSet)
    requires Good(t)
    ensures Good(RestoreReplica(t, slot, r))
  {
    hide IndexOk;
    if slot < SLOT_COUNT {
      var t1 := if r.primaryID != "" then SetOwner(t, slot, r.primaryID) else t;
      if r.primaryID != "" {
        SetOwnerIndexed(t, slot, r.primaryID, t1);
      }
      SameOwnersIndexed(t1, RestoreReplica(t, slot, r));
    }
  }

  lemma {:induction false} ReplicasGood(t: Table, order: seq<Slot>, replicas: map<Slot, ReplicaSet>)
    requires Good(t) && forall s | s in order :: s in replicas
    ensures Good(RestoreReplicas(t, order, replicas))
    ensures forall s: Slot | s < SLOT_COUNT :: RestoreReplicas(t, order, replicas).slots[s] ==
              if s in order then Merge(t.slots[s], replicas[s]) else t.slots[s]
    decreases |order|
  {
    hide IndexOk;
    if order != [] {
      RestoreReplicaGood(t, order[0], replicas[order[0]]);
      ReplicasGood(RestoreReplica(t, order[0], replicas[order[0]]), order[1..], replicas);
    }
  }

  lemma {:induction false} MigrationsGood(t: Table, order: seq<Slot>, migrations: map<Slot, MigrationState>)
    requires Good(t) && forall s | s in order :: s in migrations && s < SLOT_COUNT
    ensures Good(RestoreMigrations(t, order, migrations))
    ensures forall s: Slot | s < SLOT_COUNT :: RestoreMigrations(t, order, migrations).slots[s] ==
              if s in order then Resume(t.slots[s], migrations[s]) else t.slots[s]
    decreases |order|
  {
    hide IndexOk;
    if order != [] {
      var s := order[0];
      assert s in order;
      var t1 := WithInfo(t, s, Resume(t.slots[s], migrations[s]));
      SameOwnersIndexed(t, t1);
      assert forall r | r in order[1..] :: r in order;
      MigrationsGood(t1, order[1..], migrations);
    }
  }

  /** Restoring any three snapshots, in any order, gives a table whose index is right. */
  lemma RestoreGood(slotMap: seq<NodeId>, migrations: map<Slot, MigrationState>, migrationOrder: seq<Slot>,
                    replicas: map<Slot, ReplicaSet>, replicaOrder: seq<Slot>)
    requires Restorable(slotMap, migrations) && Visits(migrationOrder, migrations) && Visits(replicaOrder, replicas)
    ensures var t := Restore(slotMap, migrations, migrationOrder, replicas, replicaOrder);
            Good(t) && forall s: Slot | s < SLOT_COUNT ::
              var owned := FREE.(nodeID := slotMap[s], primaryID := slotMap[s]);
              var merged := if s in replicas then Merge(owned, replicas[s]) else owned;
              t.slots[s] == if s in migrations then Resume(merged, migrations[s]) else merged
  {
    hide Good, RestoreOwners;
    OwnersGood(slotMap, SLOT_COUNT);
    var t1 := RestoreOwners(slotMap, SLOT_COUNT);
    ReplicasGood(t1, replicaOrder, replicas);
    MigrationsGood(RestoreReplicas(t1, replicaOrder, replicas), migrationOrder, migrations);
  }

  /** The slot without migration peers that its state does not use. */
  function ActivePeers(info: SlotInfo): SlotInfo {
    info.(importing := if info.state == Importing then info.importing else "",
          exporting := if info.state == Exporting then info.exporting else "")
  }

  /**
   * Restoring the snapshots of a table gives every slot back, with its active migration peer, and the
   * same slots per node; it is the identity on a slot if and only if the slot has no inactive peer.
   */
  lemma RestoreUndoesSnapshot(t: Table, migrationOrder: seq<Slot>, replicaOrder: seq<Slot>)
    requires Good(t) && Visits(migrationOrder, MigrationsOf(t)) && Visits(replicaOrder, ReplicationOf(t))
    ensures var t' := Restore(SlotMapOf(t), MigrationsOf(t), migrationOrder, ReplicationOf(t), replicaOrder);
            && Good(t')
            && (forall s: Slot | s < SLOT_COUNT :: t'.slots[s] == ActivePeers(t.slots[s]))
            && (forall s: Slot | s < SLOT_COUNT ::
                  t'.slots[s] == t.slots[s] <==>
                    (t.slots[s].state != Importing ==> t.slots[s].importing == "")
                    && (t.slots[s].state != Exporting ==> t.slots[s].exporting == ""))
            && (forall n, s: Slot | n != "" :: s in Owned(t', n) <==> s in Owned(t, n))
  {
    hide Restore, IndexOk;
    RestoreGood(SlotMapOf(t), MigrationsOf(t), migrationOrder, ReplicationOf(t), replicaOrder);
    var t' := Restore(SlotMapOf(t), MigrationsOf(t), migrationOrder, ReplicationOf(t), replicaOrder);
    forall s: Slot | s < SLOT_COUNT
      ensures t'.slots[s] == ActivePeers(t.slots[s])
    {
    }
    forall n, s: Slot | n != ""
      ensures s in Owned(t', n) <==> s in Owned(t, n)
    {
      OwnedExactly(t, n, s);
      OwnedExactly(t', n, s);
    }
  }

  lemma OwnedExactly(t: Table, n: NodeId, s: Slot)
    requires Good(t) && n != ""
    ensures s in Owned(t, n) <==> s < |t.slots| && t.slots[s].nodeID == n
  {
    assert Indexed(t, n);
  }

  // ---------------------------------------------------------------------------
  // Every reachable table

  datatype Event =
    | Do(op: Op)
    | Reload(slotMap: seq<NodeId>, migrations: map<Slot, MigrationState>, migrationOrder: seq<Slot>,
             replicas: map<Slot, ReplicaSet>, replicaOrder: seq<Slot>)

  ghost predicate Possible(e: Event) {
    match e
    case Do(op) => Callable(op)
    case Reload(slotMap, migrations, migrationOrder, replicas, replicaOrder) =>
      Restorable(slotMap, migrations) && Visits(migrationOrder, migrations) && Visits(replicaOrder, replicas)
  }

  function After(t: Table, e: Event): (t': Table)
    requires Sized(t) && Possible(e)
    ensures Sized(t')
  {
    match e
    case Do(op) => Step(t, op)
    case Reload(slotMap, migrations, migrationOrder, replicas, replicaOrder) =>
      Restore(slotMap, migrations, migrationOrder, replicas, replicaOrder)
  }

  function Run(t: Table, events: seq<Event>): (t': Table)
    requires Sized(t) && forall e | e in events :: Possible(e)
    ensures Sized(t')
    decreases |events|
  {
    if events == [] then t else Run(After(t, events[0]), events[1..])
  }

  const NEW_TABLE := Table(seq(SLOT_COUNT, _ => FREE), map[])

  /** In every reachable table the reverse index is exact and the primary is the owner. */
  lemma {:induction false} RunGood(t: Table, events: seq<Event>)
    requires Good(t) && forall e | e in events :: Possible(e)
    ensures Good(Run(t, events))
    decreases |events|
  {
    hide IndexOk, Step, Restore;
    if events != [] {
      assert Possible(events[0]);
      match events[0] {
        case Do(op) => StepKeepsGood(t, op);
        case Reload(slotMap, migrations, migrationOrder, replicas, replicaOrder) =>
          RestoreGood(slotMap, migrations, migrationOrder, replicas, replicaOrder);
      }
      RunGood(After(t, events[0]), events[1..]);
    }
  }

  lemma ReachableGood(events: seq<Event>)
    requires forall e | e in events :: Possible(e)
    ensures Good(Run(NEW_TABLE, events))
  {
    assert IndexOk(NEW_TABLE) by {
      forall n | n != "" ensures Indexed(NEW_TABLE, n) {
        assert Owned(NEW_TABLE, n) == [];
      }
    }
    RunGood(NEW_TABLE, events);
  }

  /** Assigning an importing slot ends the import but keeps its peer, which a restart then forgets. */
  lemma RestartForgetsPeer(migrationOrder: seq<Slot>, replicaOrder: seq<Slot>)
    requires var t := Run(NEW_TABLE, [Do(SetImporting(0, "b")), Do(Assign(0, "a"))]);
             Visits(migrationOrder, MigrationsOf(t)) && Visits(replicaOrder, ReplicationOf(t))
    ensures var t := Run(NEW_TABLE, [Do(SetImporting(0, "b")), Do(Assign(0, "a"))]);
            var t' := Restore(SlotMapOf(t), MigrationsOf(t), migrationOrder, ReplicationOf(t), replicaOrder);
            Sized(t) && Sized(t') && t.slots[0].importing == "b" && t'.slots[0].importing == ""
  {
    var events := [Do(SetImporting(0, "b")), Do(Assign(0, "a"))];
    var t := Run(NEW_TABLE, events);
    ReachableGood(events);
    var t1 := Step(NEW_TABLE, SetImporting(0, "b"));
    assert events[1..] == [Do(Assign(0, "a"))];
    assert Run(t1, events[1..]) == Run(Step(t1, Assign(0, "a")), []);
    assert t.slots[0].importing == "b" && t.slots[0].state == Normal;
    RestoreUndoesSnapshot(t, migrationOrder, replicaOrder);
    var t' := Restore(SlotMapOf(t), MigrationsOf(t), migrationOrder, ReplicationOf(t), replicaOrder);
    assert t'.slots[0] == ActivePeers(t.slots[0]);
  }
}

/** The slot table itself: an array of slots and the reverse index, changed in place. */
module SlotManagers {
  import opened Slots
  import opened Options
  import opened SlotModel
  import opened SlotPersistence

  class SlotManager {
    const slots: array<SlotInfo>
    var nodeSlots: map<NodeId, seq<Slot>>

    ghost function View(): (t: Table)
      reads this, slots
      ensures |t.slots| == slots.Length
    {
      Table(slots[..], nodeSlots)
    }

    ghost predicate Valid()
      reads this, slots
    {
      Good(View())
    }

    constructor ()
      ensures Valid() && fresh(slots) && View() == NEW_TABLE
    {
      slots := new SlotInfo[SLOT_COUNT](_ => FREE);
      nodeSlots := map[];
      new;
      assert View() == NEW_TABLE;
      ReachableGood([]);
    }

    method RemoveSlotFromNode(n: NodeId, slot: Slot)
      modifies `nodeSlots
      ensures View() == RemoveSlot(old(View()), n, slot)
    {
      hide RemoveFirst;
      var listed := if n in nodeSlots then nodeSlots[n] else [];
      for i := 0 to |listed|
        invariant nodeSlots == old(nodeSlots) && slot !in listed[..i]
      {
        if listed[i] == slot {
          RemoveFirstAt(listed, i, slot);
          nodeSlots := nodeSlots[n := listed[..i] + listed[i + 1..]];
          return;
        }
      }
    }

    method SetOwnerLocked(slot: Slot, n: NodeId)
      requires slot < slots.Length
      modifies this, slots
      ensures View() == SetOwner(old(View()), slot, n)
    {
      var previous := slots[slot].nodeID;
      if previous != "" && previous != n {
        RemoveSlotFromNode(previous, slot);
      }
      slots[slot] := slots[slot].(nodeID := n);
      if n == "" || slot in (if n in nodeSlots then nodeSlots[n] else []) {
        return;
      }
      nodeSlots := nodeSlots[n := (if n in nodeSlots then nodeSlots[n] else []) + [slot]];
    }

    method AssignSlot(slot: Slot, n: NodeId) returns (ok: bool)
      requires Valid()
      modifies this, slots
      ensures Valid() && ok == (slot < SLOT_COUNT)
      ensures View() == Step(old(View()), Assign(slot, n))
    {
      if slot >= SLOT_COUNT {
        return false;
      }
      StepKeepsGood(View(), Assign(slot, n));
      if slots[slot].nodeID != "" {
        RemoveSlotFromNode(slots[slot].nodeID, slot);
      }
      slots[slot] := slots[slot].(nodeID := n, primaryID := n, replicas := [], state := Normal);
      nodeSlots := nodeSlots[n := (if n in nodeSlots then nodeSlots[n] else []) + [slot]];
      ok := true;
    }

    /** Assigns slot by slot; stops at the first invalid one. */
    method AssignSlotRange(start: Slot, end: Slot, n: NodeId) returns (ok: bool)
      requires Valid()
      modifies this, slots
      ensures Valid() && ok == (start <= end ==> end < SLOT_COUNT)
      ensures forall s: Slot | s < SLOT_COUNT ::
                slots[s] == if start <= s <= end
                            then old(slots[s]).(nodeID := n, primaryID := n, replicas := [], state := Normal)
                            else old(slots[s])
    {
      var slot: int := start;
      while slot <= end
        invariant Valid() && start <= slot && (slot > start ==> slot <= end + 1 && slot <= SLOT_COUNT)
        invariant forall s: Slot | s < SLOT_COUNT ::
                    slots[s] == if start <= s < slot
                                then old(slots[s]).(nodeID := n, primaryID := n, replicas := [], state := Normal)
                                else old(slots[s])
      {
        ghost var before := slots[..];
        var valid := AssignSlot(slot, n);
        if !valid {
          return false;
        }
        assert slots[..] == before[slot := before[slot].(nodeID := n, primaryID := n, replicas := [], state := Normal)];
        slot := slot + 1;
      }
      ok := true;
    }

    method SetSlotConfigEpoch(slot: Slot, epoch: nat)
      requires Valid()
      modifies slots
      ensures Valid() && View() == Step(old(View()), SetConfigEpoch(slot, epoch))
    {
      StepKeepsGood(View(), SetConfigEpoch(slot, epoch));
      if slot < slots.Length {
        slots[slot] := slots[slot].(configEpoch := epoch);
      }
    }

    method ConfigureReplication(slot: Slot, primary: NodeId, replicaIDs: seq<NodeId>, epoch: nat) returns (ok: bool)
      requires Valid()
      modifies this, slots
      ensures Valid() && ok == (slot < SLOT_COUNT)
      ensures View() == Step(old(View()), Configure(slot, primary, replicaIDs, epoch))
    {
      if slot >= SLOT_COUNT {
        return false;
      }
      StepKeepsGood(View(), Configure(slot, primary, replicaIDs, epoch));
      SetOwnerLocked(slot, primary);
      var replicas: seq<Replica> := [];
      for i := 0 to |replicaIDs|
        invariant View() == SetOwner(old(View()), slot, primary)
        invariant FreshReplicas(replicaIDs, primary) == replicas + FreshReplicas(replicaIDs[i..], primary)
      {
        assert replicaIDs[i..][1..] == replicaIDs[i + 1..];
        if replicaIDs[i] != "" && replicaIDs[i] != primary {
          replicas := replicas + [Replica(replicaIDs[i], 0, true)];
        }
      }
      assert replicas == FreshReplicas(replicaIDs, primary);
      ghost var owned := View();
      slots[slot] := slots[slot].(primaryID := primary, configEpoch := epoch, replicas := replicas);
      assert slots[..] == owned.slots[slot := slots[slot]];
      assert View() == Step(old(View()), Configure(slot, primary, replicaIDs, epoch));
      ok := true;
    }

    method AddSlotReplica(slot: Slot, n: NodeId)
      requires Valid()
      modifies slots
      ensures Valid() && View() == Step(old(View()), AddReplica(slot, n))
    {
      StepKeepsGood(View(), AddReplica(slot, n));
      if slot >= SLOT_COUNT || n == "" || slots[slot].nodeID == "" {
        return;
      }
      slots[slot] := slots[slot].(replicas := WithReplica(slots[slot].replicas, n));
    }

    method AddReplicaToMasterSlots(master: NodeId, n: NodeId, epoch: nat) returns (count: nat, ok: bool)
      requires Valid()
      modifies slots
      ensures Valid() && ok == (master != "" && n != "" && master != n)
      ensures View() == Step(old(View()), AddReplicaToMaster(master, n, epoch))
      ensures count == if ok then |old(Owned(View(), master))| else 0
    {
      hide Replicated;
      StepKeepsGood(View(), AddReplicaToMaster(master, n, epoch));
      if master == "" || n == "" || master == n {
        return 0, false;
      }
      count := 0;
      ghost var before := View();
      for s := 0 to SLOT_COUNT
        invariant slots.Length == SLOT_COUNT
        invariant forall i | 0 <= i < SLOT_COUNT ::
          slots[i] == if i < s && before.slots[i].nodeID == master
                      then Replicated(before.slots[i], master, n, epoch) else before.slots[i]
        invariant count == |OwnedBelow(before, master, s)|
      {
        OwnedBelowStep(before, master, s);
        if slots[s].nodeID == master {
          slots[s] := Replicated(slots[s], master, n, epoch);
          count := count + 1;
        }
      }
      assert View().slots == Step(before, AddReplicaToMaster(master, n, epoch)).slots;
      OwnedCount(before, master);
      ok := true;
    }

    method AllocateLSN(slot: Slot) returns (ok: bool, epoch: nat, lsn: nat)
      requires Valid()
      modifies slots
      ensures Valid() && View() == Step(old(View()), SlotModel.AllocateLSN(slot))
      ensures ok == (slot < SLOT_COUNT && old(slots[slot]).nodeID != "")
      ensures ok ==> epoch == slots[slot].configEpoch && lsn == slots[slot].nextLSN == old(slots[slot]).nextLSN + 1
    {
      StepKeepsGood(View(), SlotModel.AllocateLSN(slot));
      if slot >= SLOT_COUNT || slots[slot].nodeID == "" {
        return false, 0, 0;
      }
      slots[slot] := slots[slot].(nextLSN := slots[slot].nextLSN + 1);
      return true, slots[slot].configEpoch, slots[slot].nextLSN;
    }

    method UpdateReplicaLSN(slot: Slot, n: NodeId, lsn: nat) returns (ok: bool)
      requires Valid()
      modifies slots
      ensures Valid() && View() == Step(old(View()), SlotModel.UpdateReplicaLSN(slot, n, lsn))
      ensures ok == (slot < SLOT_COUNT && HasReplica(old(slots[slot]).replicas, n))
    {
      StepKeepsGood(View(), SlotModel.UpdateReplicaLSN(slot, n, lsn));
      if slot >= SLOT_COUNT {
        return false;
      }
      var rs;
      rs, ok := AdvanceFirst(slots[slot].replicas, n, lsn);
      slots[slot] := slots[slot].(replicas := rs);
      assert slots[..] == old(slots[..])[slot := slots[slot]];
    }

    /** The loop of UpdateReplicaLSN: raises the first replica with the id. */
    static method AdvanceFirst(rs: seq<Replica>, n: NodeId, lsn: nat) returns (r: seq<Replica>, found: bool)
      ensures r == Advance(rs, n, lsn) && found == HasReplica(rs, n)
    {
      hide Advance, HasReplica, LastNamed;
      NoReplica(n);
      assert rs[..0] == [] && rs[0..] == rs;
      for i := 0 to |rs|
        invariant !HasReplica(rs[..i], n) && Advance(rs, n, lsn) == rs[..i] + Advance(rs[i..], n, lsn)
      {
        AdvanceStep(rs, i, n, lsn);
        assert rs[..i + 1] == rs[..i] + [rs[i]];
        HasReplicaSnoc(rs[..i], rs[i], n);
        if rs[i].nodeID == n {
          HasReplicaPrefix(rs, i + 1, n);
          return rs[i := Raised(rs[i], lsn)], true;
        }
      }
      assert rs[..|rs|] == rs && rs[|rs|..] == [];
      AdvanceNothing(n, lsn);
      return rs, false;
    }

    /** The loop of PromoteReplica: the replicas that stay, and the last one with the id. */
    static method Partition(rs: seq<Replica>, n: NodeId) returns (remaining: seq<Replica>, promoted: Option<Replica>)
      ensures remaining == Without(rs, n)
      ensures promoted == if HasReplica(rs, n) then Some(LastNamed(rs, n)) else None
    {
      hide HasReplica, LastNamed, Without;
      remaining, promoted := [], None;
      NoReplica(n);
      assert rs[..0] == [] && rs[0..] == rs;
      for i := 0 to |rs|
        invariant Without(rs, n) == remaining + Without(rs[i..], n)
        invariant promoted == if HasReplica(rs[..i], n) then Some(LastNamed(rs[..i], n)) else None
      {
        WithoutStep(rs, i, n);
        assert rs[..i + 1] == rs[..i] + [rs[i]];
        HasReplicaSnoc(rs[..i], rs[i], n);
        if rs[i].nodeID == n {
          promoted := Some(rs[i]);
        } else {
          assert remaining + ([rs[i]] + Without(rs[i + 1..], n)) == remaining + [rs[i]] + Without(rs[i + 1..], n);
          remaining := remaining + [rs[i]];
        }
      }
      assert rs[..|rs|] == rs && rs[|rs|..] == [];
      WithoutNothing(n);
    }

    method PromoteReplica(slot: Slot, n: NodeId) returns (ok: bool)
      requires Valid()
      modifies this, slots
      ensures Valid() && View() == Step(old(View()), Promote(slot, n))
      ensures ok == (slot < SLOT_COUNT && HasReplica(old(slots[slot]).replicas, n))
    {
      StepKeepsGood(View(), Promote(slot, n));
      if slot >= SLOT_COUNT {
        return false;
      }
      var info := slots[slot];
      var remaining, promoted := Partition(info.replicas, n);
      if promoted.None? {
        return false;
      }
      var was := if info.primaryID == "" then info.nodeID else info.primaryID;
      if was != "" && was != n {
        remaining := remaining + [Replica(was, 0, true)];
      }
      SetOwnerLocked(slot, n);
      ghost var owned := View();
      var lsn := if promoted.value.matchLSN > slots[slot].nextLSN then promoted.value.matchLSN else slots[slot].nextLSN;
      slots[slot] := slots[slot].(primaryID := n, replicas := remaining,
                                  configEpoch := slots[slot].configEpoch + 1, nextLSN := lsn);
      assert slots[..] == owned.slots[slot := slots[slot]];
      assert slots[slot] == PromotedInfo(info, n);
      assert View() == Step(old(View()), Promote(slot, n));
      ok := true;
    }

    method SetMigration(op: Op)
      requires Valid() && Callable(op) && (op.SetImporting? || op.SetExporting? || op.SetStable? || op.FinishMigration?)
      modifies this, slots
      ensures Valid() && View() == Step(old(View()), op)
    {
      StepKeepsGood(View(), op);
      match op
      case SetImporting(slot, from) =>
        slots[slot] := slots[slot].(state := Importing, importing := from);
      case SetExporting(slot, to) =>
        slots[slot] := slots[slot].(state := Exporting, exporting := to);
      case SetStable(slot) =>
        slots[slot] := slots[slot].(state := Normal, importing := "", exporting := "");
        if slots[slot].primaryID == "" {
          slots[slot] := slots[slot].(primaryID := slots[slot].nodeID);
        }
        assert slots[..] == old(slots[..])[slot := slots[slot]];
      case FinishMigration(slot, n) =>
        SetOwnerLocked(slot, n);
        slots[slot] := slots[slot].(state := Normal, primaryID := n, importing := "", exporting := "");
    }

    method GetSlotMapSnapshot() returns (slotMap: seq<NodeId>)
      ensures slotMap == SlotMapOf(View())
    {
      slotMap := [];
      for i := 0 to slots.Length
        invariant |slotMap| == i && forall s | 0 <= s < i :: slotMap[s] == slots[s].nodeID
      {
        slotMap := slotMap + [slots[i].nodeID];
      }
    }

    method GetMigratingSlots() returns (result: map<Slot, MigrationState>)
      requires Valid()
      ensures result == MigrationsOf(View())
    {
      result := map[];
      for i := 0 to slots.Length
        invariant result == map s: Slot | s < i && slots[s].state != Normal :: MigrationOf(slots[s])
      {
        if slots[i].state != Normal {
          result := result[i := MigrationOf(slots[i])];
        }
      }
    }

    method GetSlotReplicationState() returns (result: map<Slot, ReplicaSet>)
      requires Valid()
      ensures result == ReplicationOf(View())
    {
      result := map[];
      for i := 0 to slots.Length
        invariant result == map s: Slot | s < i && !Untouched(slots[s]) :: ReplicaSetOf(slots[s])
      {
        if !Untouched(slots[i]) {
          result := result[i := ReplicaSetOf(slots[i])];
        }
      }
    }

    /** The two maps are visited in whatever order the runtime picks. */
    method RestoreFromState(slotMap: seq<NodeId>, migrations: map<Slot, MigrationState>,
                            replicas: map<Slot, ReplicaSet>)
      returns (ghost migrationOrder: seq<Slot>, ghost replicaOrder: seq<Slot>)
      requires Restorable(slotMap, migrations) && slots.Length == SLOT_COUNT
      modifies this, slots
      ensures Valid() && Visits(migrationOrder, migrations) && Visits(replicaOrder, replicas)
      ensures View() == Restore(slotMap, migrations, migrationOrder, replicas, replicaOrder)
    {
      hide RestoreOwners, Step;
      nodeSlots := map[];
      forall i | 0 <= i < SLOT_COUNT {
        slots[i] := FREE;
      }
      RestoreOwnersStart(slotMap, View());
      for i := 0 to SLOT_COUNT
        invariant View() == RestoreOwners(slotMap, i)
      {
        RestoreOwnersStep(slotMap, i);
        var id := slotMap[i];
        if id != "" {
          slots[i] := slots[i].(nodeID := id, primaryID := id);
          nodeSlots := nodeSlots[id := (if id in nodeSlots then nodeSlots[id] else []) + [i]];
        }
      }
      ghost var owners := View();
      replicaOrder := [];
      var keys := replicas.Keys;
      while keys != {}
        invariant keys <= replicas.Keys && forall s: Slot :: s in replicaOrder <==> s in replicas.Keys - keys
        invariant View() == RestoreReplicas(owners, replicaOrder, replicas)
        decreases keys
      {
        var slot :| slot in keys;
        keys := keys - {slot};
        RestoreReplicasSnoc(owners, replicaOrder, slot, replicas);
        replicaOrder := replicaOrder + [slot];
        if slot < SLOT_COUNT {
          var r, info := replicas[slot], slots[slot];
          if r.primaryID != "" {
            SetOwnerLocked(slot, r.primaryID);
          }
          slots[slot] := Merge(info, r);
        }
      }
      ghost var merged := View();
      migrationOrder := [];
      keys := migrations.Keys;
      while keys != {}
        invariant keys <= migrations.Keys && forall s: Slot :: s in migrationOrder <==> s in migrations.Keys - keys
        invariant View() == RestoreMigrations(merged, migrationOrder, migrations)
        decreases keys
      {
        var slot :| slot in keys;
        keys := keys - {slot};
        RestoreMigrationsSnoc(merged, migrationOrder, slot, migrations);
        migrationOrder := migrationOrder + [slot];
        slots[slot] := Resume(slots[slot], migrations[slot]);
      }
      RestoreGood(slotMap, migrations, migrationOrder, replicas, replicaOrder);
    }
  }

  ghost function OwnedBelow(t: Table, n: NodeId, bound: nat): set<Slot>
    requires Sized(t) && bound <= SLOT_COUNT
  {
    set s: Slot | s < bound && t.slots[s].nodeID == n
  }

  lemma OwnedBelowStep(t: Table, n: NodeId, s: nat)
    requires Sized(t) && s < SLOT_COUNT
    ensures |OwnedBelow(t, n, s + 1)| == |OwnedBelow(t, n, s)| + if t.slots[s].nodeID == n then 1 else 0
  {
    var added := if t.slots[s].nodeID == n then {s} else {};
    assert OwnedBelow(t, n, s + 1) == OwnedBelow(t, n, s) + added;
  }

  lemma {:induction false} LengthOfDistinct(l: seq<Slot>, s: set<Slot>)
    requires NoDuplicates(l) && forall x: Slot :: x in l <==> x in s
    ensures |l| == |s|
  {
    if l != [] {
      assert forall x: Slot :: x in l <==> x == l[0] || x in l[1..];
      LengthOfDistinct(l[1..], s - {l[0]});
    } else {
      assert s == {};
    }
  }

  lemma OwnedCount(t: Table, n: NodeId)
    requires Good(t) && n != ""
    ensures |Owned(t, n)| == |OwnedBelow(t, n, SLOT_COUNT)|
  {
    assert Indexed(t, n);
    LengthOfDistinct(Owned(t, n), OwnedBelow(t, n, SLOT_COUNT));
  }

  lemma AdvanceStep(rs: seq<Replica>, i: nat, n: NodeId, lsn: nat)
    requires i < |rs|
    ensures rs[i].nodeID == n ==> rs[..i] + Advance(rs[i..], n, lsn) == rs[i := Raised(rs[i], lsn)]
    ensures rs[i].nodeID != n ==> rs[..i] + Advance(rs[i..], n, lsn) == rs[..i + 1] + Advance(rs[i + 1..], n, lsn)
  {
    assert rs[i..][1..] == rs[i + 1..];
  }

  lemma {:induction false} RemoveFirstAt(l: seq<Slot>, i: nat, slot: Slot)
    requires i < |l| && l[i] == slot && slot !in l[..i]
    ensures RemoveFirst(l, slot) == l[..i] + l[i + 1..]
    decreases i
  {
    if i > 0 {
      assert l[..i] == [l[0]] + l[1..][..i - 1];
      RemoveFirstAt(l[1..], i - 1, slot);
      assert l[1..][i..] == l[i + 1..];
    }
  }

  lemma WithoutStep(rs: seq<Replica>, i: nat, n: NodeId)
    requires i < |rs|
    ensures Without(rs[i..], n) == (if rs[i].nodeID == n then [] else [rs[i]]) + Without(rs[i + 1..], n)
  {
    assert rs[i..][1..] == rs[i + 1..];
  }

  lemma WithoutNothing(n: NodeId)
    ensures Without([], n) == []
  {
  }

  lemma AdvanceNothing(n: NodeId, lsn: nat)
    ensures Advance([], n, lsn) == []
  {
  }

  lemma HasReplicaPrefix(rs: seq<Replica>, i: nat, n: NodeId)
    requires i <= |rs| && HasReplica(rs[..i], n)
    ensures HasReplica(rs, n)
  {
    var j :| 0 <= j < i && rs[..i][j].nodeID == n;
    assert rs[j].nodeID == n;
  }

  lemma NoReplica(n: NodeId)
    ensures !HasReplica([], n)
  {
  }

  lemma HasReplicaSnoc(rs: seq<Replica>, r: Replica, n: NodeId)
    ensures HasReplica(rs + [r], n) <==> HasReplica(rs, n) || r.nodeID == n
    ensures HasReplica(rs, n) && r.nodeID != n ==> LastNamed(rs + [r], n) == LastNamed(rs, n)
    ensures r.nodeID == n ==> LastNamed(rs + [r], n) == r
  {
    if HasReplica(rs, n) {
      var i :| 0 <= i < |rs| && rs[i].nodeID == n;
      assert (rs + [r])[i].nodeID == n;
    }
    assert (rs + [r])[|rs|] == r && (rs + [r])[..|rs|] == rs;
  }

  lemma RestoreOwnersStart(slotMap: seq<NodeId>, t: Table)
    requires |slotMap| == SLOT_COUNT && Sized(t) && t.nodeSlots == map[]
    requires forall s | 0 <= s < SLOT_COUNT :: t.slots[s] == FREE
    ensures t == RestoreOwners(slotMap, 0)
  {
  }

  lemma RestoreOwnersStep(slotMap: seq<NodeId>, i: nat)
    requires i < |slotMap| == SLOT_COUNT
    ensures var t, id := RestoreOwners(slotMap, i), slotMap[i];
            RestoreOwners(slotMap, i + 1) ==
            if id == "" then t else AppendSlot(WithInfo(t, i, t.slots[i].(nodeID := id, primaryID := id)), id, i)
  {
  }

  lemma {:induction false} RestoreReplicasSnoc(t: Table, order: seq<Slot>, slot: Slot, replicas: map<Slot, ReplicaSet>)
    requires Sized(t) && slot in replicas && forall s | s in order :: s in replicas
    ensures RestoreReplicas(t, order + [slot], replicas) ==
            RestoreReplica(RestoreReplicas(t, order, replicas), slot, replicas[slot])
    decreases |order|
  {
    if order == [] {
      var first := RestoreReplica(t, slot, replicas[slot]);
      assert RestoreReplicas(t, [slot], replicas) == RestoreReplicas(first, [], replicas);
    } else {
      assert (order + [slot])[1..] == order[1..] + [slot];
      RestoreReplicasSnoc(RestoreReplica(t, order[0], replicas[order[0]]), order[1..], slot, replicas);
    }
  }

  lemma {:induction false} RestoreMigrationsSnoc(t: Table, order: seq<Slot>, slot: Slot,
                                                 migrations: map<Slot, MigrationState>)
    requires Sized(t) && slot in migrations && slot < SLOT_COUNT
    requires forall s | s in order :: s in migrations && s < SLOT_COUNT
    ensures var t' := RestoreMigrations(t, order, migrations);
            RestoreMigrations(t, order + [slot], migrations) ==
            WithInfo(t', slot, Resume(t'.slots[slot], migrations[slot]))
    decreases |order|
  {
    if order == [] {
      assert order + [slot] == [slot];
    } else {
      assert order[0] in order && (order + [slot])[1..] == order[1..] + [slot];
      assert forall r | r in order[1..] :: r in order;
      var resumed := Resume(t.slots[order[0]], migrations[order[0]]);
      RestoreMigrationsSnoc(WithInfo(t, order[0], resumed), order[1..], slot, migrations);
    }
  }
}
