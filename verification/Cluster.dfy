/** Routing of keys and the write gate. */
module Routing {
  import opened Slots
  import opened SlotModel
  import KeySlots

  type Addr = string

  datatype Route = Local(slot: nat) | Moved(slot: nat, addr: Addr) | Ask(slot: nat, addr: Addr) | CrossSlot(slot: nat)

  /** What a node sees: its own id, its slot table, and the addresses of the nodes it knows. */
  datatype View = View(self: NodeId, table: Table, addrs: map<NodeId, Addr>)

  /** The owner answers ASK for a slot it exports. */
  predicate Redirects(info: SlotInfo) {
    info.state == Exporting && info.exporting != ""
  }

  /** ASKING opens an importing slot. */
  predicate Admits(info: SlotInfo, asking: bool) {
    info.state == Importing && info.importing != "" && asking
  }

  function RouteSlot(v: View, slot: nat, asking: bool): Route
    requires slot < |v.table.slots|
  {
    var info := v.table.slots[slot];
    if info.nodeID == "" then Local(slot)
    else if info.nodeID == v.self then
      if Redirects(info) then Ask(slot, if info.exporting in v.addrs then v.addrs[info.exporting] else "")
      else Local(slot)
    else if Admits(info, asking) || info.nodeID !in v.addrs then Local(slot)
    else Moved(slot, v.addrs[info.nodeID])
  }

  /** Whether the write gate lets a node write a slot. */
  predicate Writable(info: SlotInfo, self: NodeId) {
    var primary := if info.primaryID == "" then info.nodeID else info.primaryID;
    primary == "" || primary == self
  }

  function RouteKey(v: View, key: KeySlots.Key, asking: bool): Route
    requires Sized(v.table)
  {
    RouteSlot(v, KeySlots.KeySlot(key), asking)
  }

  /** The write gate. */
  predicate CanAcceptWrite(v: View, slot: nat)
    requires slot < |v.table.slots|
  {
    Writable(v.table.slots[slot], v.self)
  }

  /** A client's write command is carried out where it is local and passes the gate. */
  predicate CarriesOut(v: View, slot: nat, asking: bool)
    requires slot < |v.table.slots|
  {
    RouteSlot(v, slot, asking).Local? && CanAcceptWrite(v, slot)
  }

  /** Client writes are carried out only by an owner that is not exporting the slot; ASKING opens nothing. */
  lemma CarriedOutIff(v: View, slot: nat, asking: bool)
    requires Good(v.table) && slot < SLOT_COUNT
    ensures CarriesOut(v, slot, asking) <==> Serves(v.table.slots[slot], v.self)
  {
    LocalIff(v, slot, asking);
  }

  predicate Serves(info: SlotInfo, self: NodeId) {
    info.nodeID == "" || (info.nodeID == self && !Redirects(info))
  }

  /**
   * Routing against the gate, exactly: a key is local when its slot is writable here and not being
   * exported, and otherwise only through ASKING on an importing slot or when the owner is unknown.
   */
  lemma LocalIff(v: View, slot: nat, asking: bool)
    requires Good(v.table) && slot < SLOT_COUNT
    ensures var info := v.table.slots[slot];
            RouteSlot(v, slot, asking).Local? <==>
              if CanAcceptWrite(v, slot) then info.nodeID == "" || !Redirects(info)
              else Admits(info, asking) || info.nodeID !in v.addrs
  {
    assert v.table.slots[slot].primaryID == v.table.slots[slot].nodeID;
  }

  /** With the owner known and without ASKING the two agree, except on a slot this node exports. */
  lemma RouteAgreesWithGate(v: View, slot: nat)
    requires Good(v.table) && slot < SLOT_COUNT
    requires v.table.slots[slot].nodeID in v.addrs || v.table.slots[slot].nodeID == ""
    ensures RouteSlot(v, slot, false).Local? ==> CanAcceptWrite(v, slot)
    ensures CanAcceptWrite(v, slot) && v.table.slots[slot].state != Exporting ==> RouteSlot(v, slot, false).Local?
  {
    LocalIff(v, slot, false);
  }

  /** An importing node lets an ASKING command through the router and then refuses it as a write. */
  lemma AskingWriteRefused(v: View, slot: nat)
    requires Good(v.table) && slot < SLOT_COUNT
    requires v.table.slots[slot].nodeID != "" && v.table.slots[slot].nodeID != v.self
    ensures RouteSlot(v, slot, true).Local? && v.table.slots[slot].nodeID in v.addrs ==>
              Admits(v.table.slots[slot], true)
    ensures !CanAcceptWrite(v, slot)
  {
    LocalIff(v, slot, true);
  }

  /**
   * Which redirect a node gives, whatever its table says: ASK only for a slot of its own that it exports, with the
   * address of the target if it knows it; MOVED only for a slot of a known other node, with that node's address.
   */
  lemma RedirectKinds(v: View, slot: nat, asking: bool, a: Addr)
    requires slot < |v.table.slots| && v.self != ""
    ensures var info := v.table.slots[slot];
            && (RouteSlot(v, slot, asking) == Ask(slot, a) <==>
                  && info.nodeID == v.self && info.state == Exporting && info.exporting != ""
                  && a == (if info.exporting in v.addrs then v.addrs[info.exporting] else ""))
            && (RouteSlot(v, slot, asking) == Moved(slot, a) <==>
                  && info.nodeID != "" && info.nodeID != v.self && info.nodeID in v.addrs && a == v.addrs[info.nodeID]
                  && !(asking && info.state == Importing && info.importing != ""))
  {
  }

  /** The nodes of a cluster, each with what it sees, and their addresses. */
  datatype Net = Net(views: map<NodeId, View>, addrs: map<NodeId, Addr>)

  /** Every node names the same owner of the slot and knows every address; no two addresses are the same. */
  ghost predicate Agrees(net: Net, slot: nat, owner: NodeId) {
    && slot < SLOT_COUNT && owner != "" && owner in net.views && net.addrs.Keys == net.views.Keys
    && (forall n | n in net.views :: Names(net.views[n], n, slot, owner, net.addrs))
    && forall a, b | a in net.addrs && b in net.addrs :: net.addrs[a] == net.addrs[b] ==> a == b
  }

  predicate Names(v: View, self: NodeId, slot: nat, owner: NodeId, addrs: map<NodeId, Addr>) {
    v.self == self && v.addrs == addrs && slot < |v.table.slots| && v.table.slots[slot].nodeID == owner
  }

  function InfoAt(net: Net, n: NodeId, slot: nat): SlotInfo
    requires n in net.views && slot < |net.views[n].table.slots|
  {
    net.views[n].table.slots[slot]
  }

  /**
   * A client that follows redirects, at most this many: MOVED sends it on without ASKING, ASK with it. It ends at
   * a node that takes the key as its own.
   */
  ghost predicate Reaches(net: Net, slot: nat, at: NodeId, asking: bool, hops: nat, last: NodeId)
    decreases hops
  {
    at in net.views && slot < |net.views[at].table.slots| &&
    match RouteSlot(net.views[at], slot, asking)
    case Local(_) => last == at
    case Moved(_, a) => hops > 0 && exists n :: Listens(net, n, a) && Reaches(net, slot, n, false, hops - 1, last)
    case Ask(_, a) => hops > 0 && exists n :: Listens(net, n, a) && Reaches(net, slot, n, true, hops - 1, last)
    case CrossSlot(_) => false
  }

  predicate Listens(net: Net, n: NodeId, a: Addr) { n in net.addrs && net.addrs[n] == a }

  /** Which node takes a key of the slot: the owner, or the node it exports the slot to. */
  function Server(net: Net, slot: nat, owner: NodeId): NodeId
    requires owner in net.views && slot < |net.views[owner].table.slots|
  {
    if Redirects(InfoAt(net, owner, slot)) then InfoAt(net, owner, slot).exporting else owner
  }

  /** A node that is not the owner sends a client without ASKING to the owner, and nowhere else. */
  lemma SentToOwner(net: Net, slot: nat, owner: NodeId, at: NodeId, asking: bool, hops: nat, last: NodeId)
    requires Agrees(net, slot, owner) && at in net.views && at != owner && !Admits(InfoAt(net, at, slot), asking)
    ensures Reaches(net, slot, at, asking, hops, last) <==> hops > 0 && Reaches(net, slot, owner, false, hops - 1, last)
  {
    assert Names(net.views[at], at, slot, owner, net.addrs);
    assert RouteSlot(net.views[at], slot, asking) == Moved(slot, net.addrs[owner]);
    assert Listens(net, owner, net.addrs[owner]);
  }

  /** The owner takes the client itself, or sends it with ASKING to the node it exports the slot to. */
  lemma SentByOwner(net: Net, slot: nat, owner: NodeId, asking: bool, hops: nat, last: NodeId)
    requires Agrees(net, slot, owner) && Server(net, slot, owner) in net.views
    ensures Reaches(net, slot, owner, asking, hops, last) <==>
              if Redirects(InfoAt(net, owner, slot))
              then hops > 0 && Reaches(net, slot, Server(net, slot, owner), true, hops - 1, last) else last == owner
  {
    assert Names(net.views[owner], owner, slot, owner, net.addrs);
    if Redirects(InfoAt(net, owner, slot)) {
      var target := Server(net, slot, owner);
      assert RouteSlot(net.views[owner], slot, asking) == Ask(slot, net.addrs[target]);
      assert Listens(net, target, net.addrs[target]);
    }
  }

  lemma TakenWhenAsking(net: Net, slot: nat, owner: NodeId, at: NodeId, hops: nat, last: NodeId)
    requires Agrees(net, slot, owner) && at in net.views && at != owner && Admits(InfoAt(net, at, slot), true)
    ensures Reaches(net, slot, at, true, hops, last) <==> last == at
  {
    assert Names(net.views[at], at, slot, owner, net.addrs);
  }

  /** An export whose target does not let ASKING in, or is the owner itself, sends clients round in circles. */
  lemma {:induction false} Circles(net: Net, slot: nat, owner: NodeId, asking: bool, hops: nat, last: NodeId)
    requires Agrees(net, slot, owner) && Server(net, slot, owner) in net.views && Redirects(InfoAt(net, owner, slot))
    requires Server(net, slot, owner) == owner || !Admits(InfoAt(net, Server(net, slot, owner), slot), true)
    ensures !Reaches(net, slot, owner, asking, hops, last)
    decreases hops
  {
    hide Reaches, Redirects, Admits;
    SentByOwner(net, slot, owner, asking, hops, last);
    if hops > 0 {
      if Server(net, slot, owner) == owner {
        Circles(net, slot, owner, true, hops - 1, last);
      } else {
        SentToOwner(net, slot, owner, Server(net, slot, owner), true, hops - 1, last);
        if hops > 1 {
          Circles(net, slot, owner, false, hops - 2, last);
        }
      }
    }
  }

  /**
   * Where redirects lead while every node names the same owner: from any node, and in at most two hops, to the owner,
   * or to the node it exports the slot to if that is another node that lets ASKING in. If it is not, they lead nowhere.
   */
  lemma RedirectsLeadToServer(net: Net, slot: nat, owner: NodeId, at: NodeId, hops: nat, last: NodeId)
    requires Agrees(net, slot, owner) && at in net.views && Server(net, slot, owner) in net.views && hops >= 2
    ensures Reaches(net, slot, at, false, hops, last) <==>
              && last == Server(net, slot, owner)
              && (Redirects(InfoAt(net, owner, slot)) ==> last != owner && Admits(InfoAt(net, last, slot), true))
  {
    hide Reaches, Redirects;
    var server := Server(net, slot, owner);
    SentByOwner(net, slot, owner, false, hops, last);
    SentByOwner(net, slot, owner, false, hops - 1, last);
    if at != owner {
      SentToOwner(net, slot, owner, at, false, hops, last);
    }
    if Redirects(InfoAt(net, owner, slot)) {
      if server != owner && Admits(InfoAt(net, server, slot), true) {
        TakenWhenAsking(net, slot, owner, server, hops - 1, last);
        TakenWhenAsking(net, slot, owner, server, hops - 2, last);
      } else {
        Circles(net, slot, owner, false, hops, last);
        Circles(net, slot, owner, false, hops - 1, last);
      }
    }
  }

  /** During a move, SETSLOT IMPORTING at the target and MIGRATING at the owner lead every client to the target. */
  lemma MovingSlotIsReached(net: Net, slot: nat, owner: NodeId, target: NodeId, at: NodeId,
                            before: SlotInfo, beforeThere: SlotInfo)
    requires Agrees(net, slot, owner) && at in net.views && target in net.views && target != owner && target != ""
    requires InfoAt(net, owner, slot) == Exported(before, target)
    requires InfoAt(net, target, slot) == Imported(beforeThere, owner)
    ensures Reaches(net, slot, at, false, 2, target)
  {
    hide Reaches;
    RedirectsLeadToServer(net, slot, owner, at, 2, target);
  }

  method RouteMulti(v: View, keys: seq<KeySlots.Key>) returns (r: Route)
    requires Sized(v.table)
    ensures keys == [] ==> r == Local(0)
    ensures keys != [] ==>
              if forall i | 0 <= i < |keys| :: KeySlots.KeySlot(keys[i]) == KeySlots.KeySlot(keys[0])
              then r == RouteKey(v, keys[0], false) else r == CrossSlot(KeySlots.KeySlot(keys[0]))
  {
    hide KeySlots.KeySlot;
    if keys == [] {
      return Local(0);
    }
    var first := KeySlots.ComputeKeySlot(keys[0]);
    for i := 1 to |keys|
      invariant forall j | 0 <= j < i :: KeySlots.KeySlot(keys[j]) == first
    {
      var slot := KeySlots.ComputeKeySlot(keys[i]);
      if slot != first {
        return CrossSlot(first);
      }
    }
    return RouteKey(v, keys[0], false);
  }

  /** Keys built around one hash tag are never refused as crossing slots. */
  method RouteTagged(v: View, tag: KeySlots.Key, prefixes: seq<KeySlots.Key>, suffixes: seq<KeySlots.Key>)
    returns (r: Route)
    requires Sized(v.table) && |prefixes| == |suffixes| > 0 && KeySlots.CLOSE !in tag
    requires forall i | 0 <= i < |prefixes| :: KeySlots.OPEN !in prefixes[i]
    ensures !r.CrossSlot? && r == RouteSlot(v, KeySlots.SlotOf(tag), false)
  {
    hide KeySlots.KeySlot, KeySlots.SlotOf;
    var keys := seq(|prefixes|, i requires 0 <= i < |prefixes| =>
      prefixes[i] + [KeySlots.OPEN] + tag + [KeySlots.CLOSE] + suffixes[i]);
    forall i | 0 <= i < |keys|
      ensures KeySlots.KeySlot(keys[i]) == KeySlots.SlotOf(tag)
    {
      KeySlots.TagDecides(prefixes[i], tag, suffixes[i]);
    }
    r := RouteMulti(v, keys);
  }
}

/** Failover: choosing and promoting a replica. */
module Failover {
  import opened Slots
  import opened Options
  import opened SlotModel
  import opened SlotPersistence
  import opened SlotManagers

  /** Runs of table operations, without a restart from saved state. */
  ghost predicate OnlyOps(events: seq<Event>) {
    forall e | e in events :: e.Do? && Possible(e)
  }

  predicate Named(rs: seq<Replica>) {
    forall i | 0 <= i < |rs| :: rs[i].nodeID != ""
  }

  /** A healthy replica no healthy replica is ahead of. */
  predicate IsBest(rs: seq<Replica>, i: nat) {
    i < |rs| && rs[i].healthy && forall j | 0 <= j < |rs| && rs[j].healthy :: rs[j].matchLSN <= rs[i].matchLSN
  }

  predicate SomeHealthy(rs: seq<Replica>) {
    exists i :: 0 <= i < |rs| && rs[i].healthy
  }

  /**
   * The search loop. It never chooses an unhealthy or unnamed replica; among named replicas, which are all there
   * are in a table that operations have filled, it finds the best one if any is healthy.
   */
  method SelectBestReplica(rs: seq<Replica>) returns (best: Option<NodeId>, ghost index: nat)
    ensures best.Some? ==> index < |rs| && rs[index].healthy && best.value == rs[index].nodeID != ""
    ensures Named(rs) ==> (best.Some? <==> SomeHealthy(rs)) && (best.Some? ==> IsBest(rs, index))
    ensures !SomeHealthy(rs) ==> best == None
  {
    var node: NodeId, lsn := "", 0;
    index := 0;
    for i := 0 to |rs|
      invariant node != "" ==> index < i && rs[index].healthy && rs[index].nodeID == node && rs[index].matchLSN == lsn
      invariant Named(rs) && node == "" ==> forall j | 0 <= j < i :: !rs[j].healthy
      invariant Named(rs) && node != "" ==> IsBest(rs[..i], index)
    {
      if rs[i].healthy && (node == "" || rs[i].matchLSN > lsn) {
        node, lsn, index := rs[i].nodeID, rs[i].matchLSN, i;
      }
    }
    assert rs[..|rs|] == rs;
    best := if node == "" then None else Some(node);
  }

  predicate AllNamed(t: Table) {
    forall s | 0 <= s < |t.slots| :: Named(t.slots[s].replicas)
  }

  lemma {:induction false} FreshNamed(ids: seq<NodeId>, primary: NodeId)
    ensures Named(FreshReplicas(ids, primary))
  {
    if ids != [] {
      FreshNamed(ids[1..], primary);
    }
  }

  lemma {:induction false} AdvanceNamed(rs: seq<Replica>, n: NodeId, lsn: nat)
    requires Named(rs)
    ensures Named(Advance(rs, n, lsn))
  {
    if rs != [] && rs[0].nodeID != n {
      AdvanceNamed(rs[1..], n, lsn);
    }
  }

  lemma {:induction false} WithoutNamed(rs: seq<Replica>, n: NodeId)
    requires Named(rs)
    ensures Named(Without(rs, n))
  {
    if rs != [] {
      WithoutNamed(rs[1..], n);
    }
  }

  /** No operation enters a replica without a name. */
  lemma StepKeepsNamed(t: Table, op: Op)
    requires Sized(t) && Callable(op) && AllNamed(t)
    ensures AllNamed(Step(t, op))
  {
    hide FreshReplicas, Advance, Without, HasReplica, LastNamed;
    if op.Configure? {
      FreshNamed(op.replicaIDs, op.node);
    } else if op.UpdateReplicaLSN? && op.slot < SLOT_COUNT {
      AdvanceNamed(t.slots[op.slot].replicas, op.node, op.lsn);
    } else if op.Promote? && op.slot < SLOT_COUNT {
      WithoutNamed(t.slots[op.slot].replicas, op.node);
    }
  }

  /** So every table that operations have filled names its replicas. */
  lemma {:induction false} RunKeepsNamed(t: Table, events: seq<Event>)
    requires Sized(t) && OnlyOps(events) && AllNamed(t)
    ensures AllNamed(Run(t, events))
    decreases |events|
  {
    hide Step, AllNamed;
    if events != [] {
      StepKeepsNamed(t, events[0].op);
      RunKeepsNamed(After(t, events[0]), events[1..]);
    }
  }

  predicate Distinct(info: SlotInfo) {
    (forall i, j | 0 <= i < j < |info.replicas| :: info.replicas[i].nodeID != info.replicas[j].nodeID)
    && !HasReplica(info.replicas, info.primaryID)
  }

  /** Primary and replicas of a slot. */
  function Members(info: SlotInfo): set<NodeId> {
    {info.primaryID} + Ids(info.replicas)
  }

  lemma {:induction false} WithoutDistinct(rs: seq<Replica>, n: NodeId)
    requires forall i, j | 0 <= i < j < |rs| :: rs[i].nodeID != rs[j].nodeID
    ensures forall i, j | 0 <= i < j < |Without(rs, n)| :: Without(rs, n)[i].nodeID != Without(rs, n)[j].nodeID
  {
    if rs != [] {
      var w := Without(rs[1..], n);
      WithoutDistinct(rs[1..], n);
      WithoutIds(rs[1..], n);
      if rs[0].nodeID == n {
        assert Without(rs, n) == w;
      } else {
        assert Without(rs, n) == [rs[0]] + w;
        assert rs[0].nodeID !in Ids(rs[1..]);
        assert forall j | 0 <= j < |w| :: w[j].nodeID in Ids(w);
      }
    }
  }

  lemma LastNamedUnique(rs: seq<Replica>, i: nat)
    requires i < |rs| && forall j, k | 0 <= j < k < |rs| :: rs[j].nodeID != rs[k].nodeID
    ensures HasReplica(rs, rs[i].nodeID) && LastNamed(rs, rs[i].nodeID) == rs[i]
  {
    assert rs[i].nodeID == rs[i].nodeID;
    var r := LastNamed(rs, rs[i].nodeID);
    var j :| 0 <= j < |rs| && rs[j] == r;
  }

  /**
   * What promoting the best replica does to a slot. The members stay the same in any case; that the counter is then
   * at or above every healthy replica needs ids to be distinct, since the last replica with an id is promoted.
   */
  lemma PromotionSafe(info: SlotInfo, i: nat)
    requires info.primaryID == info.nodeID != "" && Named(info.replicas) && IsBest(info.replicas, i)
    ensures HasReplica(info.replicas, info.replicas[i].nodeID)
    ensures var promoted := PromotedInfo(info, info.replicas[i].nodeID);
            && promoted.primaryID == promoted.nodeID == info.replicas[i].nodeID
            && promoted.configEpoch > info.configEpoch
            && Members(promoted) == Members(info) && Named(promoted.replicas)
            && promoted.nextLSN >= info.nextLSN
    ensures Distinct(info) ==>
              var promoted := PromotedInfo(info, info.replicas[i].nodeID);
              && Distinct(promoted)
              && forall j | 0 <= j < |info.replicas| && info.replicas[j].healthy ::
                   promoted.nextLSN >= info.replicas[j].matchLSN
  {
    assert info.replicas[i].nodeID == info.replicas[i].nodeID;
    PromotionKeepsMembers(info, info.replicas[i].nodeID);
    if Distinct(info) {
      PromotionDistinct(info, i);
    }
  }

  lemma PromotionKeepsMembers(info: SlotInfo, n: NodeId)
    requires info.primaryID == info.nodeID != "" && Named(info.replicas) && HasReplica(info.replicas, n)
    ensures Members(PromotedInfo(info, n)) == Members(info) && Named(PromotedInfo(info, n).replicas)
  {
    hide LastNamed;
    var rs := info.replicas;
    WithoutIds(rs, n);
    WithoutNamed(rs, n);
    assert n in Ids(rs);
    IdsOne(Replica(info.primaryID, 0, true));
    IdsConcat(Without(rs, n), [Replica(info.primaryID, 0, true)]);
    hide Ids, Without, HasReplica;
    var promoted := PromotedInfo(info, n);
    if info.primaryID == n {
      assert promoted.replicas == Without(rs, n);
      assert {n} + (Ids(rs) - {n}) == {n} + Ids(rs);
    } else {
      assert promoted.replicas == Without(rs, n) + [Replica(info.primaryID, 0, true)];
      assert {n} + (Ids(rs) - {n} + {info.primaryID}) == {info.primaryID} + Ids(rs);
    }
  }

  lemma PromotionDistinct(info: SlotInfo, i: nat)
    requires info.primaryID == info.nodeID != "" && Named(info.replicas) && Distinct(info) && IsBest(info.replicas, i)
    requires HasReplica(info.replicas, info.replicas[i].nodeID)
    ensures var promoted := PromotedInfo(info, info.replicas[i].nodeID);
            && Distinct(promoted)
            && forall j | 0 <= j < |info.replicas| && info.replicas[j].healthy ::
                 promoted.nextLSN >= info.replicas[j].matchLSN
  {
    var rs, n := info.replicas, info.replicas[i].nodeID;
    LastNamedUnique(rs, i);
    WithoutIds(rs, n);
    WithoutDistinct(rs, n);
    var w := Without(rs, n);
    var all := w + [Replica(info.primaryID, 0, true)];
    assert info.primaryID !in Ids(rs);
    IdsOne(Replica(info.primaryID, 0, true));
    IdsConcat(w, [Replica(info.primaryID, 0, true)]);
    assert n in Ids(rs);
    var promoted := PromotedInfo(info, n);
    assert promoted.replicas == all;
    assert forall j | 0 <= j < |all| :: all[j].nodeID in Ids(all) && all[j].nodeID != n;
    assert forall j | 0 <= j < |w| :: w[j].nodeID in Ids(w);
  }

  /** PromoteBestReplica. */
  method PromoteBestReplica(m: SlotManager, slot: Slot) returns (best: Option<NodeId>, ghost index: nat)
    requires m.Valid()
    modifies m, m.slots
    ensures m.Valid() && (slot >= SLOT_COUNT ==> best == None)
    ensures best.Some? ==>
              var rs := old(m.slots[slot]).replicas;
              index < |rs| && rs[index].healthy && best.value == rs[index].nodeID != ""
    ensures slot < SLOT_COUNT && Named(old(m.slots[slot]).replicas) ==>
              var rs := old(m.slots[slot]).replicas;
              (best.Some? <==> SomeHealthy(rs)) && (best.Some? ==> IsBest(rs, index))
    ensures m.View() == if best.Some? then Step(old(m.View()), Promote(slot, best.value)) else old(m.View())
  {
    index := 0;
    if slot >= SLOT_COUNT {
      return None, 0;
    }
    best, index := SelectBestReplica(m.slots[slot].replicas);
    if best.Some? {
      assert HasReplica(m.slots[slot].replicas, best.value);
      var ok := m.PromoteReplica(slot, best.value);
    }
  }

  // ---------------------------------------------------------------------------
  // LSN order over whole runs

  /** No operation lowers the LSN counter of a slot. */
  lemma NextLSNGrows(t: Table, op: Op, slot: Slot)
    requires Sized(t) && Callable(op) && slot < SLOT_COUNT
    ensures Step(t, op).slots[slot].nextLSN >= t.slots[slot].nextLSN
  {
  }

  lemma {:induction false} NextLSNGrowsOverRuns(t: Table, events: seq<Event>, slot: Slot)
    requires Sized(t) && slot < SLOT_COUNT && OnlyOps(events)
    ensures Run(t, events).slots[slot].nextLSN >= t.slots[slot].nextLSN
    decreases |events|
  {
    hide Step;
    if events != [] {
      NextLSNGrows(t, events[0].op, slot);
      NextLSNGrowsOverRuns(After(t, events[0]), events[1..], slot);
    }
  }

  /**
   * After promoting the best replica of an owned slot and any run of operations, the next LSN
   * allocated exceeds every LSN allocated before the failover and every healthy replica's match LSN.
   */
  lemma AllocatedAfterFailover(t: Table, slot: Slot, i: nat, events: seq<Event>)
    requires Good(t) && slot < SLOT_COUNT && t.slots[slot].nodeID != "" && OnlyOps(events)
    requires Named(t.slots[slot].replicas) && Distinct(t.slots[slot]) && IsBest(t.slots[slot].replicas, i)
    ensures var info := t.slots[slot];
            var t1 := Run(Step(t, Promote(slot, info.replicas[i].nodeID)), events);
            var next := t1.slots[slot].nextLSN + 1;
            next > info.nextLSN
            && forall j | 0 <= j < |info.replicas| && info.replicas[j].healthy :: next > info.replicas[j].matchLSN
  {
    hide Run;
    var info := t.slots[slot];
    PromotionSafe(info, i);
    NextLSNGrowsOverRuns(Step(t, Promote(slot, info.replicas[i].nodeID)), events, slot);
  }
}
