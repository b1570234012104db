/**
 * The live move of one slot between two nodes: the controller's commands, the MIGRATE command the
 * source carries out key by key, and client writes, interleaved in any way and failing at any point.
 */
module SlotMove {
  import opened SlotModel
  import opened Routing

  type Key = string
  type Val = string

  /** A node's view of the slot and the slot's keys it holds. */
  datatype Node = Node(info: SlotInfo, data: map<Key, Val>)

  /** Where the controller is; Move carries the rest of the current batch of keys. */
  datatype Phase =
    | SendImporting | SendMigrating | SplitAddress | ListKeys | Move(batch: seq<Key>)
    | SendNodeTarget | SendNodeSource | Done
    | UndoSource | UndoTarget(sourceUndone: bool) | Failed(rolledBack: bool) | Abandoned

  /** A MIGRATE on the source: waiting to be carried out, or in progress with the value read and perhaps delivered. */
  datatype Migration =
    | Idle
    | Pending(key: Key)
    | Sending(key: Key, value: Val, attempt: nat)
    | Delivered(key: Key, value: Val)

  predicate InProgress(m: Migration) { m.Sending? || m.Delivered? }

  /** The logical map is what clients have been told: the last acknowledged write of every key. */
  datatype System = System(source: Node, target: Node, phase: Phase, migration: Migration, logical: map<Key, Val>)

  datatype Ids = Ids(source: NodeId, target: NodeId)

  /** A command is carried out, lost on its way, or carried out with its reply lost. */
  datatype Outcome = Acknowledged | Lost | ReplyLost

  datatype Side = OnSource | OnTarget

  datatype Event =
    | Command(outcome: Outcome)
    | Listed(keys: seq<Key>)
    | ListFailed
    | BeginMigrate
    | MigrateLost
    | MigrateDelayed
    | Restore(outcome: Outcome, retry: bool)
    | FinishMigrate(replyLost: bool)
    | ControllerTimeout
    | ClientWrite(side: Side, key: Key, value: Val)
    | ClientDelete(side: Side, key: Key)

  const MAX_RETRIES := 3
  const BATCH := 100

  function TakesEffect(o: Outcome): bool { o != Lost }

  /** The slot transition a command makes on a node, unless it is lost. */
  function Sent(n: Node, info: SlotInfo, o: Outcome): Node {
    if TakesEffect(o) then n.(info := info) else n
  }

  /** A reply to CLUSTER GETKEYSINSLOT: some keys the source holds, none only if it holds none. */
  predicate Lists(n: Node, keys: seq<Key>) {
    |keys| <= BATCH && (forall k | k in keys :: k in n.data) && (keys == [] ==> n.data == map[])
  }

  function NextAfter(batch: seq<Key>): Phase {
    if batch == [] then ListKeys else Move(batch)
  }

  /** The controller's failure path only starts from where it waits for the command. */
  function FailIfWaiting(p: Phase): Phase {
    if p.Move? then UndoSource else p
  }

  function Control(ids: Ids, s: System, o: Outcome): System {
    var ok := o == Acknowledged;
    match s.phase
    case SendImporting =>
      s.(target := Sent(s.target, Imported(s.target.info, ids.source), o),
         phase := if ok then SendMigrating else Abandoned)
    case SendMigrating =>
      s.(source := Sent(s.source, Exported(s.source.info, ids.target), o),
         phase := if ok then SplitAddress else UndoSource)
    case SplitAddress => s.(phase := if ok then ListKeys else Abandoned)
    case SendNodeTarget =>
      s.(target := Sent(s.target, Finished(s.target.info, ids.target), o),
         phase := if ok then SendNodeSource else UndoSource)
    case SendNodeSource =>
      s.(source := Sent(s.source, Finished(s.source.info, ids.target), o),
         phase := if ok then Done else UndoSource)
    case UndoSource =>
      s.(source := Sent(s.source, Stabilised(s.source.info), o), phase := UndoTarget(ok))
    case UndoTarget(sourceUndone) =>
      s.(target := Sent(s.target, Stabilised(s.target.info), o), phase := Failed(sourceUndone && ok))
    case _ => s
  }

  function Client(n: Node, self: NodeId, logical: map<Key, Val>, write: bool, k: Key, v: Val): (Node, map<Key, Val>) {
    if !Serves(n.info, self) then (n, logical)
    else if write then (n.(data := n.data[k := v]), logical[k := v])
    else (n.(data := n.data - {k}), logical - {k})
  }

  function ClientOn(ids: Ids, s: System, side: Side, write: bool, k: Key, v: Val): System {
    if side == OnSource then
      var (n, l) := Client(s.source, ids.source, s.logical, write, k, v);
      s.(source := n, logical := l)
    else
      var (n, l) := Client(s.target, ids.target, s.logical, write, k, v);
      s.(target := n, logical := l)
  }

  /** One event; an event that cannot happen where the system is changes nothing. */
  function Step(ids: Ids, s: System, e: Event): System {
    match e
    case Command(o) => Control(ids, s, o)
    case Listed(keys) =>
      if s.phase == ListKeys && Lists(s.source, keys)
      then s.(phase := if keys == [] then SendNodeTarget else Move(keys)) else s
    case ListFailed => if s.phase == ListKeys then s.(phase := UndoSource) else s
    case BeginMigrate =>
      if s.migration.Pending? then
        var k := s.migration.key;
        s.(migration := if k in s.source.data then Sending(k, s.source.data[k], 0) else Idle)
      else if s.phase.Move? && s.phase.batch != [] && s.migration == Idle then
        var k := s.phase.batch[0];
        if k in s.source.data then s.(migration := Sending(k, s.source.data[k], 0)) else s.(phase := UndoSource)
      else s
    case MigrateLost => if s.phase.Move? && s.migration == Idle then s.(phase := UndoSource) else s
    case MigrateDelayed =>
      if s.phase.Move? && s.phase.batch != [] && s.migration == Idle
      then s.(phase := UndoSource, migration := Pending(s.phase.batch[0])) else s
    case Restore(o, retry) =>
      if !s.migration.Sending? then s
      else
        var k, v, attempt := s.migration.key, s.migration.value, s.migration.attempt;
        var target := if TakesEffect(o) then s.target.(data := s.target.data[k := v]) else s.target;
        if o == Acknowledged then s.(target := target, migration := Delivered(k, v))
        else if retry && attempt < MAX_RETRIES then s.(target := target, migration := Sending(k, v, attempt + 1))
        else s.(target := target, migration := Idle, phase := FailIfWaiting(s.phase))
    case FinishMigrate(replyLost) =>
      if !s.migration.Delivered? then s
      else
        var source := s.source.(data := s.source.data - {s.migration.key});
        s.(source := source, migration := Idle,
           phase := if !s.phase.Move? || s.phase.batch == [] then s.phase
                    else if replyLost then UndoSource else NextAfter(s.phase.batch[1..]))
    case ControllerTimeout => if s.phase.Move? && s.migration != Idle then s.(phase := UndoSource) else s
    case ClientWrite(side, k, v) => ClientOn(ids, s, side, true, k, v)
    case ClientDelete(side, k) => ClientOn(ids, s, side, false, k, "")
  }

  function Run(ids: Ids, s: System, events: seq<Event>): System
    decreases |events|
  {
    if events == [] then s else Run(ids, Step(ids, s, events[0]), events[1..])
  }

  // ---------------------------------------------------------------------------
  // Safety

  /** Both tables name the source, nothing is in progress; the target may hold leftovers of its own. */
  predicate Start(ids: Ids, s: System) {
    && ids.source != "" && ids.target != "" && ids.source != ids.target
    && OwnedBy(s.source.info, ids.source) && s.source.info.state == Normal
    && OwnedBy(s.target.info, ids.source) && s.target.info.state == Normal
    && s.phase == SendImporting && s.migration == Idle && s.logical == s.source.data
  }

  predicate OwnedBy(info: SlotInfo, n: NodeId) {
    info.nodeID == n && info.primaryID == n
  }

  predicate Maps(m: map<Key, Val>, k: Key, v: Val) { k in m && m[k] == v }

  predicate Holds(source: map<Key, Val>, target: map<Key, Val>, k: Key, v: Val) {
    Maps(source, k, v) || Maps(target, k, v)
  }

  /** Every key clients know of is on the source or on the target with its value. */
  predicate NothingLost(s: System) {
    forall k | k in s.logical :: Holds(s.source.data, s.target.data, k, s.logical[k])
  }

  /** The keys whose acknowledged value neither node holds. */
  function LostKeys(s: System): set<Key> {
    set k | k in s.logical && !Holds(s.source.data, s.target.data, k, s.logical[k])
  }

  /** The phases in which the source exports the slot. */
  predicate ExportingPhase(p: Phase) {
    p == SplitAddress || p == ListKeys || p.Move? || p == SendNodeTarget || p == SendNodeSource
  }

  /** The phases up to the target's SETSLOT NODE. */
  predicate BeforeHandover(p: Phase) {
    p == SendImporting || p == SendMigrating || p == SplitAddress || p == ListKeys || p.Move? || p == SendNodeTarget
  }

  predicate Exports(ids: Ids, n: Node) {
    OwnedBy(n.info, ids.source) && n.info.state == Exporting && n.info.exporting == ids.target
  }

  predicate Settled(info: SlotInfo) {
    info.state == Normal && info.importing == "" && info.exporting == ""
  }

  /** The lost keys are exactly these. */
  predicate Loses(logical: map<Key, Val>, source: map<Key, Val>, target: map<Key, Val>, lost: set<Key>) {
    && (forall k | k in logical && k !in lost :: Holds(source, target, k, logical[k]))
    && forall k | k in lost :: k in logical && !Holds(source, target, k, logical[k])
  }

  /** The source's data is current, and what it gave away is on the target, but for the lost keys. */
  predicate SourceIsCurrent(logical: map<Key, Val>, source: map<Key, Val>, target: map<Key, Val>, lost: set<Key>) {
    && (forall k | k in source :: Maps(logical, k, source[k]))
    && (forall k | k in logical && k !in source && k !in lost :: Maps(target, k, logical[k]))
    && forall k | k in lost :: k !in source
  }

  /** The phases of and after a rollback. */
  predicate RollingBack(p: Phase) {
    p == UndoSource || p.UndoTarget? || p.Failed?
  }

  /** A MIGRATE that goes on although the controller no longer waits for it. */
  predicate Straggling(s: System) {
    InProgress(s.migration) && !s.phase.Move?
  }

  predicate MigrationOk(ids: Ids, s: System) {
    && (s.migration != Idle ==> s.target.info.nodeID == ids.source && (s.phase.Move? || RollingBack(s.phase)))
    && (s.migration.Pending? ==> RollingBack(s.phase))
    && (InProgress(s.migration) ==>
          && (s.phase.Move? ==> s.phase.batch != [] && Maps(s.source.data, s.migration.key, s.migration.value))
          && (s.migration.key in s.logical ==> s.migration.key in s.source.data))
    && (s.migration.Delivered? ==> Maps(s.target.data, s.migration.key, s.migration.value))
  }

  predicate Inv(ids: Ids, s: System, lost: set<Key>) {
    && ids.source != "" && ids.target != "" && ids.source != ids.target
    && (OwnedBy(s.source.info, ids.source) || OwnedBy(s.source.info, ids.target))
    && (OwnedBy(s.target.info, ids.source) || OwnedBy(s.target.info, ids.target))
    && (ExportingPhase(s.phase) ==> Exports(ids, s.source))
    && (s.phase == SendNodeTarget || s.phase == SendNodeSource || s.phase == Done ==> s.source.data == map[])
    && (BeforeHandover(s.phase) ==> s.target.info.nodeID == ids.source)
    && (s.phase == SendNodeSource ==> s.target.info == Finished(s.target.info, ids.target))
    && (s.phase == Done ==>
          s.source.info == Finished(s.source.info, ids.target) && s.target.info == Finished(s.target.info, ids.target))
    && (s.source.info.nodeID == ids.target ==> s.target.info.nodeID == ids.target)
    && (s.phase == UndoTarget(true) || s.phase == Failed(true) ==> Settled(s.source.info))
    && (s.phase == Failed(true) ==> Settled(s.target.info))
    && (s.target.info.nodeID == ids.source ==> SourceIsCurrent(s.logical, s.source.data, s.target.data, lost))
    && (lost != {} ==> s.target.info.nodeID == ids.source && RollingBack(s.phase) && s.migration == Idle)
    && Loses(s.logical, s.source.data, s.target.data, lost)
    && MigrationOk(ids, s)
  }

  /** The straggler deletes a key that was written after it had read it. */
  predicate Overtaken(s: System, e: Event) {
    && e.FinishMigrate? && s.migration.Delivered?
    && s.migration.key in s.logical && s.logical[s.migration.key] != s.migration.value
  }

  /** A client command on the source that is carried out. */
  predicate ServedOnSource(ids: Ids, s: System, e: Event) {
    (e.ClientWrite? || e.ClientDelete?) && e.side == OnSource && Serves(s.source.info, ids.source)
  }

  /** What an event makes of the lost keys: an overtaken straggler loses one, its next write or deletion ends that. */
  function LostAfter(ids: Ids, s: System, e: Event, lost: set<Key>): set<Key> {
    if Overtaken(s, e) then lost + {s.migration.key}
    else if ServedOnSource(ids, s, e) then lost - {e.key}
    else lost
  }

  function LostBy(ids: Ids, s: System, events: seq<Event>, lost: set<Key>): set<Key>
    decreases |events|
  {
    if events == [] then lost else LostBy(ids, Step(ids, s, events[0]), events[1..], LostAfter(ids, s, events[0], lost))
  }

  lemma ForwardKeepsInv(ids: Ids, s: System, o: Outcome, lost: set<Key>)
    requires Inv(ids, s, lost) && BeforeHandover(s.phase)
    ensures Inv(ids, Control(ids, s, o), lost)
  {
    hide Loses, SourceIsCurrent;
  }

  lemma ControlKeepsInv(ids: Ids, s: System, o: Outcome, lost: set<Key>)
    requires Inv(ids, s, lost)
    ensures Inv(ids, Control(ids, s, o), lost)
  {
    hide Loses, SourceIsCurrent;
    if BeforeHandover(s.phase) {
      ForwardKeepsInv(ids, s, o, lost);
    }
  }

  lemma WriteKeepsLoses(logical: map<Key, Val>, a: map<Key, Val>, b: map<Key, Val>, lost: set<Key>, k: Key, v: Val)
    requires Loses(logical, a, b, lost)
    ensures Loses(logical[k := v], a[k := v], b, lost - {k}) && Loses(logical - {k}, a - {k}, b, lost - {k})
    ensures lost == {} ==> Loses(logical[k := v], a, b[k := v], lost) && Loses(logical - {k}, a, b - {k}, lost)
    ensures SourceIsCurrent(logical, a, b, lost) ==>
              && SourceIsCurrent(logical[k := v], a[k := v], b, lost - {k})
              && SourceIsCurrent(logical - {k}, a - {k}, b, lost - {k})
  {
  }

  lemma ClientKeepsInv(ids: Ids, s: System, side: Side, write: bool, k: Key, v: Val, lost: set<Key>)
    requires Inv(ids, s, lost)
    ensures Inv(ids, ClientOn(ids, s, side, write, k, v),
                if side == OnSource && Serves(s.source.info, ids.source) then lost - {k} else lost)
  {
    hide Loses, SourceIsCurrent;
    WriteKeepsLoses(s.logical, s.source.data, s.target.data, lost, k, v);
  }

  lemma DeliveryKeepsLoses(logical: map<Key, Val>, a: map<Key, Val>, b: map<Key, Val>, k: Key, v: Val)
    requires SourceIsCurrent(logical, a, b, {}) && (k in logical ==> k in a)
    ensures SourceIsCurrent(logical, a, b[k := v], {}) && Loses(logical, a, b[k := v], {})
    ensures Maps(b, k, v) ==>
              var lost := if k in logical && logical[k] != v then {k} else {};
              SourceIsCurrent(logical, a - {k}, b, lost) && Loses(logical, a - {k}, b, lost)
  {
  }

  /** The controller's progress through the key loop, and its giving up. */
  lemma LoopKeepsInv(ids: Ids, s: System, e: Event, lost: set<Key>)
    requires Inv(ids, s, lost)
    requires !e.Command? && !e.ClientWrite? && !e.ClientDelete? && !e.Restore? && !e.FinishMigrate?
    ensures Inv(ids, Step(ids, s, e), lost)
  {
    hide Loses, SourceIsCurrent;
  }

  lemma RestoreKeepsInv(ids: Ids, s: System, o: Outcome, retry: bool, lost: set<Key>)
    requires Inv(ids, s, lost)
    ensures Inv(ids, Step(ids, s, Restore(o, retry)), lost)
  {
    hide Loses, SourceIsCurrent;
    if InProgress(s.migration) {
      DeliveryKeepsLoses(s.logical, s.source.data, s.target.data, s.migration.key, s.migration.value);
    }
  }

  lemma FinishKeepsInv(ids: Ids, s: System, replyLost: bool, lost: set<Key>)
    requires Inv(ids, s, lost)
    ensures Inv(ids, Step(ids, s, FinishMigrate(replyLost)), LostAfter(ids, s, FinishMigrate(replyLost), lost))
  {
    assert s.phase.Move? && InProgress(s.migration) ==> Maps(s.logical, s.migration.key, s.migration.value);
    hide Loses, SourceIsCurrent;
    if InProgress(s.migration) {
      DeliveryKeepsLoses(s.logical, s.source.data, s.target.data, s.migration.key, s.migration.value);
    }
  }

  lemma StepKeepsInv(ids: Ids, s: System, e: Event, lost: set<Key>)
    requires Inv(ids, s, lost)
    ensures Inv(ids, Step(ids, s, e), LostAfter(ids, s, e, lost))
  {
    hide Inv, Control, ClientOn;
    match e
    case Command(o) => ControlKeepsInv(ids, s, o, lost);
    case ClientWrite(side, k, v) => ClientKeepsInv(ids, s, side, true, k, v, lost);
    case ClientDelete(side, k) => ClientKeepsInv(ids, s, side, false, k, "", lost);
    case Restore(o, retry) => RestoreKeepsInv(ids, s, o, retry, lost);
    case FinishMigrate(replyLost) => FinishKeepsInv(ids, s, replyLost, lost);
    case _ => LoopKeepsInv(ids, s, e, lost);
  }

  lemma {:induction false} RunKeepsInv(ids: Ids, s: System, events: seq<Event>, lost: set<Key>)
    requires Inv(ids, s, lost)
    ensures Inv(ids, Run(ids, s, events), LostBy(ids, s, events, lost))
    decreases |events|
  {
    hide Inv, Step, LostAfter;
    if events != [] {
      StepKeepsInv(ids, s, events[0], lost);
      RunKeepsInv(ids, Step(ids, s, events[0]), events[1..], LostAfter(ids, s, events[0], lost));
    }
  }

  /**
   * After every run of commands, failures, retries, timeouts and client writes, the keys lost are exactly
   * those an overtaken straggler has deleted and no client has written or deleted since. Once the move is
   * done, nothing is lost, the source holds no key and both tables name the target, in state Normal.
   */
  lemma MoveLosesExactly(ids: Ids, s: System, events: seq<Event>)
    requires Start(ids, s)
    ensures var s' := Run(ids, s, events);
            && LostKeys(s') == LostBy(ids, s, events, {})
            && (NothingLost(s') <==> LostBy(ids, s, events, {}) == {})
            && (s'.phase == Done ==>
                  && NothingLost(s') && s'.source.data == map[]
                  && OwnedBy(s'.source.info, ids.target) && Settled(s'.source.info)
                  && OwnedBy(s'.target.info, ids.target) && Settled(s'.target.info)
                  && forall k | k in s'.logical :: Maps(s'.target.data, k, s'.logical[k]))
  {
    RunKeepsInv(ids, s, events, {});
    LosesExactly(Run(ids, s, events), LostBy(ids, s, events, {}));
  }

  lemma LosesExactly(s: System, lost: set<Key>)
    requires Loses(s.logical, s.source.data, s.target.data, lost)
    ensures LostKeys(s) == lost && (NothingLost(s) <==> lost == {})
  {
    if k :| k in lost {
      assert !Holds(s.source.data, s.target.data, k, s.logical[k]);
    }
  }

  lemma StartInv(ids: Ids, s: System)
    requires Start(ids, s)
    ensures Inv(ids, s, {}) && UpToDate(s)
  {
  }

  /** A straggler's own key is not written while it straggles. */
  predicate Quiet(ids: Ids, s: System, events: seq<Event>)
    decreases |events|
  {
    events != [] ==>
      && !(Straggling(s) && events[0].ClientWrite? && events[0].side == OnSource && events[0].key == s.migration.key)
      && Quiet(ids, Step(ids, s, events[0]), events[1..])
  }

  /** What a MIGRATE has read is still what clients know. */
  predicate UpToDate(s: System) {
    InProgress(s.migration) && s.migration.key in s.logical ==> s.logical[s.migration.key] == s.migration.value
  }

  lemma QuietStep(ids: Ids, s: System, e: Event)
    requires Inv(ids, s, {}) && UpToDate(s)
    requires !(Straggling(s) && e.ClientWrite? && e.side == OnSource && e.key == s.migration.key)
    ensures UpToDate(Step(ids, s, e)) && LostAfter(ids, s, e, {}) == {}
  {
    hide Loses;
  }

  lemma {:induction false} QuietRunLosesNothing(ids: Ids, s: System, events: seq<Event>)
    requires Inv(ids, s, {}) && UpToDate(s) && Quiet(ids, s, events)
    ensures LostBy(ids, s, events, {}) == {}
    decreases |events|
  {
    hide Inv, Step, LostAfter, UpToDate;
    if events != [] {
      QuietStep(ids, s, events[0]);
      StepKeepsInv(ids, s, events[0], {});
      QuietRunLosesNothing(ids, Step(ids, s, events[0]), events[1..]);
    }
  }

  /** A slot move loses no key in any run, timeouts included, in which no straggler's key is written meanwhile. */
  lemma MoveLosesNothing(ids: Ids, s: System, events: seq<Event>)
    requires Start(ids, s) && Quiet(ids, s, events)
    ensures NothingLost(Run(ids, s, events))
  {
    QuietRunLosesNothing(ids, s, events);
    MoveLosesExactly(ids, s, events);
  }

  /** When a delivered MIGRATE deletes its key, nothing is lost iff the key is gone or unchanged for clients. */
  lemma FinishLosesIff(ids: Ids, s: System, replyLost: bool)
    requires Inv(ids, s, {}) && s.migration.Delivered?
    ensures NothingLost(Step(ids, s, FinishMigrate(replyLost))) <==>
              (s.migration.key in s.logical ==> s.logical[s.migration.key] == s.migration.value)
  {
    var e := FinishMigrate(replyLost);
    StepKeepsInv(ids, s, e, {});
    LosesExactly(Step(ids, s, e), LostAfter(ids, s, e, {}));
  }

  // ---------------------------------------------------------------------------
  // Rollback

  /** Whether the target's SETSLOT NODE takes effect in a run. */
  predicate HandsOver(ids: Ids, s: System, events: seq<Event>)
    decreases |events|
  {
    events != [] &&
    ((s.phase == SendNodeTarget && events[0].Command? && TakesEffect(events[0].outcome))
     || HandsOver(ids, Step(ids, s, events[0]), events[1..]))
  }

  lemma StepOwner(ids: Ids, s: System, e: Event, lost: set<Key>)
    requires Inv(ids, s, lost)
    ensures Step(ids, s, e).target.info.nodeID ==
            if s.phase == SendNodeTarget && e.Command? && TakesEffect(e.outcome) then ids.target
            else s.target.info.nodeID
  {
    hide Loses, SourceIsCurrent;
  }

  lemma {:induction false} OwnerFollowsHandover(ids: Ids, s: System, events: seq<Event>, lost: set<Key>)
    requires Inv(ids, s, lost)
    ensures Run(ids, s, events).target.info.nodeID ==
            if HandsOver(ids, s, events) then ids.target else s.target.info.nodeID
    decreases |events|
  {
    hide Step, Inv, LostAfter;
    if events != [] {
      StepKeepsInv(ids, s, events[0], lost);
      StepOwner(ids, s, events[0], lost);
      OwnerFollowsHandover(ids, Step(ids, s, events[0]), events[1..], LostAfter(ids, s, events[0], lost));
    }
  }

  /**
   * A rollback whose commands are acknowledged settles both tables and gives the slot back if and only if the
   * target was never made its owner; then the source is current but for what an overtaken straggler deleted.
   */
  lemma RollbackRestoresIff(ids: Ids, s: System, events: seq<Event>)
    requires Start(ids, s) && Run(ids, s, events).phase == Failed(true)
    ensures var s' := Run(ids, s, events);
            && Settled(s'.source.info) && Settled(s'.target.info)
            && (!HandsOver(ids, s, events) <==>
                  OwnedBy(s'.source.info, ids.source) && OwnedBy(s'.target.info, ids.source))
            && (!HandsOver(ids, s, events) ==>
                  SourceIsCurrent(s'.logical, s'.source.data, s'.target.data, LostBy(ids, s, events, {})))
  {
    hide Loses, SourceIsCurrent;
    StartInv(ids, s);
    RunKeepsInv(ids, s, events, {});
    OwnerFollowsHandover(ids, s, events, {});
  }

  // ---------------------------------------------------------------------------
  // Both nodes serving the slot

  /** Whether the source's SETSLOT NODE, or its SETSLOT STABLE, takes effect in a run. */
  predicate SourceTold(ids: Ids, s: System, events: seq<Event>, phase: Phase)
    decreases |events|
  {
    events != [] &&
    ((s.phase == phase && events[0].Command? && TakesEffect(events[0].outcome))
     || SourceTold(ids, Step(ids, s, events[0]), events[1..], phase))
  }

  predicate BothServe(ids: Ids, s: System) {
    Serves(s.source.info, ids.source) && Serves(s.target.info, ids.target)
  }

  /** The owners in the tables, and whether the source has been stabilised, against what took effect so far. */
  predicate Told(ids: Ids, s: System, handed: bool, released: bool, stabilised: bool) {
    && (handed <==> s.target.info.nodeID == ids.target) && s.target.info.state != Exporting
    && (released <==> s.source.info.nodeID == ids.target)
    && (stabilised ==> s.phase.UndoTarget? || s.phase.Failed?)
    && (s.phase == SendNodeTarget ==> !handed && !released)
    && (s.phase == SendNodeSource ==> handed && !released)
    && (s.phase == Done ==> released)
    && (handed ==> s.phase == SendNodeSource || s.phase == Done || RollingBack(s.phase))
    && (handed && !released ==> (Redirects(s.source.info) <==> !stabilised))
  }

  lemma StepKeepsTold(ids: Ids, s: System, e: Event, lost: set<Key>, handed: bool, released: bool, stabilised: bool)
    requires Inv(ids, s, lost) && Told(ids, s, handed, released, stabilised)
    ensures var effective := e.Command? && TakesEffect(e.outcome);
            Told(ids, Step(ids, s, e), handed || (s.phase == SendNodeTarget && effective),
                 released || (s.phase == SendNodeSource && effective),
                 stabilised || (s.phase == UndoSource && effective))
  {
    hide Loses, SourceIsCurrent, MigrationOk;
  }

  lemma {:induction false} RunKeepsTold(ids: Ids, s: System, events: seq<Event>, lost: set<Key>,
                                        handed: bool, released: bool, stabilised: bool)
    requires Inv(ids, s, lost) && Told(ids, s, handed, released, stabilised)
    ensures Told(ids, Run(ids, s, events), handed || HandsOver(ids, s, events),
                 released || SourceTold(ids, s, events, SendNodeSource),
                 stabilised || SourceTold(ids, s, events, UndoSource))
    decreases |events|
  {
    hide Inv, Step, LostAfter, Told;
    if events != [] {
      var e := events[0];
      var effective := e.Command? && TakesEffect(e.outcome);
      StepKeepsInv(ids, s, e, lost);
      StepKeepsTold(ids, s, e, lost, handed, released, stabilised);
      RunKeepsTold(ids, Step(ids, s, e), events[1..], LostAfter(ids, s, e, lost),
                   handed || (s.phase == SendNodeTarget && effective),
                   released || (s.phase == SendNodeSource && effective),
                   stabilised || (s.phase == UndoSource && effective));
    }
  }

  /**
   * Both nodes serve the slot exactly when the target has been made its owner while the source, never told so,
   * has been told that the slot is stable.
   */
  lemma BothServeIff(ids: Ids, s: System, events: seq<Event>)
    requires Start(ids, s)
    ensures BothServe(ids, Run(ids, s, events)) <==>
              && HandsOver(ids, s, events)
              && !SourceTold(ids, s, events, SendNodeSource) && SourceTold(ids, s, events, UndoSource)
  {
    StartInv(ids, s);
    RunKeepsInv(ids, s, events, {});
    RunKeepsTold(ids, s, events, {}, false, false, false);
    hide Loses, SourceIsCurrent, MigrationOk;
  }

  /** A lost reply to the handover is enough: the acknowledged rollback that follows leaves both nodes serving. */
  lemma RollbackSplitsTheSlot(ids: Ids, s: System)
    requires Start(ids, s) && s.source.data == map[]
    ensures var ack := Command(Acknowledged);
            var s1 := Run(ids, s, [ack, ack, ack, Listed([])]);
            var s2 := Run(ids, s1, [Command(ReplyLost), ack, ack]);
            s2.phase == Failed(true) && BothServe(ids, s2)
  {
    var ack := Command(Acknowledged);
    RunFour(ids, s, ack, ack, ack, Listed([]));
    RunThree(ids, Run(ids, s, [ack, ack, ack, Listed([])]), Command(ReplyLost), ack, ack);
  }

  function Snoc(ids: Ids, s: System, e: Event, f: Event): System {
    Step(ids, Step(ids, s, e), f)
  }

  /** Keys moved before a failure stay on the target although the rollback gives the slot back to the source. */
  lemma RollbackLeavesMovedKeys(ids: Ids, s: System, a: Key, b: Key)
    requires Start(ids, s) && a in s.source.data && b in s.source.data && a != b
    ensures var ack := Command(Acknowledged);
            var s1 := Run(ids, s, [ack, ack, ack, Listed([a, b])]);
            var s2 := Run(ids, s1, [BeginMigrate, Restore(Acknowledged, false), FinishMigrate(false)]);
            var s3 := Run(ids, s2, [MigrateLost, ack, ack]);
            && s3.phase == Failed(true) && OwnedBy(s3.source.info, ids.source) && OwnedBy(s3.target.info, ids.source)
            && a in s3.logical && a !in s3.source.data && a in s3.target.data
  {
    var ack := Command(Acknowledged);
    MoveBegins(ids, s, [a, b]);
    var s1 := Run(ids, s, [ack, ack, ack, Listed([a, b])]);
    RunThree(ids, s1, BeginMigrate, Restore(Acknowledged, false), FinishMigrate(false));
    var s2 := Run(ids, s1, [BeginMigrate, Restore(Acknowledged, false), FinishMigrate(false)]);
    assert [a, b][1..] == [b] && s2.phase == Move([b]) && s2.migration == Idle;
    RunThree(ids, s2, MigrateLost, ack, ack);
  }

  lemma RunThree(ids: Ids, s: System, a: Event, b: Event, c: Event)
    ensures Run(ids, s, [a, b, c]) == Step(ids, Snoc(ids, s, a, b), c)
  {
    hide Step;
    var s2 := Snoc(ids, s, a, b);
    assert Run(ids, s2, [c]) == Run(ids, Step(ids, s2, c), []);
    assert [a, b, c][1..] == [b, c] && [b, c][1..] == [c];
    assert Run(ids, Step(ids, s, a), [b, c]) == Run(ids, s2, [c]);
  }

  lemma RunFour(ids: Ids, s: System, a: Event, b: Event, c: Event, d: Event)
    ensures Run(ids, s, [a, b, c, d]) == Step(ids, Step(ids, Snoc(ids, s, a, b), c), d)
  {
    hide Step;
    assert [a, b, c, d][1..] == [b, c, d];
    RunThree(ids, Step(ids, s, a), b, c, d);
  }

  /**
   * A MIGRATE that goes on after the controller has given up and rolled back deletes what clients have
   * written in the meantime: a write the source acknowledged is on neither node.
   */
  lemma StragglerLosesWrite(ids: Ids, s: System, a: Key, v: Val)
    requires Start(ids, s) && a in s.source.data && v != s.source.data[a]
    ensures var ack := Command(Acknowledged);
            var s1 := Run(ids, s, [ack, ack, ack, Listed([a])]);
            var s2 := Run(ids, s1, [BeginMigrate, Restore(Acknowledged, false), ControllerTimeout]);
            var s3 := Run(ids, s2, [ack, ack, ClientWrite(OnSource, a, v)]);
            var s4 := Step(ids, s3, FinishMigrate(false));
            Maps(s3.source.data, a, v) && Maps(s4.logical, a, v) && !NothingLost(s4)
  {
    var ack := Command(Acknowledged);
    var s1 := Run(ids, s, [ack, ack, ack, Listed([a])]);
    MoveBegins(ids, s, [a]);
    var s2 := Run(ids, s1, [BeginMigrate, Restore(Acknowledged, false), ControllerTimeout]);
    TimeoutWhileDelivered(ids, s1, a);
    WriteAfterRollback(ids, s2, a, v);
  }

  /** After the opening commands and a listing, the source exports, the target imports and the keys are up. */
  lemma MoveBegins(ids: Ids, s: System, keys: seq<Key>)
    requires Start(ids, s) && keys != [] && Lists(s.source, keys)
    ensures var ack := Command(Acknowledged);
            Run(ids, s, [ack, ack, ack, Listed(keys)]) ==
            System(s.source.(info := Exported(s.source.info, ids.target)),
                   s.target.(info := Imported(s.target.info, ids.source)), Move(keys), Idle, s.logical)
  {
    var ack := Command(Acknowledged);
    RunFour(ids, s, ack, ack, ack, Listed(keys));
  }

  lemma TimeoutWhileDelivered(ids: Ids, s: System, a: Key)
    requires s.phase == Move([a]) && s.migration == Idle && a in s.source.data
    ensures var value := s.source.data[a];
            Run(ids, s, [BeginMigrate, Restore(Acknowledged, false), ControllerTimeout]) ==
            s.(target := s.target.(data := s.target.data[a := value]), phase := UndoSource,
               migration := Delivered(a, value))
  {
    RunThree(ids, s, BeginMigrate, Restore(Acknowledged, false), ControllerTimeout);
  }

  lemma WriteAfterRollback(ids: Ids, s: System, a: Key, v: Val)
    requires ids.source != "" && s.phase == UndoSource && OwnedBy(s.source.info, ids.source)
    requires s.migration.Delivered? && s.migration.key == a && v != s.migration.value
    requires Maps(s.target.data, a, s.migration.value)
    ensures var ack := Command(Acknowledged);
            var s3 := Run(ids, s, [ack, ack, ClientWrite(OnSource, a, v)]);
            var s4 := Step(ids, s3, FinishMigrate(false));
            Maps(s3.source.data, a, v) && Maps(s4.logical, a, v) && !NothingLost(s4)
  {
    var ack := Command(Acknowledged);
    RunThree(ids, s, ack, ack, ClientWrite(OnSource, a, v));
  }

  // ---------------------------------------------------------------------------
  // The key loop ends, and the target ends up with exactly the slot's keys

  predicate Draining(p: Phase) { p == ListKeys || p.Move? }

  function Completes(s: System, e: Event): nat {
    if e.FinishMigrate? && s.migration.Delivered? then 1 else 0
  }

  /** How many keys a run moves while it stays in the key loop. */
  function Moved(ids: Ids, s: System, events: seq<Event>): nat
    decreases |events|
  {
    if events == [] || !Draining(s.phase) then 0
    else Completes(s, events[0]) + Moved(ids, Step(ids, s, events[0]), events[1..])
  }

  /** Each MIGRATE that completes takes one key off the source; nothing in the loop adds one. */
  lemma DrainShrinks(ids: Ids, s: System, e: Event, lost: set<Key>)
    requires Inv(ids, s, lost) && Draining(s.phase)
    ensures |Step(ids, s, e).source.data| + Completes(s, e) == |s.source.data|
  {
    assert ids.source != "" && ids.target != "";
    assert Exports(ids, s.source) && (s.migration.Delivered? ==> s.migration.key in s.source.data);
    hide Inv, Loses, SourceIsCurrent, Lists;
    if e.FinishMigrate? {
      if s.migration.Delivered? {
        var k := s.migration.key;
        assert (s.source.data - {k}).Keys == s.source.data.Keys - {k};
      }
    } else {
      ExportKeepsSource(ids, s, e);
    }
  }

  /** While the source exports, only a finished MIGRATE changes its data. */
  lemma ExportKeepsSource(ids: Ids, s: System, e: Event)
    requires Exports(ids, s.source) && ids.source != "" && ids.target != "" && !e.FinishMigrate?
    ensures Step(ids, s, e).source.data == s.source.data
  {
    hide Lists;
  }

  /** The loop moves no more keys than the source holds: their number bounds its iterations. */
  lemma {:induction false} DrainBounded(ids: Ids, s: System, events: seq<Event>, lost: set<Key>)
    requires Inv(ids, s, lost) && Draining(s.phase)
    ensures Moved(ids, s, events) <= |s.source.data|
    decreases |events|
  {
    hide Inv, Step, Completes, LostAfter;
    if events != [] {
      StepKeepsInv(ids, s, events[0], lost);
      DrainShrinks(ids, s, events[0], lost);
      var s' := Step(ids, s, events[0]);
      if Draining(s'.phase) {
        DrainBounded(ids, s', events[1..], LostAfter(ids, s, events[0], lost));
      }
    }
  }

  predicate Forward(p: Phase) {
    BeforeHandover(p) || p == SendNodeSource || p == Done
  }

  /** Until the move fails, the target holds only keys of clients and its own leftovers. */
  predicate NoExtras(s: System, leftovers: set<Key>) {
    && (s.phase == SendImporting || s.phase == SendMigrating ==> s.target.data.Keys <= leftovers)
    && (Forward(s.phase) ==> s.target.data.Keys <= s.logical.Keys + leftovers)
  }

  lemma ControlKeepsNoExtras(ids: Ids, s: System, o: Outcome, leftovers: set<Key>)
    requires NoExtras(s, leftovers)
    ensures NoExtras(Control(ids, s, o), leftovers)
  {
  }

  lemma ClientKeepsNoExtras(ids: Ids, s: System, side: Side, write: bool, k: Key, v: Val,
                            leftovers: set<Key>, lost: set<Key>)
    requires Inv(ids, s, lost) && NoExtras(s, leftovers)
    ensures NoExtras(ClientOn(ids, s, side, write, k, v), leftovers)
  {
    hide Loses, SourceIsCurrent, MigrationOk;
  }

  lemma MigrateKeepsNoExtras(ids: Ids, s: System, e: Event, leftovers: set<Key>, lost: set<Key>)
    requires Inv(ids, s, lost) && NoExtras(s, leftovers) && !e.Command? && !e.ClientWrite? && !e.ClientDelete?
    ensures NoExtras(Step(ids, s, e), leftovers)
  {
    assert s.phase.Move? && InProgress(s.migration) ==> s.migration.key in s.logical;
    assert s.migration != Idle ==> s.phase.Move? || RollingBack(s.phase);
    hide Inv, Lists;
  }

  lemma StepKeepsNoExtras(ids: Ids, s: System, e: Event, leftovers: set<Key>, lost: set<Key>)
    requires Inv(ids, s, lost) && NoExtras(s, leftovers)
    ensures NoExtras(Step(ids, s, e), leftovers)
  {
    hide Inv, Control, ClientOn, NoExtras;
    match e
    case Command(o) => ControlKeepsNoExtras(ids, s, o, leftovers);
    case ClientWrite(side, k, v) => ClientKeepsNoExtras(ids, s, side, true, k, v, leftovers, lost);
    case ClientDelete(side, k) => ClientKeepsNoExtras(ids, s, side, false, k, "", leftovers, lost);
    case _ => MigrateKeepsNoExtras(ids, s, e, leftovers, lost);
  }

  lemma {:induction false} RunKeepsNoExtras(ids: Ids, s: System, events: seq<Event>,
                                            leftovers: set<Key>, lost: set<Key>)
    requires Inv(ids, s, lost) && NoExtras(s, leftovers)
    ensures NoExtras(Run(ids, s, events), leftovers)
    decreases |events|
  {
    hide Inv, Step, NoExtras, LostAfter;
    if events != [] {
      StepKeepsInv(ids, s, events[0], lost);
      StepKeepsNoExtras(ids, s, events[0], leftovers, lost);
      RunKeepsNoExtras(ids, Step(ids, s, events[0]), events[1..], leftovers, LostAfter(ids, s, events[0], lost));
    }
  }

  /** A completed move to a target without leftovers leaves it with exactly what clients have written. */
  lemma MoveIsExact(ids: Ids, s: System, events: seq<Event>)
    requires Start(ids, s) && s.target.data == map[]
    requires Run(ids, s, events).phase == Done
    ensures Run(ids, s, events).target.data == Run(ids, s, events).logical
  {
    MoveLosesExactly(ids, s, events);
    StartInv(ids, s);
    RunKeepsNoExtras(ids, s, events, {}, {});
    var s' := Run(ids, s, events);
    assert forall k | k in s'.logical :: Maps(s'.target.data, k, s'.logical[k]);
    assert s'.target.data.Keys == s'.logical.Keys;
  }

  // ---------------------------------------------------------------------------
  // A move without failures succeeds

  /** Consecutive listings of the slot's keys on the source: each key once, at most a batch at a time. */
  predicate Batches(data: map<Key, Val>, batches: seq<seq<Key>>)
    decreases |batches|
  {
    if batches == [] then data == map[]
    else
      && 0 < |batches[0]| <= BATCH && Distinct(batches[0]) && (forall k | k in batches[0] :: k in data)
      && Batches(data - Keys(batches[0]), batches[1..])
  }

  function Keys(batch: seq<Key>): set<Key> { set k | k in batch }

  predicate Distinct(batch: seq<Key>) {
    forall i, j | 0 <= i < j < |batch| :: batch[i] != batch[j]
  }

  /** What the target holds after it has been given some keys of the source. */
  function Given(source: map<Key, Val>, target: map<Key, Val>, keys: set<Key>): map<Key, Val> {
    target + (source - (source.Keys - keys))
  }

  /** A MIGRATE without a failure. */
  const MOVE_KEY := [BeginMigrate, Restore(Acknowledged, false), FinishMigrate(false)]

  function MoveKeys(n: nat): seq<Event> {
    if n == 0 then [] else MOVE_KEY + MoveKeys(n - 1)
  }

  function MoveBatches(batches: seq<seq<Key>>): seq<Event>
    decreases |batches|
  {
    if batches == [] then [Listed([])] else [Listed(batches[0])] + MoveKeys(|batches[0]|) + MoveBatches(batches[1..])
  }

  /** A whole move in which every command is acknowledged. */
  function FullMove(batches: seq<seq<Key>>): seq<Event> {
    var ack := Command(Acknowledged);
    [ack, ack, ack] + MoveBatches(batches) + [ack, ack]
  }

  lemma {:induction false} RunConcat(ids: Ids, s: System, a: seq<Event>, b: seq<Event>)
    ensures Run(ids, s, a + b) == Run(ids, Run(ids, s, a), b)
    decreases |a|
  {
    hide Step;
    if a == [] {
      assert a + b == b;
    } else {
      assert (a + b)[1..] == a[1..] + b;
      RunConcat(ids, Step(ids, s, a[0]), a[1..], b);
    }
  }

  lemma RunOne(ids: Ids, s: System, e: Event)
    ensures Run(ids, s, [e]) == Step(ids, s, e)
  {
    hide Step;
    assert Run(ids, s, [e]) == Run(ids, Step(ids, s, e), []);
  }

  lemma MoveOneKey(ids: Ids, s: System)
    requires s.phase.Move? && s.phase.batch != [] && s.migration == Idle && s.phase.batch[0] in s.source.data
    ensures var k := s.phase.batch[0];
            Run(ids, s, MOVE_KEY) ==
            s.(source := s.source.(data := s.source.data - {k}),
               target := s.target.(data := s.target.data[k := s.source.data[k]]),
               phase := NextAfter(s.phase.batch[1..]))
  {
    RunThree(ids, s, BeginMigrate, Restore(Acknowledged, false), FinishMigrate(false));
  }

  lemma GivenOne(source: map<Key, Val>, target: map<Key, Val>, k: Key, keys: set<Key>)
    requires k in source && k !in keys
    ensures (source - {k}) - keys == source - (keys + {k})
    ensures Given(source - {k}, target[k := source[k]], keys) == Given(source, target, keys + {k})
  {
    var a, b := Given(source - {k}, target[k := source[k]], keys), Given(source, target, keys + {k});
    forall x ensures (x in a <==> x in b) && (x in a ==> a[x] == b[x]) {
    }
  }

  lemma GivenAll(source: map<Key, Val>, target: map<Key, Val>, keys: set<Key>)
    ensures Given(source, target, keys) + (source - keys) == target + source
    ensures Given(source, target, {}) == target && source - {} == source
  {
    var a, b := Given(source, target, keys) + (source - keys), target + source;
    forall x ensures (x in a <==> x in b) && (x in a ==> a[x] == b[x]) {
    }
  }

  lemma FirstKey(batch: seq<Key>)
    requires batch != [] && Distinct(batch)
    ensures Keys(batch) == Keys(batch[1..]) + {batch[0]} && batch[0] !in Keys(batch[1..])
  {
    assert forall k :: k in batch <==> k == batch[0] || k in batch[1..];
  }

  lemma {:induction false} MoveBatchKeys(ids: Ids, s: System, batch: seq<Key>)
    requires s.phase == NextAfter(batch) && s.migration == Idle
    requires Distinct(batch) && forall k | k in batch :: k in s.source.data
    ensures Run(ids, s, MoveKeys(|batch|)) ==
            s.(source := s.source.(data := s.source.data - Keys(batch)),
               target := s.target.(data := Given(s.source.data, s.target.data, Keys(batch))), phase := ListKeys)
    decreases |batch|
  {
    hide Run, Step, Given;
    if batch == [] {
      NothingRun(ids, s);
      GivenAll(s.source.data, s.target.data, {});
      assert Keys(batch) == {};
    } else {
      MoveOneKey(ids, s);
      FirstKey(batch);
      GivenOne(s.source.data, s.target.data, batch[0], Keys(batch[1..]));
      assert forall k | k in batch[1..] :: k in s.source.data && k != batch[0];
      MoveBatchKeys(ids, Run(ids, s, MOVE_KEY), batch[1..]);
      RunConcat(ids, s, MOVE_KEY, MoveKeys(|batch| - 1));
    }
  }

  lemma NothingRun(ids: Ids, s: System)
    ensures Run(ids, s, []) == s
  {
  }

  lemma ListBatch(ids: Ids, s: System, batch: seq<Key>)
    requires s.phase == ListKeys && Lists(s.source, batch)
    ensures Run(ids, s, [Listed(batch)]) == s.(phase := if batch == [] then SendNodeTarget else Move(batch))
  {
    RunOne(ids, s, Listed(batch));
  }

  lemma {:induction false} MoveAllBatches(ids: Ids, s: System, batches: seq<seq<Key>>)
    requires s.phase == ListKeys && s.migration == Idle && Batches(s.source.data, batches)
    ensures Run(ids, s, MoveBatches(batches)) ==
            s.(source := s.source.(data := map[]), target := s.target.(data := s.target.data + s.source.data),
               phase := SendNodeTarget)
    decreases |batches|
  {
    hide Run, Step, Given, MoveKeys;
    if batches == [] {
      ListBatch(ids, s, []);
      assert s.target.data + map[] == s.target.data;
    } else {
      var batch := batches[0];
      ListBatch(ids, s, batch);
      var s1 := s.(phase := Move(batch));
      MoveBatchKeys(ids, s1, batch);
      var s2 := Run(ids, s1, MoveKeys(|batch|));
      MoveAllBatches(ids, s2, batches[1..]);
      GivenAll(s.source.data, s.target.data, Keys(batch));
      RunConcat(ids, s1, MoveKeys(|batch|), MoveBatches(batches[1..]));
      RunConcat(ids, s, [Listed(batch)], MoveKeys(|batch|) + MoveBatches(batches[1..]));
      assert MoveBatches(batches) == [Listed(batch)] + (MoveKeys(|batch|) + MoveBatches(batches[1..]));
    }
  }

  /**
   * From every start, however the slot's keys are listed, a move whose commands are all acknowledged is done: the
   * target owns the slot and holds what the source held, over its own leftovers, and the source holds nothing.
   */
  lemma MoveSucceeds(ids: Ids, s: System, batches: seq<seq<Key>>)
    requires Start(ids, s) && Batches(s.source.data, batches)
    ensures Run(ids, s, FullMove(batches)) ==
            System(Node(Finished(s.source.info, ids.target), map[]),
                   Node(Finished(s.target.info, ids.target), s.target.data + s.source.data), Done, Idle, s.logical)
  {
    var ack := Command(Acknowledged);
    hide Run, Step, Exported, Imported, Finished;
    Opens(ids, s);
    var s1 := Run(ids, s, [ack, ack, ack]);
    MoveAllBatches(ids, s1, batches);
    var s2 := Run(ids, s1, MoveBatches(batches));
    Closes(ids, s2);
    RunConcat(ids, s, [ack, ack, ack], MoveBatches(batches));
    RunConcat(ids, s, [ack, ack, ack] + MoveBatches(batches), [ack, ack]);
    FinishedOnly(s.source.info, s.target.info, ids);
  }

  lemma Opens(ids: Ids, s: System)
    requires s.phase == SendImporting
    ensures var ack := Command(Acknowledged);
            Run(ids, s, [ack, ack, ack]) ==
            s.(source := s.source.(info := Exported(s.source.info, ids.target)),
               target := s.target.(info := Imported(s.target.info, ids.source)), phase := ListKeys)
  {
    var ack := Command(Acknowledged);
    RunThree(ids, s, ack, ack, ack);
  }

  lemma Closes(ids: Ids, s: System)
    requires s.phase == SendNodeTarget
    ensures var ack := Command(Acknowledged);
            Run(ids, s, [ack, ack]) ==
            s.(source := s.source.(info := Finished(s.source.info, ids.target)),
               target := s.target.(info := Finished(s.target.info, ids.target)), phase := Done)
  {
    var ack := Command(Acknowledged);
    RunConcat(ids, s, [ack], [ack]);
    RunOne(ids, s, ack);
    RunOne(ids, Step(ids, s, ack), ack);
  }

  /** Finishing leaves no trace of exporting and importing. */
  lemma FinishedOnly(source: SlotInfo, target: SlotInfo, ids: Ids)
    ensures Finished(Exported(source, ids.target), ids.target) == Finished(source, ids.target)
    ensures Finished(Imported(target, ids.source), ids.target) == Finished(target, ids.target)
  {
  }

  /** Every source's keys can be listed so, one by one for instance. */
  lemma {:induction false} SomeBatches(data: map<Key, Val>) returns (batches: seq<seq<Key>>)
    ensures Batches(data, batches)
    decreases data.Keys
  {
    if data == map[] {
      batches := [];
    } else {
      var k :| k in data;
      assert (data - Keys([k])).Keys == data.Keys - {k};
      var rest := SomeBatches(data - Keys([k]));
      batches := [[k]] + rest;
    }
  }

  // ---------------------------------------------------------------------------
  // How a move ends

  /** What decides the end of a move: its last command, a failure it does not roll back, or one it does. */
  datatype Turn = Concludes | GivesUp | Fails

  predicate Turns(s: System, e: Event, t: Turn) {
    match t
    case Concludes => s.phase == SendNodeSource && e == Command(Acknowledged)
    case GivesUp => (s.phase == SendImporting || s.phase == SplitAddress) && e.Command? && e.outcome != Acknowledged
    case Fails =>
      if s.phase.Move? then MigrateFails(s, e)
      else if s.phase == ListKeys then e.ListFailed?
      else (s.phase == SendMigrating || s.phase == SendNodeTarget || s.phase == SendNodeSource)
           && e.Command? && e.outcome != Acknowledged
  }

  /** A MIGRATE the controller waits for fails: it is lost, late, out of retries, or finds no key. */
  predicate MigrateFails(s: System, e: Event) {
    match e
    case MigrateLost => s.migration == Idle
    case MigrateDelayed => s.migration == Idle
    case ControllerTimeout => s.migration != Idle
    case BeginMigrate =>
      s.migration == Idle && s.phase.Move? && s.phase.batch != [] && s.phase.batch[0] !in s.source.data
    case Restore(o, retry) =>
      s.migration.Sending? && o != Acknowledged && !(retry && s.migration.attempt < MAX_RETRIES)
    case FinishMigrate(replyLost) => s.migration.Delivered? && replyLost
    case _ => false
  }

  predicate Ever(ids: Ids, s: System, events: seq<Event>, t: Turn)
    decreases |events|
  {
    events != [] && (Turns(s, events[0], t) || Ever(ids, Step(ids, s, events[0]), events[1..], t))
  }

  /** The end of a move, against what has decided it so far. */
  predicate Ended(s: System, concluded: bool, gaveUp: bool, failed: bool) {
    && (s.phase == Done <==> concluded) && (s.phase == Abandoned <==> gaveUp) && (RollingBack(s.phase) <==> failed)
    && (s.phase.Move? ==> s.phase.batch != []) && (s.migration.Pending? ==> RollingBack(s.phase))
  }

  lemma StepEnds(ids: Ids, s: System, e: Event, concluded: bool, gaveUp: bool, failed: bool)
    requires Ended(s, concluded, gaveUp, failed)
    ensures Ended(Step(ids, s, e), concluded || Turns(s, e, Concludes), gaveUp || Turns(s, e, GivesUp),
                  failed || Turns(s, e, Fails))
  {
  }

  lemma {:induction false} RunEnds(ids: Ids, s: System, events: seq<Event>, concluded: bool, gaveUp: bool, failed: bool)
    requires Ended(s, concluded, gaveUp, failed)
    ensures Ended(Run(ids, s, events), concluded || Ever(ids, s, events, Concludes),
                  gaveUp || Ever(ids, s, events, GivesUp), failed || Ever(ids, s, events, Fails))
    decreases |events|
  {
    hide Step, Ended, Turns;
    if events != [] {
      var e := events[0];
      StepEnds(ids, s, e, concluded, gaveUp, failed);
      RunEnds(ids, Step(ids, s, e), events[1..], concluded || Turns(s, e, Concludes), gaveUp || Turns(s, e, GivesUp),
              failed || Turns(s, e, Fails));
    }
  }

  /**
   * How any move ends, whatever the interleaving: it is done exactly if the source's SETSLOT NODE was acknowledged,
   * abandoned without a rollback exactly if SETSLOT IMPORTING or the address failed, and rolled back exactly if a
   * later command, a listing or a MIGRATE failed.
   */
  lemma MoveEndsIff(ids: Ids, s: System, events: seq<Event>)
    requires Start(ids, s)
    ensures var phase := Run(ids, s, events).phase;
            && (phase == Done <==> Ever(ids, s, events, Concludes))
            && (phase == Abandoned <==> Ever(ids, s, events, GivesUp))
            && (RollingBack(phase) <==> Ever(ids, s, events, Fails))
  {
    RunEnds(ids, s, events, false, false, false);
  }

  /** A rollback sends both commands whatever becomes of the first, and reports whether both were acknowledged. */
  lemma RollbackReports(ids: Ids, s: System, first: Outcome, second: Outcome)
    requires s.phase == UndoSource
    ensures var s' := Run(ids, s, [Command(first), Command(second)]);
            && s'.phase == Failed(first == Acknowledged && second == Acknowledged)
            && (TakesEffect(first) ==> Settled(s'.source.info)) && (TakesEffect(second) ==> Settled(s'.target.info))
  {
    RunConcat(ids, s, [Command(first)], [Command(second)]);
    RunOne(ids, s, Command(first));
    RunOne(ids, Step(ids, s, Command(first)), Command(second));
  }

  // ---------------------------------------------------------------------------
  // What reaches the target, and how often it is tried

  /** What an event puts on the target: the key of a RESTORE that takes effect. */
  function Delivers(s: System, e: Event): map<Key, Val> {
    if e.Restore? && s.migration.Sending? && e.outcome != Lost then map[s.migration.key := s.migration.value] else map[]
  }

  function DeliveredBy(ids: Ids, s: System, events: seq<Event>): map<Key, Val>
    decreases |events|
  {
    if events == [] then map[] else Delivers(s, events[0]) + DeliveredBy(ids, Step(ids, s, events[0]), events[1..])
  }

  lemma StepDelivers(ids: Ids, s: System, e: Event, lost: set<Key>)
    requires Inv(ids, s, lost) && s.target.info.nodeID == ids.source
    ensures Step(ids, s, e).target.data == s.target.data + Delivers(s, e)
  {
    hide Loses, SourceIsCurrent, MigrationOk, Lists;
    assert s.target.data + map[] == s.target.data;
  }

  /** Until the handover, the target holds its leftovers and, over them, exactly what RESTORE has brought it. */
  lemma {:induction false} TargetGainsExactly(ids: Ids, s: System, events: seq<Event>, lost: set<Key>)
    requires Inv(ids, s, lost) && s.target.info.nodeID == ids.source && !HandsOver(ids, s, events)
    ensures Run(ids, s, events).target.data == s.target.data + DeliveredBy(ids, s, events)
    decreases |events|
  {
    hide Step, Inv, LostAfter, Delivers;
    if events == [] {
      assert s.target.data + map[] == s.target.data;
    } else {
      var e, rest := events[0], events[1..];
      StepDelivers(ids, s, e, lost);
      StepKeepsInv(ids, s, e, lost);
      StepOwner(ids, s, e, lost);
      TargetGainsExactly(ids, Step(ids, s, e), rest, LostAfter(ids, s, e, lost));
      var a, b, c := s.target.data, Delivers(s, e), DeliveredBy(ids, Step(ids, s, e), rest);
      assert (a + b) + c == a + (b + c);
    }
  }

  /** A RESTORE that is lost again and again. */
  function Losses(n: nat): seq<Event> {
    if n == 0 then [] else Losses(n - 1) + [Restore(Lost, true)]
  }

  /** A RESTORE is tried three times more, and then the MIGRATE fails. */
  lemma {:induction false} RetriesExactly(ids: Ids, s: System, n: nat)
    requires s.migration.Sending? && s.migration.attempt == 0
    ensures Run(ids, s, Losses(n)) ==
            if n <= MAX_RETRIES then s.(migration := s.migration.(attempt := n))
            else s.(migration := Idle, phase := FailIfWaiting(s.phase))
  {
    if n > 0 {
      RetriesExactly(ids, s, n - 1);
      var before := Run(ids, s, Losses(n - 1));
      RunConcat(ids, s, Losses(n - 1), [Restore(Lost, true)]);
      RunOne(ids, before, Restore(Lost, true));
    }
  }

  /**
   * A MIGRATE that only begins after the controller has given up and rolled back deletes what clients write while it
   * is under way, just like one that was under way before.
   */
  lemma LateMigrateLosesWrite(ids: Ids, s: System, a: Key, v: Val)
    requires Start(ids, s) && a in s.source.data && v != s.source.data[a]
    ensures var ack := Command(Acknowledged);
            var s1 := Run(ids, s, [ack, ack, ack, Listed([a])]);
            var s2 := Run(ids, s1, [MigrateDelayed, ack, ack]);
            var s3 := Run(ids, s2, [BeginMigrate, Restore(Acknowledged, false), ClientWrite(OnSource, a, v)]);
            var s4 := Step(ids, s3, FinishMigrate(false));
            s2.phase == Failed(true) && Maps(s3.source.data, a, v) && Maps(s4.logical, a, v) && !NothingLost(s4)
  {
    var ack := Command(Acknowledged);
    var s1 := Run(ids, s, [ack, ack, ack, Listed([a])]);
    MoveBegins(ids, s, [a]);
    DelayedThenUndone(ids, s1, a);
    LateWrite(ids, Run(ids, s1, [MigrateDelayed, ack, ack]), a, v);
  }

  lemma DelayedThenUndone(ids: Ids, s: System, a: Key)
    requires s.phase == Move([a]) && s.migration == Idle
    ensures var ack := Command(Acknowledged);
            Run(ids, s, [MigrateDelayed, ack, ack]) ==
            s.(source := s.source.(info := Stabilised(s.source.info)),
               target := s.target.(info := Stabilised(s.target.info)), phase := Failed(true), migration := Pending(a))
  {
    var ack := Command(Acknowledged);
    RunThree(ids, s, MigrateDelayed, ack, ack);
  }

  lemma LateWrite(ids: Ids, s: System, a: Key, v: Val)
    requires s.phase == Failed(true) && s.migration == Pending(a) && Serves(s.source.info, ids.source)
    requires a in s.source.data && v != s.source.data[a]
    ensures var s3 := Run(ids, s, [BeginMigrate, Restore(Acknowledged, false), ClientWrite(OnSource, a, v)]);
            var s4 := Step(ids, s3, FinishMigrate(false));
            Maps(s3.source.data, a, v) && Maps(s4.logical, a, v) && !NothingLost(s4)
  {
    RunThree(ids, s, BeginMigrate, Restore(Acknowledged, false), ClientWrite(OnSource, a, v));
    var s3 := Run(ids, s, [BeginMigrate, Restore(Acknowledged, false), ClientWrite(OnSource, a, v)]);
    var s4 := Step(ids, s3, FinishMigrate(false));
    assert s4.target.data[a] == s.source.data[a] && a !in s4.source.data && s4.logical[a] == v;
    assert !Holds(s4.source.data, s4.target.data, a, s4.logical[a]);
  }
}
