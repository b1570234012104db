/**
 * Reading pastes with a view limit or burn-after-read: any number of readers, each a sequence of single
 * store commands, interleaved in any way with each other and with the creation of the paste.
 */
module PasteReads {
  import opened Options

  /** The access policy; the two kinds of limit exclude each other when a paste is created. */
  datatype Policy = Policy(burn: bool, maxViews: int)

  function NormalizedMaxViews(p: Policy): nat {
    if p.maxViews <= 0 then 0 else p.maxViews
  }

  /** ValidateCreateRequest, as far as the policy goes. */
  predicate Valid(p: Policy) {
    !(p.burn && NormalizedMaxViews(p) > 0)
  }

  /** The keys of one code: metadata hash, view counter, burn claim. */
  datatype Store = Store(paste: bool, views: Option<int>, claimed: bool)

  datatype Creation = Unwritten | MetadataWritten | Complete

  /** Where a call of Get is. */
  datatype Reader =
    | Arrived
    | Found
    | LookedUp(views: Option<int>)
    | Cleared(views: Option<int>)
    | Counted(remaining: int)
    | Returned(remaining: int)
    | Refused

  datatype System = System(store: Store, creation: Creation, readers: seq<Reader>)

  /** One store command of the creator or of a reader; a reader's command may fail, with or without effect. */
  datatype Event = Create | NewReader | Read(i: nat) | ReadFails(i: nat, effect: bool)

  /** The next command of a reader: its effect on the store, and where it leaves the reader. */
  function Next(p: Policy, st: Store, r: Reader): (Store, Reader) {
    match r
    case Arrived => (st, if st.paste then Found else Refused)
    case Found => (st, LookedUp(st.views))
    case LookedUp(v) =>
      if !p.burn then (st, Cleared(v))
      else if st.claimed then (st, Refused)
      else (st.(claimed := true), Cleared(v))
    case Cleared(v) =>
      if v.None? then (st, Counted(0))
      else if v.value <= 0 then (st, Refused)
      else
        var left := (if st.views.Some? then st.views.value else 0) - 1;
        (st.(views := Some(left)), if left < 0 then Refused else Counted(left + 1))
    case Counted(n) => (if p.burn then st.(paste := false, views := None) else st, Returned(n))
    case Returned(n) => (st, r)
    case Refused => (st, r)
  }

  function Step(p: Policy, s: System, e: Event): System {
    match e
    case Create =>
      if s.creation == Unwritten then s.(store := s.store.(paste := true), creation := MetadataWritten)
      else if s.creation == MetadataWritten then
        s.(store := if NormalizedMaxViews(p) > 0 then s.store.(views := Some(NormalizedMaxViews(p))) else s.store,
           creation := Complete)
      else s
    case NewReader => s.(readers := s.readers + [Arrived])
    case Read(i) =>
      if i >= |s.readers| then s
      else
        var (st, r) := Next(p, s.store, s.readers[i]);
        s.(store := st, readers := s.readers[i := r])
    case ReadFails(i, effect) =>
      if i >= |s.readers| || s.readers[i].Returned? then s
      else s.(store := if effect then Next(p, s.store, s.readers[i]).0 else s.store, readers := s.readers[i := Refused])
  }

  function Run(p: Policy, s: System, events: seq<Event>): System
    decreases |events|
  {
    if events == [] then s else Run(p, Step(p, s, events[0]), events[1..])
  }

  const INITIAL := System(Store(false, None, false), Unwritten, [])

  // ---------------------------------------------------------------------------
  // Burn after read

  /** Past the claim. */
  predicate Passed(r: Reader) {
    r.Cleared? || r.Counted? || r.Returned?
  }

  predicate OneClaim(s: System) {
    && (forall i | 0 <= i < |s.readers| && Passed(s.readers[i]) :: s.store.claimed)
    && forall i, j | 0 <= i < j < |s.readers| :: !(Passed(s.readers[i]) && Passed(s.readers[j]))
  }

  lemma StepKeepsOneClaim(p: Policy, s: System, e: Event)
    requires p.burn && OneClaim(s)
    ensures OneClaim(Step(p, s, e))
  {
  }

  lemma {:induction false} RunKeepsOneClaim(p: Policy, s: System, events: seq<Event>)
    requires p.burn && OneClaim(s)
    ensures OneClaim(Run(p, s, events))
    decreases |events|
  {
    hide OneClaim, Step;
    if events != [] {
      StepKeepsOneClaim(p, s, events[0]);
      RunKeepsOneClaim(p, Step(p, s, events[0]), events[1..]);
    }
  }

  /** A burn-after-read paste is returned to at most one reader, whatever the interleaving. */
  lemma BurnReturnsOnce(p: Policy, events: seq<Event>, i: nat, j: nat)
    requires p.burn
    requires var s := Run(p, INITIAL, events);
             i < |s.readers| && j < |s.readers| && s.readers[i].Returned? && s.readers[j].Returned?
    ensures i == j
  {
    RunKeepsOneClaim(p, INITIAL, events);
  }

  /** Readers on their way have found the paste, and one that got it has deleted it. */
  predicate Deletes(s: System) {
    forall i | 0 <= i < |s.readers| ::
      && (s.readers[i].Found? || s.readers[i].LookedUp? || Passed(s.readers[i]) ==> s.creation != Unwritten)
      && (s.readers[i].Returned? ==> !s.store.paste)
  }

  lemma {:induction false} RunKeepsDeletes(p: Policy, s: System, events: seq<Event>)
    requires p.burn && Deletes(s) && (s.creation == Unwritten ==> !s.store.paste)
    ensures Deletes(Run(p, s, events))
    decreases |events|
  {
    if events != [] {
      StepKeepsDeletes(p, s, events[0]);
      hide Deletes, Step;
      RunKeepsDeletes(p, Step(p, s, events[0]), events[1..]);
    }
  }

  lemma StepKeepsDeletes(p: Policy, s: System, e: Event)
    requires p.burn && Deletes(s) && (s.creation == Unwritten ==> !s.store.paste)
    ensures var s' := Step(p, s, e);
            Deletes(s') && (s'.creation == Unwritten ==> !s'.store.paste)
  {
  }

  /** Once a burn-after-read paste has been returned, it is gone. */
  lemma BurnDeletes(p: Policy, events: seq<Event>, i: nat)
    requires p.burn && i < |Run(p, INITIAL, events).readers| && Run(p, INITIAL, events).readers[i].Returned?
    ensures !Run(p, INITIAL, events).store.paste
  {
    RunKeepsDeletes(p, INITIAL, events);
  }

  // ---------------------------------------------------------------------------
  // View limits

  /** The view a reader has counted off, 0 if it saw no counter. */
  function View(r: Reader): int {
    if r.Counted? || r.Returned? then r.remaining else 0
  }

  predicate CountedOff(r: Reader) { View(r) != 0 }

  predicate CounterOk(p: Policy, s: System) {
    && (s.creation != Complete ==> s.store.views == None)
    && (s.creation == Complete ==> s.store.views.Some? && s.store.views.value <= NormalizedMaxViews(p))
    && forall i | 0 <= i < |s.readers| :: ReaderOk(p, s, s.readers[i])
  }

  /** What a reader remembers of the counter, and the view it counted off, are consistent with the counter. */
  predicate ReaderOk(p: Policy, s: System, r: Reader) {
    && ((r.LookedUp? || r.Cleared?) && r.views.Some? ==> s.creation == Complete)
    && (CountedOff(r) ==> s.store.views.Some? && s.store.views.value < View(r) && 1 <= View(r) <= NormalizedMaxViews(p))
  }

  predicate DistinctViews(s: System) {
    forall i, j | 0 <= i < j < |s.readers| && CountedOff(s.readers[i]) && CountedOff(s.readers[j]) ::
      View(s.readers[i]) != View(s.readers[j])
  }

  predicate LimitInv(p: Policy, s: System) {
    CounterOk(p, s) && DistinctViews(s)
  }

  lemma StepKeepsLimitInv(p: Policy, s: System, e: Event)
    requires !p.burn && NormalizedMaxViews(p) > 0 && LimitInv(p, s)
    ensures LimitInv(p, Step(p, s, e))
  {
    var s' := Step(p, s, e);
    forall i | 0 <= i < |s'.readers|
      ensures ReaderOk(p, s', s'.readers[i])
    {
      if i < |s.readers| { assert ReaderOk(p, s, s.readers[i]); }
    }
    forall i, j | 0 <= i < j < |s'.readers| && CountedOff(s'.readers[i]) && CountedOff(s'.readers[j])
      ensures View(s'.readers[i]) != View(s'.readers[j])
    {
      assert ReaderOk(p, s, s.readers[i]) && ReaderOk(p, s, s.readers[j]);
    }
  }

  lemma {:induction false} RunKeepsLimitInv(p: Policy, s: System, events: seq<Event>)
    requires !p.burn && NormalizedMaxViews(p) > 0 && LimitInv(p, s)
    ensures LimitInv(p, Run(p, s, events))
    decreases |events|
  {
    hide LimitInv, Step;
    if events != [] {
      StepKeepsLimitInv(p, s, events[0]);
      RunKeepsLimitInv(p, Step(p, s, events[0]), events[1..]);
    }
  }

  /** The readers that got the paste and counted off a view. */
  ghost function Served(s: System): set<nat> {
    set i: nat | i < |s.readers| && s.readers[i].Returned? && s.readers[i].remaining != 0
  }

  /** The readers that got the paste without counting off a view. */
  ghost function Unmetered(s: System): set<nat> {
    set i: nat | i < |s.readers| && s.readers[i].Returned? && s.readers[i].remaining == 0
  }

  lemma {:induction false} DistinctBounded(ids: set<nat>, f: nat -> int, n: nat)
    requires forall i | i in ids :: 1 <= f(i) <= n
    requires forall i, j | i in ids && j in ids && i != j :: f(i) != f(j)
    ensures |ids| <= n
    decreases n
  {
    if n == 0 {
      assert ids == {};
    } else if i :| i in ids && f(i) == n {
      DistinctBounded(ids - {i}, f, n - 1);
    } else {
      DistinctBounded(ids, f, n - 1);
    }
  }

  /**
   * A paste with N views is returned at most N times to readers that saw its counter, each reporting a
   * different remaining number between 1 and N.
   */
  lemma ViewLimitHolds(p: Policy, events: seq<Event>)
    requires Valid(p) && NormalizedMaxViews(p) > 0
    ensures var s := Run(p, INITIAL, events);
            && |Served(s)| <= NormalizedMaxViews(p)
            && (forall i | i in Served(s) :: 1 <= s.readers[i].remaining <= NormalizedMaxViews(p))
            && forall i, j | i in Served(s) && j in Served(s) && i != j ::
                 s.readers[i].remaining != s.readers[j].remaining
  {
    RunKeepsLimitInv(p, INITIAL, events);
    var s := Run(p, INITIAL, events);
    var f := (i: nat) => if i < |s.readers| then View(s.readers[i]) else 0;
    forall i | i in Served(s)
      ensures 1 <= f(i) <= NormalizedMaxViews(p)
    {
      assert ReaderOk(p, s, s.readers[i]);
    }
    DistinctBounded(Served(s), f, NormalizedMaxViews(p));
  }

  // ---------------------------------------------------------------------------
  // Reading while the paste is being created

  /** A reader that looks for the counter before the creation is complete. */
  predicate LooksEarly(s: System, e: Event) {
    e.Read? && e.i < |s.readers| && s.readers[e.i] == Found && s.creation != Complete
  }

  function EarlyNow(s: System, e: Event): set<nat> { if LooksEarly(s, e) then {e.i} else {} }

  /** The readers of a run that do so. */
  function Early(p: Policy, s: System, events: seq<Event>): set<nat>
    decreases |events|
  {
    if events == [] then {}
    else EarlyNow(s, events[0]) + Early(p, Step(p, s, events[0]), events[1..])
  }

  /** Past the lookup, without having seen a counter. */
  predicate Uncounted(r: Reader) {
    ((r.LookedUp? || r.Cleared?) && r.views.None?) || ((r.Counted? || r.Returned?) && r.remaining == 0)
  }

  /** Exactly the early readers go on without a counter. */
  predicate EarlyOk(s: System, early: set<nat>) {
    forall i: nat | i < |s.readers| ::
      && (s.readers[i].Arrived? || s.readers[i].Found? ==> i !in early)
      && (s.readers[i].LookedUp? || s.readers[i].Cleared? || s.readers[i].Counted? || s.readers[i].Returned? ==>
            (Uncounted(s.readers[i]) <==> i in early))
  }

  predicate NoneBeyond(s: System, early: set<nat>) {
    forall i | i in early :: i < |s.readers|
  }

  lemma StepKeepsEarly(p: Policy, s: System, e: Event, early: set<nat>)
    requires !p.burn && NormalizedMaxViews(p) > 0 && LimitInv(p, s) && EarlyOk(s, early) && NoneBeyond(s, early)
    ensures var early' := early + EarlyNow(s, e);
            EarlyOk(Step(p, s, e), early') && NoneBeyond(Step(p, s, e), early')
  {
    var s' := Step(p, s, e);
    forall i: nat | i < |s.readers| ensures ReaderOk(p, s, s.readers[i]) {
    }
  }

  lemma {:induction false} RunKeepsEarly(p: Policy, s: System, events: seq<Event>, early: set<nat>)
    requires !p.burn && NormalizedMaxViews(p) > 0 && LimitInv(p, s) && EarlyOk(s, early) && NoneBeyond(s, early)
    ensures EarlyOk(Run(p, s, events), early + Early(p, s, events))
    decreases |events|
  {
    hide LimitInv, Step, EarlyOk, NoneBeyond, EarlyNow;
    if events == [] {
      assert early + {} == early;
    } else {
      var now := EarlyNow(s, events[0]);
      StepKeepsLimitInv(p, s, events[0]);
      StepKeepsEarly(p, s, events[0], early);
      RunKeepsEarly(p, Step(p, s, events[0]), events[1..], early + now);
      assert early + now + Early(p, Step(p, s, events[0]), events[1..]) == early + Early(p, s, events);
    }
  }

  /** In every run, a reader that got the paste went uncounted if and only if it looked for the counter too early. */
  lemma UnmeteredIffEarly(p: Policy, events: seq<Event>, i: nat)
    requires Valid(p) && NormalizedMaxViews(p) > 0
    requires i < |Run(p, INITIAL, events).readers| && Run(p, INITIAL, events).readers[i].Returned?
    ensures i in Unmetered(Run(p, INITIAL, events)) <==> i in Early(p, INITIAL, events)
  {
    RunKeepsEarly(p, INITIAL, events, {});
    assert {} + Early(p, INITIAL, events) == Early(p, INITIAL, events);
  }

  /** The readers that got the paste. */
  ghost function Readers(s: System): set<nat> {
    set i: nat | i < |s.readers| && s.readers[i].Returned?
  }

  /**
   * In every run a paste with N views is returned at most N times plus once for every early reader; so at most
   * N times in all if no reader looks for the counter before the creation is complete.
   */
  lemma ReturnsBounded(p: Policy, events: seq<Event>)
    requires Valid(p) && NormalizedMaxViews(p) > 0
    ensures |Readers(Run(p, INITIAL, events))| <= NormalizedMaxViews(p) + |Early(p, INITIAL, events)|
    ensures Early(p, INITIAL, events) == {} ==> |Readers(Run(p, INITIAL, events))| <= NormalizedMaxViews(p)
  {
    var s, early := Run(p, INITIAL, events), Early(p, INITIAL, events);
    ViewLimitHolds(p, events);
    forall i | i in Unmetered(s) ensures i in early {
      UnmeteredIffEarly(p, events, i);
    }
    assert Readers(s) == Served(s) + Unmetered(s);
    SubsetSmaller(Unmetered(s), early);
  }

  lemma SubsetSmaller(a: set<nat>, b: set<nat>)
    requires a <= b
    ensures |a| <= |b|
  {
    assert b == a + (b - a);
  }

  /** Reader i executes its next n commands. */
  function Reads(p: Policy, s: System, i: nat, n: nat): System
    decreases n
  {
    if n == 0 then s else Reads(p, Step(p, s, Read(i)), i, n - 1)
  }

  lemma EarlyReaderState(p: Policy)
    requires !p.burn && NormalizedMaxViews(p) > 0
    ensures Reads(p, Step(p, Step(p, INITIAL, Create), NewReader), 0, 5) ==
            System(Store(true, None, false), MetadataWritten, [Returned(0)])
  {
    var s := Step(p, Step(p, INITIAL, Create), NewReader);
    assert Reads(p, s, 0, 2) == s.(readers := [LookedUp(None)]);
    assert Reads(p, s, 0, 4) == s.(readers := [Counted(0)]);
  }

  /** A reader between the two commands of the creation gets the paste without a view being counted off. */
  lemma EarlyReaderEscapes(p: Policy)
    requires !p.burn && NormalizedMaxViews(p) > 0
    ensures var s := Reads(p, Step(p, Step(p, INITIAL, Create), NewReader), 0, 5);
            s.creation == MetadataWritten && Unmetered(s) == {0}
  {
    EarlyReaderState(p);
  }

  /** The limit is exceeded: a paste for one view is returned to an early reader and to one after the creation. */
  lemma OneViewReturnedTwice(p: Policy)
    requires !p.burn && NormalizedMaxViews(p) == 1
    ensures var s := Reads(p, Step(p, Step(p, INITIAL, Create), NewReader), 0, 5);
            Readers(Reads(p, Step(p, Step(p, s, Create), NewReader), 1, 5)) == {0, 1}
  {
    var s := Reads(p, Step(p, Step(p, INITIAL, Create), NewReader), 0, 5);
    var t := Step(p, Step(p, s, Create), NewReader);
    EarlyReaderState(p);
    assert t == System(Store(true, Some(1), false), Complete, [Returned(0), Arrived]);
    assert Reads(p, t, 1, 2) == t.(readers := [Returned(0), LookedUp(Some(1))]);
    assert Reads(p, t, 1, 4) == t.(store := Store(true, Some(0), false), readers := [Returned(0), Counted(1)]);
    assert Reads(p, t, 1, 5).readers == [Returned(0), Returned(1)];
  }

  // ---------------------------------------------------------------------------
  // How often a paste is returned when no command fails

  predicate NoFailures(events: seq<Event>) {
    forall i | 0 <= i < |events| :: !events[i].ReadFails?
  }

  /** Every reader has its answer. */
  predicate Finished(s: System) {
    forall i | 0 <= i < |s.readers| :: s.readers[i].Returned? || s.readers[i].Refused?
  }

  /** A reader whose first command finds the paste. */
  function FindsNow(s: System, e: Event): set<nat> {
    if e.Read? && e.i < |s.readers| && s.readers[e.i] == Arrived && s.store.paste then {e.i} else {}
  }

  function FoundBy(p: Policy, s: System, events: seq<Event>): set<nat>
    decreases |events|
  {
    if events == [] then {} else FindsNow(s, events[0]) + FoundBy(p, Step(p, s, events[0]), events[1..])
  }

  /** On its way from finding the paste to getting it, or there. */
  predicate Active(r: Reader) { r.Found? || r.LookedUp? || Passed(r) }

  predicate SomeActive(s: System) { exists i :: 0 <= i < |s.readers| && Active(s.readers[i]) }

  predicate SomePassed(s: System) { exists i :: 0 <= i < |s.readers| && Passed(s.readers[i]) }

  /** Without a counter, a claim belongs to a reader that goes on, and so does having found the paste. */
  predicate Claims(s: System, found: set<nat>) {
    && s.store.views == None
    && (forall r | r in s.readers && (r.LookedUp? || r.Cleared?) :: r.views == None)
    && (s.store.claimed ==> SomePassed(s)) && (SomeActive(s) <==> found != {})
  }

  lemma StepKeepsClaims(p: Policy, s: System, e: Event, found: set<nat>)
    requires p.burn && Valid(p) && !e.ReadFails? && Claims(s, found)
    ensures Claims(Step(p, s, e), found + FindsNow(s, e))
  {
    var s' := Step(p, s, e);
    if j :| 0 <= j < |s.readers| && Passed(s.readers[j]) {
      assert Passed(s'.readers[j]) && Active(s'.readers[j]);
    }
    if j :| 0 <= j < |s.readers| && Active(s.readers[j]) {
      assert Active(s'.readers[j]) || SomePassed(s);
    }
    if e.Read? && e.i < |s.readers| {
      assert Passed(s'.readers[e.i]) || !Passed(s'.readers[e.i]);
      assert Active(s'.readers[e.i]) ==> Active(s.readers[e.i]) || FindsNow(s, e) != {};
    }
    if j :| 0 <= j < |s'.readers| && Active(s'.readers[j]) && found == {} {
      assert j < |s.readers|;
    }
  }

  lemma {:induction false} RunKeepsClaims(p: Policy, s: System, events: seq<Event>, found: set<nat>)
    requires p.burn && Valid(p) && NoFailures(events) && Claims(s, found)
    ensures Claims(Run(p, s, events), found + FoundBy(p, s, events))
    decreases |events|
  {
    hide Claims, Step, FindsNow;
    if events == [] {
      assert found + {} == found;
    } else {
      StepKeepsClaims(p, s, events[0], found);
      RunKeepsClaims(p, Step(p, s, events[0]), events[1..], found + FindsNow(s, events[0]));
      assert found + FindsNow(s, events[0]) + FoundBy(p, Step(p, s, events[0]), events[1..])
             == found + FoundBy(p, s, events);
    }
  }

  /** A burn-after-read paste that any reader finds is returned exactly once, in every run without failures. */
  lemma BurnReturnsExactlyOnce(p: Policy, events: seq<Event>)
    requires p.burn && p.maxViews <= 0 && NoFailures(events) && Finished(Run(p, INITIAL, events))
    ensures Valid(p) && |Readers(Run(p, INITIAL, events))| == if FoundBy(p, INITIAL, events) == {} then 0 else 1
  {
    var s, found := Run(p, INITIAL, events), FoundBy(p, INITIAL, events);
    RunKeepsClaims(p, INITIAL, events, {});
    RunKeepsOneClaim(p, INITIAL, events);
    assert {} + found == found;
    if i: nat :| i < |s.readers| && Active(s.readers[i]) {
      assert Readers(s) == {i};
    } else {
      assert Readers(s) == {};
    }
  }

  /** No reader has gone on without the counter, and every view counted off belongs to a reader. */
  predicate ViewsUsed(p: Policy, s: System, found: set<nat>) {
    && (forall i | 0 <= i < |s.readers| :: !Uncounted(s.readers[i]) && Remembers(s, s.readers[i]))
    && (forall i: nat | i < |s.readers| && Active(s.readers[i]) :: i in found)
    && (forall i | i in found :: i < |s.readers| && (Active(s.readers[i]) || (s.readers[i].Refused? && UsedUp(s))))
    && (s.store.views.Some? ==> forall n | s.store.views.value < n <= NormalizedMaxViews(p) :: n >= 1 ==> Taken(s, n))
  }

  /** The counter a reader has seen has not risen since. */
  predicate Remembers(s: System, r: Reader) {
    (r.LookedUp? || r.Cleared?) && r.views.Some? ==> s.store.views.Some? && s.store.views.value <= r.views.value
  }

  predicate UsedUp(s: System) { s.store.views.Some? && s.store.views.value <= 0 }

  predicate Taken(s: System, n: int) { exists i :: 0 <= i < |s.readers| && View(s.readers[i]) == n }

  lemma StepKeepsViewsUsed(p: Policy, s: System, e: Event, found: set<nat>)
    requires !p.burn && NormalizedMaxViews(p) > 0 && LimitInv(p, s) && ViewsUsed(p, s, found)
    requires !e.ReadFails? && !LooksEarly(s, e)
    ensures ViewsUsed(p, Step(p, s, e), found + FindsNow(s, e))
  {
    var s' := Step(p, s, e);
    assert s.store.views.Some? ==> s'.store.views.Some? && s'.store.views.value <= s.store.views.value;
    forall i: nat | i < |s'.readers|
      ensures !Uncounted(s'.readers[i]) && Remembers(s', s'.readers[i])
      ensures Active(s'.readers[i]) ==> i in found + FindsNow(s, e)
      ensures i in found + FindsNow(s, e) ==> Active(s'.readers[i]) || (s'.readers[i].Refused? && UsedUp(s'))
    {
      if i < |s.readers| {
        assert ReaderOk(p, s, s.readers[i]) && Remembers(s, s.readers[i]);
      }
    }
    hide Remembers, Uncounted, Active;
    if s'.store.views.Some? {
      forall n | s'.store.views.value < n <= NormalizedMaxViews(p) && n >= 1 ensures Taken(s', n) {
        StepKeepsTaken(p, s, e, n);
        if !Taken(s, n) {
          assert View(s'.readers[e.i]) == n;
        }
      }
    }
  }

  lemma StepKeepsTaken(p: Policy, s: System, e: Event, n: int)
    requires !e.ReadFails? && n >= 1
    ensures Taken(s, n) ==> Taken(Step(p, s, e), n)
  {
    var s' := Step(p, s, e);
    if i :| 0 <= i < |s.readers| && View(s.readers[i]) == n {
      assert View(s'.readers[i]) == n;
    }
  }

  lemma {:induction false} RunKeepsViewsUsed(p: Policy, s: System, events: seq<Event>, found: set<nat>)
    requires !p.burn && NormalizedMaxViews(p) > 0 && LimitInv(p, s) && ViewsUsed(p, s, found)
    requires NoFailures(events) && Early(p, s, events) == {}
    ensures ViewsUsed(p, Run(p, s, events), found + FoundBy(p, s, events))
    decreases |events|
  {
    if events == [] {
      assert found + {} == found;
    } else {
      assert !LooksEarly(s, events[0]);
      hide LimitInv, ViewsUsed, Step, FindsNow;
      StepKeepsLimitInv(p, s, events[0]);
      StepKeepsViewsUsed(p, s, events[0], found);
      RunKeepsViewsUsed(p, Step(p, s, events[0]), events[1..], found + FindsNow(s, events[0]));
      assert found + FindsNow(s, events[0]) + FoundBy(p, Step(p, s, events[0]), events[1..])
             == found + FoundBy(p, s, events);
    }
  }

  predicate Hit(ids: set<nat>, f: nat -> int, m: nat) { exists i :: i in ids && f(i) == m }

  lemma {:induction false} AllTaken(ids: set<nat>, f: nat -> int, n: nat)
    requires forall m: nat | 1 <= m <= n :: Hit(ids, f, m)
    ensures |ids| >= n
    decreases n
  {
    if n > 0 {
      assert Hit(ids, f, n);
      var i :| i in ids && f(i) == n;
      forall m: nat | 1 <= m <= n - 1 ensures Hit(ids - {i}, f, m) {
        assert Hit(ids, f, m);
        var j :| j in ids && f(j) == m;
        assert j in ids - {i};
      }
      AllTaken(ids - {i}, f, n - 1);
    }
  }

  /**
   * A paste with N views is returned to every reader that finds it, up to N: exactly so often in every run without
   * failures and without early readers.
   */
  lemma ReturnsExactly(p: Policy, events: seq<Event>)
    requires !p.burn && p.maxViews > 0 && NoFailures(events) && Early(p, INITIAL, events) == {}
    requires Finished(Run(p, INITIAL, events))
    ensures var returned, found := |Readers(Run(p, INITIAL, events))|, |FoundBy(p, INITIAL, events)|;
            Valid(p) && returned == if found <= p.maxViews then found else p.maxViews
  {
    var s, found := Run(p, INITIAL, events), FoundBy(p, INITIAL, events);
    RunKeepsViewsUsed(p, INITIAL, events, {});
    assert {} + found == found;
    ReturnsBounded(p, events);
    hide Run, FoundBy, Early;
    ReturnedOrUsedUp(p, s, found);
  }

  lemma ReturnedOrUsedUp(p: Policy, s: System, found: set<nat>)
    requires ViewsUsed(p, s, found) && Finished(s)
    ensures Readers(s) <= found && |Readers(s)| <= |found|
    ensures Readers(s) == found || |Readers(s)| >= NormalizedMaxViews(p)
  {
    SubsetSmaller(Readers(s), found);
    if i :| i in found && i !in Readers(s) {
      assert UsedUp(s);
      var f := (i: nat) => if i < |s.readers| then View(s.readers[i]) else 0;
      forall m: nat | 1 <= m <= NormalizedMaxViews(p) ensures Hit(Readers(s), f, m) {
        assert Taken(s, m);
        var i: nat :| 0 <= i < |s.readers| && View(s.readers[i]) == m;
        assert i in Readers(s) && f(i) == m;
      }
      AllTaken(Readers(s), f, NormalizedMaxViews(p));
    }
  }

  /** Once the counter is used up, a reader that comes then is refused and leaves the store as it is. */
  lemma UsedUpStaysUsedUp(p: Policy, s: System, i: nat)
    requires !p.burn && UsedUp(s) && i < |s.readers| && s.readers[i] == Arrived
    ensures Reads(p, s, i, 4) == s.(readers := s.readers[i := Refused])
  {
    if s.store.paste {
      var seen := s.(readers := s.readers[i := LookedUp(s.store.views)]);
      assert Reads(p, s, i, 4) == Reads(p, seen, i, 2);
      assert Reads(p, seen, i, 2) == s.(readers := s.readers[i := Refused]);
    } else {
      var gone := s.(readers := s.readers[i := Refused]);
      assert Step(p, gone, Read(i)) == gone;
      assert Reads(p, s, i, 4) == Reads(p, gone, i, 3);
      assert Reads(p, gone, i, 3) == gone;
    }
  }
}
