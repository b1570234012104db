/** Damping of slot migrations, seen slot by slot over whole runs. */
module Damping {

  /** Windows a slot has been hot in a row, and windows it still has to cool down. */
  datatype Track = Track(sticky: nat, cooldown: int)

  /** The counters after a window in which the slot was hot and local, or was not. */
  function Observe(t: Track, hot: bool): Track {
    if !hot then t.(sticky := 0)
    else if t.cooldown > 0 then Track(0, t.cooldown - 1)
    else t.(sticky := t.sticky + 1)
  }

  datatype Window = Window(hot: bool, migrated: bool)

  function Tick(coolDown: int, t: Track, w: Window): Track {
    if w.migrated then Track(0, coolDown) else Observe(t, w.hot)
  }

  /** A slot is migrated only when it has been hot for long enough. */
  predicate Allowed(minSticky: nat, t: Track, w: Window) {
    w.migrated ==> Observe(t, w.hot).sticky >= minSticky
  }

  function Run(coolDown: int, t: Track, ws: seq<Window>): Track
    decreases |ws|
  {
    if ws == [] then t else Run(coolDown, Tick(coolDown, t, ws[0]), ws[1..])
  }

  predicate AllowedRun(minSticky: nat, coolDown: int, t: Track, ws: seq<Window>)
    decreases |ws|
  {
    ws == [] || (Allowed(minSticky, t, ws[0]) && AllowedRun(minSticky, coolDown, Tick(coolDown, t, ws[0]), ws[1..]))
  }

  lemma {:induction false} RunConcat(minSticky: nat, coolDown: int, t: Track, a: seq<Window>, b: seq<Window>)
    ensures Run(coolDown, t, a + b) == Run(coolDown, Run(coolDown, t, a), b)
    ensures AllowedRun(minSticky, coolDown, t, a + b) <==>
              AllowedRun(minSticky, coolDown, t, a) && AllowedRun(minSticky, coolDown, Run(coolDown, t, a), b)
    decreases |a|
  {
    if a == [] {
      assert a + b == b;
    } else {
      assert (a + b)[1..] == a[1..] + b;
      RunConcat(minSticky, coolDown, Tick(coolDown, t, a[0]), a[1..], b);
    }
  }

  lemma ExtendRun(minSticky: nat, coolDown: int, ws: seq<Window>, w: Window)
    requires AllowedRun(minSticky, coolDown, Track(0, 0), ws) && Allowed(minSticky, Run(coolDown, Track(0, 0), ws), w)
    ensures AllowedRun(minSticky, coolDown, Track(0, 0), ws + [w])
    ensures Run(coolDown, Track(0, 0), ws + [w]) == Tick(coolDown, Run(coolDown, Track(0, 0), ws), w)
  {
    var t := Run(coolDown, Track(0, 0), ws);
    RunConcat(minSticky, coolDown, Track(0, 0), ws, [w]);
    assert Run(coolDown, t, [w]) == Run(coolDown, Tick(coolDown, t, w), []);
    assert AllowedRun(minSticky, coolDown, Tick(coolDown, t, w), []);
  }

  /** A window in which the slot is hot and local, is not cooling down, and is not migrated. */
  predicate CountsAt(coolDown: int, ws: seq<Window>, i: nat)
    requires i < |ws|
  {
    ws[i].hot && !ws[i].migrated && Run(coolDown, Track(0, 0), ws[..i]).cooldown <= 0
  }

  /** The last n windows of a run are all of that kind. */
  predicate EndsHot(coolDown: int, ws: seq<Window>, n: nat) {
    n <= |ws| && forall i | |ws| - n <= i < |ws| :: CountsAt(coolDown, ws, i)
  }

  /** The sticky counter counts the hot, local, cooled-down windows at the end of the run: those and no more. */
  lemma {:induction false} StickyCounts(coolDown: int, ws: seq<Window>)
    ensures forall n: nat :: n <= Run(coolDown, Track(0, 0), ws).sticky <==> EndsHot(coolDown, ws, n)
  {
    if ws != [] {
      var n := |ws| - 1;
      var front, w := ws[..n], ws[n];
      StickyCounts(coolDown, front);
      assert ws == front + [w];
      RunConcat(0, coolDown, Track(0, 0), front, [w]);
      var before := Run(coolDown, Track(0, 0), front);
      assert Run(coolDown, before, [w]) == Run(coolDown, Tick(coolDown, before, w), []);
      var sticky := Run(coolDown, Track(0, 0), ws).sticky;
      assert sticky == if CountsAt(coolDown, ws, n) then before.sticky + 1 else 0;
      forall m: nat ensures m <= sticky <==> EndsHot(coolDown, ws, m) {
        if m > 0 {
          EndsHotStep(coolDown, ws, m);
          assert m - 1 <= before.sticky <==> EndsHot(coolDown, front, m - 1);
        }
      }
    }
  }

  lemma EndsHotStep(coolDown: int, ws: seq<Window>, m: nat)
    requires ws != [] && m > 0
    ensures var n := |ws| - 1;
            EndsHot(coolDown, ws, m) <==> CountsAt(coolDown, ws, n) && EndsHot(coolDown, ws[..n], m - 1)
  {
    var n := |ws| - 1;
    var front := ws[..n];
    forall i | 0 <= i < n ensures CountsAt(coolDown, ws, i) == CountsAt(coolDown, front, i) {
      assert front[..i] == ws[..i];
    }
    hide CountsAt;
  }

  /** A slot may be migrated exactly after the required number of such windows, the current one included. */
  lemma AllowedIffSticky(minSticky: nat, coolDown: int, ws: seq<Window>, w: Window)
    requires minSticky > 0 && w.migrated
    ensures Allowed(minSticky, Run(coolDown, Track(0, 0), ws), w) <==>
              w.hot && Run(coolDown, Track(0, 0), ws).cooldown <= 0 && EndsHot(coolDown, ws, minSticky - 1)
  {
    StickyCounts(coolDown, ws);
    hide EndsHot;
  }

  /** A migration comes only after the required number of consecutive hot, local, cooled-down windows, its own too. */
  lemma MigratedOnlyWhenSticky(minSticky: nat, coolDown: int, ws: seq<Window>, w: Window)
    requires minSticky > 0 && AllowedRun(minSticky, coolDown, Track(0, 0), ws + [w]) && w.migrated
    ensures w.hot && Run(coolDown, Track(0, 0), ws).cooldown <= 0 && EndsHot(coolDown, ws, minSticky - 1)
  {
    RunConcat(minSticky, coolDown, Track(0, 0), ws, [w]);
    StickyCounts(coolDown, ws);
  }

  function HotWindows(ws: seq<Window>): nat {
    if ws == [] then 0 else HotWindows(ws[..|ws| - 1]) + if ws[|ws| - 1].hot then 1 else 0
  }

  function Max0(n: int): nat { if n > 0 then n else 0 }

  predicate NoMigration(ws: seq<Window>) {
    forall i | 0 <= i < |ws| :: !ws[i].migrated
  }

  /** After a migration, hot windows are spent on cooling down first, one for one, and on getting sticky then. */
  lemma {:induction false} HotWindowsSpent(coolDown: int, ws: seq<Window>)
    requires NoMigration(ws)
    ensures var t := Run(coolDown, Track(0, coolDown), ws);
            && (t.sticky > 0 ==> t.cooldown <= 0) && HotWindows(ws) >= Max0(coolDown) - Max0(t.cooldown) + t.sticky
            && Max0(t.cooldown) == Max0(coolDown - HotWindows(ws))
  {
    if ws != [] {
      var n := |ws| - 1;
      var front, w := ws[..n], ws[n];
      HotWindowsSpent(coolDown, front);
      assert ws == front + [w];
      RunConcat(0, coolDown, Track(0, coolDown), front, [w]);
      var before := Run(coolDown, Track(0, coolDown), front);
      assert Run(coolDown, before, [w]) == Run(coolDown, Tick(coolDown, before, w), []);
    }
  }

  /** Two consecutive migrations of a slot are separated by cool-down and sticky windows, all hot and local. */
  lemma MigrationsSeparated(minSticky: nat, coolDown: int, t: Track, first: Window,
                            between: seq<Window>, second: Window)
    requires minSticky > 0 && first.migrated && second.migrated && NoMigration(between)
    requires AllowedRun(minSticky, coolDown, t, [first] + between + [second])
    ensures HotWindows(between + [second]) >= Max0(coolDown) + minSticky
  {
    RunConcat(minSticky, coolDown, t, [first] + between, [second]);
    RunConcat(minSticky, coolDown, t, [first], between);
    assert Run(coolDown, t, [first]) == Run(coolDown, Track(0, coolDown), []);
    HotWindowsSpent(coolDown, between);
    assert (between + [second])[..|between|] == between;
  }

  lemma {:induction false} HotWindowsMonotone(a: seq<Window>, b: seq<Window>)
    ensures HotWindows(a) <= HotWindows(a + b)
    decreases |b|
  {
    if b == [] {
      assert a + b == a;
    } else {
      var front := b[..|b| - 1];
      HotWindowsMonotone(a, front);
      assert (a + b)[..|a + b| - 1] == a + front;
    }
  }

  /** A sequence of windows divided around one of them, and around two. */
  lemma Around(ws: seq<Window>, i: nat)
    requires i < |ws|
    ensures ws == ws[..i] + [ws[i]] + ws[i + 1..]
  {
  }

  lemma AroundTwo(ws: seq<Window>, i: nat, j: nat)
    requires i < j < |ws|
    ensures ws == ws[..i] + ([ws[i]] + ws[i + 1..j] + [ws[j]]) + ws[j + 1..]
    ensures ws[i + 1..j + 1] == ws[i + 1..j] + [ws[j]]
  {
    Around(ws, j);
    Around(ws[..j], i);
    assert ws[..j][..i] == ws[..i] && ws[..j][i + 1..] == ws[i + 1..j];
    assert ws[..i] + ([ws[i]] + ws[i + 1..j] + [ws[j]]) == ws[..j] + [ws[j]];
  }

  lemma Regroup(a: seq<Window>, b: Window, c: seq<Window>, d: Window, first: Window)
    ensures [first] + (a + [b] + c) + [d] == [first] + a + [b] + (c + [d])
    ensures a + [b] + c + [d] == a + [b] + (c + [d])
  {
  }

  /** The same for any two migrations, however many lie between them. */
  lemma {:induction false} AnyMigrationsSeparated(minSticky: nat, coolDown: int, t: Track, first: Window,
                                                  between: seq<Window>, second: Window)
    requires minSticky > 0 && first.migrated && second.migrated
    requires AllowedRun(minSticky, coolDown, t, [first] + between + [second])
    ensures HotWindows(between + [second]) >= Max0(coolDown) + minSticky
    decreases |between|
  {
    if NoMigration(between) {
      MigrationsSeparated(minSticky, coolDown, t, first, between, second);
    } else {
      var i :| 0 <= i < |between| && between[i].migrated;
      var nearer, rest := between[..i], between[i + 1..] + [second];
      Around(between, i);
      Regroup(nearer, between[i], between[i + 1..], second, first);
      RunConcat(minSticky, coolDown, t, [first] + nearer + [between[i]], rest);
      AnyMigrationsSeparated(minSticky, coolDown, t, first, nearer, between[i]);
      HotWindowsMonotone(nearer + [between[i]], rest);
    }
  }

  /** What damping promises of a whole run, window by window. */
  predicate Damped(minSticky: nat, coolDown: int, ws: seq<Window>)
    requires minSticky > 0
  {
    && (forall j | 0 <= j < |ws| && ws[j].migrated ::
          ws[j].hot && Run(coolDown, Track(0, 0), ws[..j]).cooldown <= 0 && EndsHot(coolDown, ws[..j], minSticky - 1))
    && forall i, j | 0 <= i < j < |ws| && ws[i].migrated && ws[j].migrated ::
         HotWindows(ws[i + 1..j + 1]) >= Max0(coolDown) + minSticky
  }

  /** Every allowed run is damped. */
  lemma AllowedIsDamped(minSticky: nat, coolDown: int, ws: seq<Window>)
    requires minSticky > 0 && AllowedRun(minSticky, coolDown, Track(0, 0), ws)
    ensures Damped(minSticky, coolDown, ws)
  {
    hide AllowedRun, HotWindows, EndsHot, Run;
    forall j | 0 <= j < |ws| && ws[j].migrated
      ensures ws[j].hot && Run(coolDown, Track(0, 0), ws[..j]).cooldown <= 0
      ensures EndsHot(coolDown, ws[..j], minSticky - 1)
    {
      Around(ws, j);
      RunConcat(minSticky, coolDown, Track(0, 0), ws[..j] + [ws[j]], ws[j + 1..]);
      MigratedOnlyWhenSticky(minSticky, coolDown, ws[..j], ws[j]);
    }
    forall i, j | 0 <= i < j < |ws| && ws[i].migrated && ws[j].migrated
      ensures HotWindows(ws[i + 1..j + 1]) >= Max0(coolDown) + minSticky
    {
      var between, t := ws[i + 1..j], Run(coolDown, Track(0, 0), ws[..i]);
      AroundTwo(ws, i, j);
      RunConcat(minSticky, coolDown, Track(0, 0), ws[..i] + ([ws[i]] + between + [ws[j]]), ws[j + 1..]);
      RunConcat(minSticky, coolDown, Track(0, 0), ws[..i], [ws[i]] + between + [ws[j]]);
      AnyMigrationsSeparated(minSticky, coolDown, t, ws[i], between, ws[j]);
    }
  }
}

/** Which hot slots go to which peers. */
module MigrationPlans {
  import opened Sorting

  type Slot = s: int | 0 <= s < 0x1_0000

  datatype HotSlot = HotSlot(slot: Slot, score: real, qps: real)

  /** A peer and its load; node ids are numbered in the order of their names. */
  datatype Peer = Peer(id: nat, totalQPS: nat)

  datatype Plan = Plan(slot: Slot, score: real, qps: real, target: Peer)

  datatype Config = Config(minSticky: int, minScore: real, maxMigrations: int, coolDown: int,
                           maxRatio: real, minReduction: real)

  predicate Normal(c: Config) {
    c.minSticky > 0 && c.minScore > 0.0 && c.maxMigrations > 0 && c.maxRatio > 0.0 && c.minReduction > 0.0
  }

  /** Options that are not positive are replaced by one; a normal configuration is kept as it is. */
  function Normalize(c: Config): (r: Config)
    ensures Normal(r) && r.coolDown == c.coolDown
    ensures Normal(c) ==> r == c
  {
    c.(minSticky := if c.minSticky <= 0 then 1 else c.minSticky,
    minScore := if c.minScore <= 0.0 then 1.0 else c.minScore,
    maxMigrations := if c.maxMigrations <= 0 then 1 else c.maxMigrations,
    maxRatio := if c.maxRatio <= 0.0 then 1.0 else c.maxRatio,
    minReduction := if c.minReduction <= 0.0 then 1.0 else c.minReduction)
  }

  function Clamp(x: real): real { if x < 0.0 then 0.0 else x }

  /** The most load a peer may be planned at while this much is left here. */
  function Ceiling(cfg: Config, local: real): real { local * cfg.maxRatio }

  /** The least load that a number of moves takes away. */
  function Relief(cfg: Config, moves: int): real { cfg.minReduction * moves as real }

  /** Whether a peer may take a slot from a node that has this much load left. */
  predicate Fits(cfg: Config, local: real, peer: Peer, qps: real) {
    && peer.totalQPS as real + qps <= Ceiling(cfg, local)
    && local - Clamp(local - qps) >= cfg.minReduction
  }

  predicate HotterFirst(a: HotSlot, b: HotSlot) { a.score >= b.score }

  predicate LighterFirst(a: Peer, b: Peer) {
    a.totalQPS < b.totalQPS || (a.totalQPS == b.totalQPS && a.id <= b.id)
  }

  ghost predicate IsLightest(peers: multiset<Peer>, p: Peer) {
    p in peers && forall q | q in peers :: LighterFirst(p, q)
  }

  ghost function Lightest(peers: multiset<Peer>): (p: Peer)
    requires |peers| > 0
    ensures IsLightest(peers, p)
  {
    var x :| x in peers;
    var rest := peers - multiset{x};
    assert forall q | q in peers :: q == x || q in rest;
    if |rest| == 0 then x else var y := Lightest(rest); if LighterFirst(x, y) then x else y
  }

  /** Load left here, the peers with the load planned for them, and the plans so far. */
  datatype State = State(local: real, peers: multiset<Peer>, plans: seq<Plan>)

  function Loaded(p: Peer, qps: real): Peer
    requires qps > 0.0
  {
    p.(totalQPS := p.totalQPS + qps.Floor)
  }

  lemma FitsPositive(cfg: Config, local: real, peer: Peer, qps: real)
    requires cfg.minReduction > 0.0 && Fits(cfg, local, peer, qps)
    ensures qps > 0.0
  {
  }

  /** The reference: a candidate goes to the lightest peer, and nowhere if it does not fit there. */
  ghost function Place(cfg: Config, s: State, c: HotSlot): State
    requires Normal(cfg)
  {
    if |s.peers| == 0 then s
    else
      var p := Lightest(s.peers);
      if !Fits(cfg, s.local, p, c.qps) then s
      else
        FitsPositive(cfg, s.local, p, c.qps);
        State(Clamp(s.local - c.qps), s.peers - multiset{p} + multiset{Loaded(p, c.qps)},
              s.plans + [Plan(c.slot, c.score, c.qps, p)])
  }

  ghost function PlaceAll(cfg: Config, s: State, cs: seq<HotSlot>): State
    requires Normal(cfg)
    decreases |cs|
  {
    if cs == [] then s else Place(cfg, PlaceAll(cfg, s, cs[..|cs| - 1]), cs[|cs| - 1])
  }

  /** If the lightest peer cannot take a slot, no peer can. */
  lemma LightestDecides(cfg: Config, local: real, p: Peer, q: Peer, qps: real)
    requires LighterFirst(p, q) && Fits(cfg, local, q, qps)
    ensures Fits(cfg, local, p, qps)
  {
  }

  /** Whether the load and the ratio leave room for a slot on a peer, and moving it is worth its while. */
  predicate CanTake(cfg: Config, local: real, load: nat, qps: real) {
    load as real + qps <= local * cfg.maxRatio && qps >= cfg.minReduction && local >= cfg.minReduction
  }

  lemma FitsIff(cfg: Config, local: real, peer: Peer, qps: real)
    requires Normal(cfg) && local >= 0.0
    ensures Fits(cfg, local, peer, qps) <==> CanTake(cfg, local, peer.totalQPS, qps)
  {
    assert Ceiling(cfg, local) == local * cfg.maxRatio;
    hide Ceiling;
  }

  /**
   * When a candidate is planned, exactly: if any peer can take it. It goes to the lightest peer, whose load rises by
   * the whole number of its requests, and this node keeps what is left of its own load, never less than nothing.
   */
  lemma PlannedIff(cfg: Config, s: State, c: HotSlot)
    requires Normal(cfg) && s.local >= 0.0
    ensures var t := Place(cfg, s, c);
            if exists p | p in s.peers :: CanTake(cfg, s.local, p.totalQPS, c.qps)
            then |t.plans| == |s.plans| + 1 && t.plans[..|s.plans|] == s.plans && PlannedAs(s, c, t.plans[|s.plans|], t)
            else t == s
  {
    SomePeerFits(cfg, s, c.qps);
    hide Fits, CanTake, Lightest, PlannedAs;
    if |s.peers| > 0 && Fits(cfg, s.local, Lightest(s.peers), c.qps) {
      var p := Lightest(s.peers);
      FitsPositive(cfg, s.local, p, c.qps);
      PlacedAs(s, c, p);
      assert (s.plans + [Plan(c.slot, c.score, c.qps, p)])[..|s.plans|] == s.plans;
    }
  }

  lemma PlacedAs(s: State, c: HotSlot, p: Peer)
    requires c.qps > 0.0 && IsLightest(s.peers, p)
    ensures var plan := Plan(c.slot, c.score, c.qps, p);
            PlannedAs(s, c, plan, State(Clamp(s.local - c.qps), s.peers - multiset{p} + multiset{Loaded(p, c.qps)},
                                        s.plans + [plan]))
  {
    assert s.peers - multiset{p} + multiset{p} == s.peers;
    assert c.qps.Floor >= 0;
  }

  /** The plan of a candidate, and what it makes of the loads. */
  ghost predicate PlannedAs(s: State, c: HotSlot, plan: Plan, t: State) {
    && plan.slot == c.slot && plan.score == c.score && plan.qps == c.qps && IsLightest(s.peers, plan.target)
    && t.local == (if c.qps > s.local then 0.0 else s.local - c.qps) && c.qps.Floor >= 0
    && t.peers + multiset{plan.target} ==
         s.peers + multiset{Peer(plan.target.id, plan.target.totalQPS + c.qps.Floor)}
  }

  lemma SomePeerFits(cfg: Config, s: State, qps: real)
    requires Normal(cfg) && s.local >= 0.0
    ensures (exists p | p in s.peers :: CanTake(cfg, s.local, p.totalQPS, qps)) <==>
              |s.peers| > 0 && Fits(cfg, s.local, Lightest(s.peers), qps)
  {
    if p :| p in s.peers && CanTake(cfg, s.local, p.totalQPS, qps) {
      FitsIff(cfg, s.local, p, qps);
      LightestDecides(cfg, s.local, Lightest(s.peers), p, qps);
    } else if |s.peers| > 0 {
      FitsIff(cfg, s.local, Lightest(s.peers), qps);
    }
  }

  /** Every peer is as it was, or is planned at no more than the bound. */
  ghost predicate WithinBound(original: multiset<Peer>, peers: multiset<Peer>, bound: real) {
    forall p | p in peers :: p in original || p.totalQPS as real <= bound
  }

  lemma CeilingMonotone(cfg: Config, a: real, b: real)
    requires a <= b && cfg.maxRatio > 0.0
    ensures Ceiling(cfg, a) <= Ceiling(cfg, b)
  {
  }

  lemma ReliefAdds(cfg: Config, a: int, b: int)
    ensures Relief(cfg, a + b) == Relief(cfg, a) + Relief(cfg, b)
    ensures Relief(cfg, 0) == 0.0 && Relief(cfg, 1) == cfg.minReduction
  {
  }

  /** A peer that takes a slot stays below the ceiling. */
  lemma LoadedBelowCeiling(cfg: Config, local: real, p: Peer, qps: real)
    requires cfg.minReduction > 0.0 && Fits(cfg, local, p, qps)
    ensures qps > 0.0 && Loaded(p, qps).totalQPS as real <= Ceiling(cfg, local)
  {
    assert (p.totalQPS + qps.Floor) as real == p.totalQPS as real + qps.Floor as real;
  }

  /** What placing one candidate keeps. */
  lemma PlaceKeeps(cfg: Config, start: State, s: State, c: HotSlot)
    requires Normal(cfg) && 0.0 <= s.local <= start.local
    requires WithinBound(start.peers, s.peers, Ceiling(cfg, start.local))
    ensures var t := Place(cfg, s, c);
            && 0.0 <= t.local <= start.local
            && WithinBound(start.peers, t.peers, Ceiling(cfg, start.local))
            && |t.peers| == |s.peers| && |t.plans| <= |s.plans| + 1
            && s.local - t.local >= Relief(cfg, |t.plans| - |s.plans|)
  {
    ReliefAdds(cfg, 0, 0);
    hide Ceiling, Relief;
    if |s.peers| > 0 && Fits(cfg, s.local, Lightest(s.peers), c.qps) {
      var p := Lightest(s.peers);
      LoadedBelowCeiling(cfg, s.local, p, c.qps);
      CeilingMonotone(cfg, s.local, start.local);
    }
  }

  /** Over a whole run no peer is planned above what this node carried at the start (times the ratio),
      and every move takes at least the required load away. */
  lemma {:induction false} PlaceAllKeeps(cfg: Config, s: State, cs: seq<HotSlot>)
    requires Normal(cfg) && s.local >= 0.0 && s.plans == []
    ensures var t := PlaceAll(cfg, s, cs);
            && 0.0 <= t.local <= s.local
            && WithinBound(s.peers, t.peers, Ceiling(cfg, s.local))
            && |t.peers| == |s.peers|
            && s.local - t.local >= Relief(cfg, |t.plans|)
            && |t.plans| <= |cs|
    decreases |cs|
  {
    ReliefAdds(cfg, 0, 0);
    hide Ceiling, Relief, Place;
    if cs != [] {
      var front := cs[..|cs| - 1];
      PlaceAllKeeps(cfg, s, front);
      var m, t := PlaceAll(cfg, s, front), PlaceAll(cfg, s, cs);
      PlaceKeeps(cfg, s, m, cs[|cs| - 1]);
      ReliefAdds(cfg, |m.plans|, |t.plans| - |m.plans|);
    }
  }

  lemma CeilingAtMostLoad(cfg: Config, local: real)
    requires cfg.maxRatio <= 1.0 && local >= 0.0
    ensures Ceiling(cfg, local) <= local
  {
  }

  /** No two peers have the same id. */
  ghost predicate DistinctIds(peers: multiset<Peer>) {
    forall p, q | p in peers && q in peers && p.id == q.id :: p == q && peers[p] == 1
  }

  /** A peer that some plan moves a slot to. */
  predicate Receives(plans: seq<Plan>, id: nat) {
    exists i :: 0 <= i < |plans| && plans[i].target.id == id
  }

  ghost predicate ReceiversBounded(s: State, bound: real) {
    && (forall p | p in s.peers && Receives(s.plans, p.id) :: p.totalQPS as real <= bound)
    && forall i | 0 <= i < |s.plans| :: s.plans[i].target.totalQPS as real + s.plans[i].qps <= bound
  }

  ghost function Replaced(peers: multiset<Peer>, p: Peer, p': Peer): multiset<Peer> {
    peers - multiset{p} + multiset{p'}
  }

  lemma ReplaceDistinct(peers: multiset<Peer>, p: Peer, p': Peer)
    requires DistinctIds(peers) && p in peers && p'.id == p.id
    ensures DistinctIds(Replaced(peers, p, p'))
    ensures forall q | q in Replaced(peers, p, p') :: q == p' || (q in peers && q.id != p.id)
  {
    var peers' := Replaced(peers, p, p');
    assert peers[p] == 1;
    forall q | q in peers' ensures q == p' || (q in peers && q.id != p.id) {
      if q != p' {
        assert q in peers && q != p;
      }
    }
    assert p' != p ==> p' !in peers;
    forall x, y | x in peers' && y in peers' && x.id == y.id ensures x == y && peers'[x] == 1 {
      if x != p' {
        assert peers[x] == 1;
      }
    }
  }

  lemma ReceiversExtend(s: State, plan: Plan, peers: multiset<Peer>, p': Peer, bound: real)
    requires ReceiversBounded(s, bound) && p'.id == plan.target.id && p'.totalQPS as real <= bound
    requires plan.target.totalQPS as real + plan.qps <= bound
    requires forall q | q in peers :: q == p' || (q in s.peers && q.id != p'.id)
    ensures ReceiversBounded(State(s.local, peers, s.plans + [plan]), bound)
  {
    var plans := s.plans + [plan];
    forall q | q in peers && Receives(plans, q.id) ensures q.totalQPS as real <= bound {
      if q != p' {
        var i :| 0 <= i < |plans| && plans[i].target.id == q.id;
        assert s.plans[i].target.id == q.id;
      }
    }
  }

  lemma PlaceBoundsReceivers(cfg: Config, s: State, c: HotSlot, start: real)
    requires Normal(cfg) && s.local <= start && DistinctIds(s.peers) && ReceiversBounded(s, Ceiling(cfg, start))
    ensures DistinctIds(Place(cfg, s, c).peers) && ReceiversBounded(Place(cfg, s, c), Ceiling(cfg, start))
  {
    if |s.peers| > 0 && Fits(cfg, s.local, Lightest(s.peers), c.qps) {
      var p := Lightest(s.peers);
      LoadedBelowCeiling(cfg, s.local, p, c.qps);
      CeilingMonotone(cfg, s.local, start);
      var p' := Loaded(p, c.qps);
      assert p.totalQPS as real + c.qps <= Ceiling(cfg, start);
      hide Ceiling, DistinctIds, ReceiversBounded, Fits;
      ReplaceDistinct(s.peers, p, p');
      ReceiversExtend(s, Plan(c.slot, c.score, c.qps, p), Replaced(s.peers, p, p'), p', Ceiling(cfg, start));
      LocalIrrelevant(State(s.local, Replaced(s.peers, p, p'), s.plans + [Plan(c.slot, c.score, c.qps, p)]),
                      Clamp(s.local - c.qps), Ceiling(cfg, start));
    }
  }

  lemma LocalIrrelevant(s: State, local: real, bound: real)
    requires ReceiversBounded(s, bound)
    ensures ReceiversBounded(s.(local := local), bound)
  {
  }

  /**
   * With a ratio of at most one, over every planning run: each move is planned within this node's load at the
   * start, and every peer that receives a slot ends within it.
   */
  lemma {:induction false} PlannedLoadsBounded(cfg: Config, s: State, cs: seq<HotSlot>)
    requires Normal(cfg) && cfg.maxRatio <= 1.0 && s.local >= 0.0 && s.plans == [] && DistinctIds(s.peers)
    ensures ReceiversBounded(PlaceAll(cfg, s, cs), s.local)
  {
    ReceiversWithinCeiling(cfg, s, cs);
    CeilingAtMostLoad(cfg, s.local);
    hide Ceiling, Place, PlaceAll;
  }

  lemma {:induction false} ReceiversWithinCeiling(cfg: Config, s: State, cs: seq<HotSlot>)
    requires Normal(cfg) && s.local >= 0.0 && s.plans == [] && DistinctIds(s.peers)
    ensures DistinctIds(PlaceAll(cfg, s, cs).peers) && ReceiversBounded(PlaceAll(cfg, s, cs), Ceiling(cfg, s.local))
    decreases |cs|
  {
    hide Ceiling, Place, ReceiversBounded, DistinctIds;
    if cs == [] {
      NoReceivers(s, Ceiling(cfg, s.local));
    } else {
      var front := cs[..|cs| - 1];
      ReceiversWithinCeiling(cfg, s, front);
      PlaceAllKeeps(cfg, s, front);
      PlaceBoundsReceivers(cfg, PlaceAll(cfg, s, front), cs[|cs| - 1], s.local);
    }
  }

  lemma NoReceivers(s: State, bound: real)
    requires s.plans == []
    ensures ReceiversBounded(s, bound)
  {
  }

  /** The search loop of the planner: the first peer that fits, in sorted order, is the lightest one. */
  method FirstFit(cfg: Config, local: real, peers: seq<Peer>, qps: real) returns (target: nat)
    requires Sorted(LighterFirst, peers)
    ensures target <= |peers|
    ensures target < |peers| ==> target == 0 && Fits(cfg, local, peers[0], qps)
    ensures target == |peers| ==> forall i | 0 <= i < |peers| :: !Fits(cfg, local, peers[i], qps)
  {
    for i := 0 to |peers|
      invariant forall j | 0 <= j < i :: !Fits(cfg, local, peers[j], qps)
    {
      if Fits(cfg, local, peers[i], qps) {
        if i > 0 {
          LightestDecides(cfg, local, peers[0], peers[i], qps);
        }
        return i;
      }
    }
    return |peers|;
  }

  lemma FirstIsLightest(peers: seq<Peer>)
    requires Sorted(LighterFirst, peers) && peers != []
    ensures Lightest(multiset(peers)) == peers[0]
  {
    var p := Lightest(multiset(peers));
    assert p in peers;
    assert peers[0] in multiset(peers);
  }

  lemma LightestFirst(peers: seq<Peer>) returns (sorted: seq<Peer>)
    ensures sorted == Sort(LighterFirst, peers) && multiset(sorted) == multiset(peers) && |sorted| == |peers|
    ensures Sorted(LighterFirst, sorted)
    ensures sorted != [] ==> Lightest(multiset(peers)) == sorted[0]
  {
    sorted := Sort(LighterFirst, peers);
    SortSorts(LighterFirst, peers);
    SameLength(sorted, peers);
    if sorted != [] {
      FirstIsLightest(sorted);
    }
  }

  lemma ReplaceFirst(peers: seq<Peer>, p: Peer)
    requires peers != []
    ensures multiset(peers[0 := p]) == multiset(peers) - multiset{peers[0]} + multiset{p}
  {
    assert peers == [peers[0]] + peers[1..];
    assert peers[0 := p] == [p] + peers[1..];
  }

  /** One round of the planner's loop. */
  method PlaceOne(cfg: Config, local: real, peers: seq<Peer>, plans: seq<Plan>, c: HotSlot)
    returns (local': real, peers': seq<Peer>, plans': seq<Plan>)
    requires Normal(cfg)
    ensures State(local', multiset(peers'), plans') == Place(cfg, State(local, multiset(peers), plans), c)
  {
    hide Fits, Sort, Lightest, Sorted;
    local', plans' := local, plans;
    peers' := Sort(LighterFirst, peers);
    ghost var sorted := LightestFirst(peers);
    var target := FirstFit(cfg, local, peers', c.qps);
    if target < |peers'| {
      var chosen := peers'[target];
      FitsPositive(cfg, local, chosen, c.qps);
      ReplaceFirst(peers', Loaded(chosen, c.qps));
      plans' := plans' + [Plan(c.slot, c.score, c.qps, chosen)];
      local' := Clamp(local' - c.qps);
      peers' := peers'[target := Loaded(chosen, c.qps)];
    }
  }

  function Cap(n: nat, cfg: Config): nat
    requires Normal(cfg)
  {
    if n > cfg.maxMigrations then cfg.maxMigrations else n
  }

  /** The plans of the reference for candidates in this order: only the first few are considered. */
  ghost function PlannedBy(cfg: Config, ordered: seq<HotSlot>, peerLoads: seq<Peer>, totalQPS: real): seq<Plan>
    requires Normal(cfg)
  {
    if peerLoads == [] || totalQPS <= 0.0 then []
    else PlaceAll(cfg, State(totalQPS, multiset(peerLoads), []), ordered[..Cap(|ordered|, cfg)]).plans
  }

  lemma {:induction false} NothingPlanned(cfg: Config, s: State, cs: seq<HotSlot>)
    requires Normal(cfg) && s.local >= 0.0 && s.plans == []
    ensures PlaceAll(cfg, s, cs).plans == [] <==> forall c | c in cs :: !SomeTakes(cfg, s.local, s.peers, c.qps)
    ensures PlaceAll(cfg, s, cs).plans == [] ==> PlaceAll(cfg, s, cs) == s
    decreases |cs|
  {
    hide Place, CanTake;
    if cs != [] {
      var front, last := cs[..|cs| - 1], cs[|cs| - 1];
      NothingPlanned(cfg, s, front);
      PlaceAllKeeps(cfg, s, front);
      assert forall c :: c in cs <==> c in front || c == last;
      PlannedIff(cfg, PlaceAll(cfg, s, front), last);
    }
  }

  /** Some peer can take this much. */
  ghost predicate SomeTakes(cfg: Config, local: real, peers: multiset<Peer>, qps: real) {
    exists p | p in peers :: CanTake(cfg, local, p.totalQPS, qps)
  }

  /** Whether anything is planned, exactly: if some peer can take one of the candidates that are considered. */
  lemma PlansIff(cfg: Config, ordered: seq<HotSlot>, peerLoads: seq<Peer>, totalQPS: real)
    requires Normal(cfg)
    ensures PlannedBy(cfg, ordered, peerLoads, totalQPS) != [] <==>
              exists k :: 0 <= k < |ordered| && k < cfg.maxMigrations
                          && SomeTakes(cfg, totalQPS, multiset(peerLoads), ordered[k].qps)
  {
    var considered := ordered[..Cap(|ordered|, cfg)];
    if peerLoads != [] && totalQPS > 0.0 {
      NothingPlanned(cfg, State(totalQPS, multiset(peerLoads), []), considered);
      forall c | c in considered
        ensures exists k :: 0 <= k < |considered| && ordered[k] == c
      {
        var k :| 0 <= k < |considered| && considered[k] == c;
      }
      forall k | 0 <= k < |ordered| && k < cfg.maxMigrations ensures ordered[k] in considered {
        assert considered[k] == ordered[k];
      }
    }
  }

  /** The plans are those of the reference, on the candidates in some order of falling score. */
  method PlanMigrations(cfg: Config, candidates: seq<HotSlot>, peerLoads: seq<Peer>, totalQPS: real)
    returns (plans: seq<Plan>, ordered: seq<HotSlot>)
    requires Normal(cfg)
    ensures Sorted(HotterFirst, ordered) && multiset(ordered) == multiset(candidates)
    ensures |ordered| == |candidates| && |plans| <= cfg.maxMigrations
    ensures plans == PlannedBy(cfg, ordered, peerLoads, totalQPS)
  {
    hide Place;
    plans, ordered := [], Sort(HotterFirst, candidates);
    SortSorts(HotterFirst, candidates);
    SameLength(ordered, candidates);
    if candidates == [] || peerLoads == [] || totalQPS <= 0.0 {
      return;
    }
    var hottest := ordered[..Cap(|ordered|, cfg)];
    var local, peers := totalQPS, peerLoads;
    ghost var start := State(totalQPS, multiset(peerLoads), []);
    for k := 0 to |hottest|
      invariant State(local, multiset(peers), plans) == PlaceAll(cfg, start, hottest[..k])
    {
      local, peers, plans := PlaceOne(cfg, local, peers, plans, hottest[k]);
      assert hottest[..k + 1][..k] == hottest[..k];
    }
    assert hottest[..|hottest|] == hottest;
    PlaceAllKeeps(cfg, start, hottest);
  }
}

/** The manager that counts hot windows and starts migrations. */
module RebalanceManagers {
  import opened Damping
  import opened MigrationPlans
  import Sorting

  function Count(m: map<Slot, int>, s: Slot): int { if s in m then m[s] else 0 }

  ghost predicate Listed(hot: seq<HotSlot>, s: Slot) {
    exists i :: 0 <= i < |hot| && hot[i].slot == s
  }

  /** Slots are reported hot at most once a window. */
  ghost predicate Distinct(hot: seq<HotSlot>) {
    forall i, j | 0 <= i < j < |hot| :: hot[i].slot != hot[j].slot
  }

  /** A slot counts as hot if it is reported and owned here; slot 0 never does. */
  ghost predicate HotHere(hot: seq<HotSlot>, local: set<Slot>, s: Slot) {
    s != 0 && s in local && Listed(hot, s)
  }

  /** What a window brings: reports, ownership, peer loads, total load and the slots whose migration would succeed. */
  datatype Input = Input(hot: seq<HotSlot>, local: set<Slot>, peers: seq<Peer>, totalQPS: real, succeeds: set<Slot>)

  ghost function WindowOf(x: Input, migrated: set<Slot>, s: Slot): Window {
    Window(HotHere(x.hot, x.local, s), s in migrated)
  }

  ghost function WindowsOf(xs: seq<Input>, migrated: seq<set<Slot>>, s: Slot): seq<Window>
    requires |xs| == |migrated|
  {
    seq(|xs|, i requires 0 <= i < |xs| => WindowOf(xs[i], migrated[i], s))
  }

  /** The reports of slots that have been hot for long enough and are hot enough, in order. */
  function Qualified(cfg: Config, counts: map<Slot, int>, hot: seq<HotSlot>): (cs: seq<HotSlot>)
    ensures forall c :: c in cs <==> c in hot && Count(counts, c.slot) >= cfg.minSticky && c.score >= cfg.minScore
  {
    if hot == [] then []
    else
      var n := |hot| - 1;
      assert hot == hot[..n] + [hot[n]];
      Qualified(cfg, counts, hot[..n]) +
      if Count(counts, hot[n].slot) >= cfg.minSticky && hot[n].score >= cfg.minScore then [hot[n]] else []
  }

  /** The slots that are migrated: planned, and not refused by the cluster. */
  ghost function Moved(plans: seq<Plan>, succeeds: set<Slot>): set<Slot> {
    set i | 0 <= i < |plans| && plans[i].slot in succeeds :: plans[i].slot
  }

  lemma {:induction false} PlannedFromCandidates(cfg: Config, s: State, cs: seq<HotSlot>, i: nat)
    requires Normal(cfg) && s.plans == [] && i < |PlaceAll(cfg, s, cs).plans|
    ensures exists k :: 0 <= k < |cs| && cs[k].slot == PlaceAll(cfg, s, cs).plans[i].slot
    decreases |cs|
  {
    var front := cs[..|cs| - 1];
    if i < |PlaceAll(cfg, s, front).plans| {
      PlannedFromCandidates(cfg, s, front, i);
      var k :| 0 <= k < |front| && front[k].slot == PlaceAll(cfg, s, front).plans[i].slot;
      assert cs[k].slot == PlaceAll(cfg, s, cs).plans[i].slot;
    } else {
      assert cs[|cs| - 1].slot == PlaceAll(cfg, s, cs).plans[i].slot;
    }
  }

  /** A slot's counters are those of a run that keeps to the damping rules. */
  ghost predicate Reached(cfg: Config, xs: seq<Input>, migrated: seq<set<Slot>>, s: Slot, t: Track)
    requires Normal(cfg)
  {
    && |migrated| == |xs|
    && AllowedRun(cfg.minSticky, cfg.coolDown, Track(0, 0), WindowsOf(xs, migrated, s))
    && t == Run(cfg.coolDown, Track(0, 0), WindowsOf(xs, migrated, s))
  }

  lemma ReachedStart(cfg: Config, xs: seq<Input>, s: Slot)
    requires Normal(cfg)
    ensures Reached(cfg, xs[..0], [], s, Track(0, 0))
  {
    assert WindowsOf(xs[..0], [], s) == [];
  }

  lemma ReachedStep(cfg: Config, xs: seq<Input>, k: nat, migrated: seq<set<Slot>>, moved: set<Slot>, s: Slot, t: Track)
    requires Normal(cfg) && k < |xs| && Reached(cfg, xs[..k], migrated, s, t)
    requires Allowed(cfg.minSticky, t, WindowOf(xs[k], moved, s))
    ensures Reached(cfg, xs[..k + 1], migrated + [moved], s, Tick(cfg.coolDown, t, WindowOf(xs[k], moved, s)))
  {
    hide WindowOf;
    ExtendRun(cfg.minSticky, cfg.coolDown, WindowsOf(xs[..k], migrated, s), WindowOf(xs[k], moved, s));
    assert WindowsOf(xs[..k + 1], migrated + [moved], s) ==
           WindowsOf(xs[..k], migrated, s) + [WindowOf(xs[k], moved, s)];
  }

  lemma MovedStep(plans: seq<Plan>, succeeds: set<Slot>, k: nat)
    requires k < |plans|
    ensures Moved(plans[..k + 1], succeeds) ==
            Moved(plans[..k], succeeds) + if plans[k].slot in succeeds then {plans[k].slot} else {}
  {
    var a, b := plans[..k], plans[..k + 1];
    forall s | s in Moved(a, succeeds) ensures s in Moved(b, succeeds) {
      var i :| 0 <= i < k && a[i].slot == s;
      assert b[i].slot == s;
    }
    assert b[k].slot == plans[k].slot;
    forall s | s in Moved(b, succeeds) && s != plans[k].slot ensures s in Moved(a, succeeds) {
      var i :| 0 <= i < k + 1 && b[i].slot == s;
      assert a[i].slot == s;
    }
  }

  /** Every planned slot belongs to a report that qualified. */
  lemma PlannedQualified(cfg: Config, counts: map<Slot, int>, x: Input, ordered: seq<HotSlot>, i: nat)
    requires Normal(cfg) && multiset(ordered) == multiset(Qualified(cfg, counts, x.hot))
    requires i < |PlannedBy(cfg, ordered, x.peers, x.totalQPS)|
    ensures Count(counts, PlannedBy(cfg, ordered, x.peers, x.totalQPS)[i].slot) >= cfg.minSticky
  {
    var hottest := ordered[..Cap(|ordered|, cfg)];
    var start := State(x.totalQPS, multiset(x.peers), []);
    PlannedFromCandidates(cfg, start, hottest, i);
    var k :| 0 <= k < |hottest| && hottest[k].slot == PlaceAll(cfg, start, hottest).plans[i].slot;
    Sorting.SameElements(ordered, Qualified(cfg, counts, x.hot), ordered[k]);
  }

  class RebalanceManager {
    const cfg: Config
    var sticky: map<Slot, int>
    var cooldown: map<Slot, int>

    ghost predicate Valid()
      reads this
    {
      Normal(cfg) && forall s | s in sticky :: sticky[s] >= 0
    }

    function At(s: Slot): Track
      requires Valid()
      reads this
    {
      Track(Count(sticky, s), Count(cooldown, s))
    }

    constructor (c: Config)
      ensures Valid() && cfg == Normalize(c) && forall s :: At(s) == Track(0, 0)
    {
      cfg := Normalize(c);
      sticky := map[];
      cooldown := map[];
    }

    /** Counts this window's hot slots and forgets the count of every other slot. */
    method CountHot(hot: seq<HotSlot>, local: set<Slot>)
      requires Valid() && Distinct(hot)
      modifies this
      ensures Valid()
      ensures forall s :: At(s) == Observe(old(At(s)), HotHere(hot, local, s))
      ensures forall s | s == 0 || s !in local || !Listed(hot, s) :: At(s).sticky == 0
      ensures forall s | s != 0 && s in local && Listed(hot, s) ::
        At(s).sticky == if old(At(s)).cooldown > 0 then 0 else old(At(s)).sticky + 1
    {
      var found: set<Slot> := {};
      for k := 0 to |hot|
        invariant Valid()
        invariant forall s :: s in found <==> HotHere(hot[..k], local, s) && old(At(s)).cooldown <= 0
        invariant forall s | s in found :: At(s) == Observe(old(At(s)), true)
        invariant forall s | s !in found :: At(s).sticky == old(At(s)).sticky
        invariant forall s | s !in found ::
            At(s).cooldown == old(At(s)).cooldown - if HotHere(hot[..k], local, s) then 1 else 0
      {
        var h := hot[k].slot;
        ListedStep(hot, k);
        if h != 0 && h in local {
          if Count(cooldown, h) > 0 {
            cooldown := cooldown[h := Count(cooldown, h) - 1];
          } else {
            sticky := sticky[h := Count(sticky, h) + 1];
            found := found + {h};
          }
        }
      }
      assert hot[..|hot|] == hot;
      sticky := map s | s in sticky && s in found :: sticky[s];
    }

    static lemma ListedStep(hot: seq<HotSlot>, k: nat)
      requires k < |hot| && Distinct(hot)
      ensures forall s :: Listed(hot[..k + 1], s) <==> Listed(hot[..k], s) || s == hot[k].slot
      ensures !Listed(hot[..k], hot[k].slot)
    {
      forall s ensures Listed(hot[..k + 1], s) <==> Listed(hot[..k], s) || s == hot[k].slot {
        if Listed(hot[..k], s) {
          var i :| 0 <= i < k && hot[..k][i].slot == s;
          assert hot[..k + 1][i].slot == s;
        }
        assert hot[..k + 1][k].slot == hot[k].slot;
        if Listed(hot[..k + 1], s) && s != hot[k].slot {
          var i :| 0 <= i < k + 1 && hot[..k + 1][i].slot == s;
          assert hot[..k][i].slot == s;
        }
      }
    }

    /** Hot slots that have been hot long enough and are hot enough. */
    method Candidates(hot: seq<HotSlot>) returns (cs: seq<HotSlot>)
      ensures cs == Qualified(cfg, sticky, hot)
    {
      cs := [];
      for k := 0 to |hot|
        invariant cs == Qualified(cfg, sticky, hot[..k])
      {
        assert hot[..k + 1][..k] == hot[..k];
        if Count(sticky, hot[k].slot) < cfg.minSticky {
          continue;
        }
        if hot[k].score < cfg.minScore {
          continue;
        }
        cs := cs + [hot[k]];
      }
      assert hot[..|hot|] == hot;
    }

    /** Starts the planned migrations; those that succeed put their slots into cool-down. */
    method Migrate(plans: seq<Plan>, succeeds: set<Slot>) returns (migrated: set<Slot>)
      requires Valid()
      modifies this
      ensures Valid() && |migrated| <= |plans|
      ensures migrated == Moved(plans, succeeds)
      ensures forall s :: At(s) == if s in migrated then Track(0, cfg.coolDown) else old(At(s))
    {
      migrated := {};
      for k := 0 to |plans|
        invariant Valid() && |migrated| <= k
        invariant migrated == Moved(plans[..k], succeeds)
        invariant forall s :: At(s) == if s in migrated then Track(0, cfg.coolDown) else old(At(s))
      {
        var slot := plans[k].slot;
        MovedStep(plans, succeeds, k);
        if slot in succeeds {
          sticky := sticky - {slot};
          cooldown := cooldown[slot := cfg.coolDown];
          migrated := migrated + {slot};
        }
      }
      assert plans[..|plans|] == plans;
    }

    /** One window. Every slot's counters move as its own window says, only slots that are allowed to are migrated,
        and those are the slots the reference plans on the qualified reports. */
    method Tick(x: Input)
      returns (migrated: set<Slot>, ordered: seq<HotSlot>, ghost counts: map<Slot, int>)
      requires Valid() && Distinct(x.hot)
      modifies this
      ensures Valid() && |migrated| <= cfg.maxMigrations
      ensures forall s :: At(s) == Damping.Tick(cfg.coolDown, old(At(s)), WindowOf(x, migrated, s))
      ensures forall s :: Allowed(cfg.minSticky, old(At(s)), WindowOf(x, migrated, s))
      ensures forall s :: Count(counts, s) == Observe(old(At(s)), HotHere(x.hot, x.local, s)).sticky
      ensures Sorting.Sorted(HotterFirst, ordered) && multiset(ordered) == multiset(Qualified(cfg, counts, x.hot))
      ensures migrated == Moved(PlannedBy(cfg, ordered, x.peers, x.totalQPS), x.succeeds)
    {
      CountHot(x.hot, x.local);
      counts := sticky;
      var cs := Candidates(x.hot);
      migrated, ordered := {}, [];
      if cs == [] {
        return;
      }
      var plans;
      plans, ordered := PlanMigrations(cfg, cs, x.peers, x.totalQPS);
      forall i | 0 <= i < |plans| ensures Count(counts, plans[i].slot) >= cfg.minSticky {
        PlannedQualified(cfg, counts, x, ordered, i);
      }
      migrated := Migrate(plans, x.succeeds);
    }

    /** Whole runs of a new manager obey the damping rules slot by slot, and so are damped. */
    method Loop(xs: seq<Input>) returns (migrated: seq<set<Slot>>)
      requires Valid() && forall i | 0 <= i < |xs| :: Distinct(xs[i].hot)
      requires forall s :: At(s) == Track(0, 0)
      modifies this
      ensures Valid() && |migrated| == |xs|
      ensures forall s :: AllowedRun(cfg.minSticky, cfg.coolDown, Track(0, 0), WindowsOf(xs, migrated, s))
      ensures forall s :: At(s) == Run(cfg.coolDown, Track(0, 0), WindowsOf(xs, migrated, s))
      ensures forall s :: Damped(cfg.minSticky, cfg.coolDown, WindowsOf(xs, migrated, s))
    {
      hide Damped, AllowedRun, Run, Damping.Tick, Observe, Allowed;
      hide WindowsOf, WindowOf, HotHere, Moved, PlannedBy, Qualified;
      migrated := [];
      forall s ensures Reached(cfg, xs[..0], migrated, s, At(s)) {
        ReachedStart(cfg, xs, s);
      }
      for k := 0 to |xs|
        invariant Valid() && |migrated| == k
        invariant forall s :: Reached(cfg, xs[..k], migrated, s, At(s))
      {
        label before:
        var moved, _, _ := Tick(xs[k]);
        forall s ensures Reached(cfg, xs[..k + 1], migrated + [moved], s, At(s)) {
          assert Reached(cfg, xs[..k], migrated, s, old@before(At(s)));
          ReachedStep(cfg, xs, k, migrated, moved, s, old@before(At(s)));
        }
        migrated := migrated + [moved];
      }
      assert xs[..|xs|] == xs;
      forall s
        ensures AllowedRun(cfg.minSticky, cfg.coolDown, Track(0, 0), WindowsOf(xs, migrated, s))
        ensures At(s) == Run(cfg.coolDown, Track(0, 0), WindowsOf(xs, migrated, s))
        ensures Damped(cfg.minSticky, cfg.coolDown, WindowsOf(xs, migrated, s))
      {
        assert Reached(cfg, xs, migrated, s, At(s));
        AllowedIsDamped(cfg.minSticky, cfg.coolDown, WindowsOf(xs, migrated, s));
      }
    }
  }
}
