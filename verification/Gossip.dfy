/** Epoch-guarded slot ownership claims spread by gossip. */
module Gossip {
  import opened Slots
  import opened SlotModel
  import opened SlotManagers
  import SlotBitmap

  datatype Claim = Claim(owner: NodeId, epoch: nat)

  /** What a node holds about one slot: its owner, the epoch recorded by gossip, the epoch in the table. */
  datatype Belief = Belief(owner: NodeId, recorded: nat, config: nat)

  function Seen(b: Belief): nat {
    if b.config > b.recorded then b.config else b.recorded
  }

  predicate CanApply(b: Belief, epoch: nat) {
    if epoch == 0 then Seen(b) == 0 else epoch > Seen(b)
  }

  /** Hearing one claim of a master. */
  function Hear(b: Belief, c: Claim): Belief {
    if !CanApply(b, c.epoch) then b
    else b.(owner := c.owner, recorded := if c.epoch >= b.recorded then c.epoch else b.recorded)
  }

  function HearAll(b: Belief, claims: seq<Claim>): Belief
    decreases |claims|
  {
    if claims == [] then b else HearAll(Hear(b, claims[0]), claims[1..])
  }

  /** The epoch never falls, and the owner changes only on a higher epoch, or while none is known. */
  lemma HearMonotone(b: Belief, c: Claim)
    ensures Seen(Hear(b, c)) >= Seen(b)
    ensures Hear(b, c).owner != b.owner ==> c.epoch > Seen(b) || (Seen(b) == 0 && c.epoch == 0)
    ensures Hear(b, c).owner != b.owner ==> Hear(b, c).owner == c.owner && Seen(Hear(b, c)) == c.epoch
  {
  }

  /** A claim is taken over exactly if it is newer than both epochs known, or as new as none known. */
  lemma HearIff(b: Belief, c: Claim)
    requires c.owner != b.owner
    ensures Hear(b, c).owner == c.owner <==>
              (c.epoch > b.config && c.epoch > b.recorded) || c.epoch == b.config == b.recorded == 0
    ensures Hear(b, c).owner == c.owner ==> Hear(b, c) == Belief(c.owner, c.epoch, b.config)
    ensures Hear(b, c).owner != c.owner ==> Hear(b, c) == b
  {
  }

  /**
   * Over every run the epoch never falls; a run of claims with epochs changes the owner only by raising it, and only
   * if one of them is newer than both the recorded epoch and the one in the table.
   */
  lemma {:induction false} HearAllMonotone(b: Belief, claims: seq<Claim>)
    ensures Seen(HearAll(b, claims)) >= Seen(b) && HearAll(b, claims).config == b.config
    ensures HearAll(b, claims).owner != b.owner && (forall c | c in claims :: c.epoch > 0) ==>
              && Seen(HearAll(b, claims)) > Seen(b)
              && exists c | c in claims :: c.epoch > b.config && c.epoch > b.recorded
    decreases |claims|
  {
    if claims != [] {
      HearMonotone(b, claims[0]);
      var next, rest := Hear(b, claims[0]), claims[1..];
      HearAllMonotone(next, rest);
      if HearAll(b, claims).owner != b.owner && forall c | c in claims :: c.epoch > 0 {
        assert claims[0] in claims;
        if next.owner == b.owner {
          var c :| c in rest && c.epoch > next.config && c.epoch > next.recorded;
          assert c in claims && next.recorded >= b.recorded;
        }
      }
    }
  }

  predicate Newest(claims: seq<Claim>, c: Claim) {
    c in claims && forall d | d in claims :: d.epoch <= c.epoch
  }

  /** Claims no newer than what is known change nothing, once an epoch is known. */
  lemma {:induction false} OldClaimsIgnored(b: Belief, claims: seq<Claim>)
    requires Seen(b) > 0 && forall d | d in claims :: d.epoch <= Seen(b)
    ensures HearAll(b, claims) == b
    decreases |claims|
  {
    if claims != [] {
      assert claims[0] in claims;
      OldClaimsIgnored(b, claims[1..]);
    }
  }

  /** The outcome of claims of which one is news: the newest epoch, with an owner that claims it. */
  lemma {:induction false} OutcomeIsNewest(b: Belief, claims: seq<Claim>) returns (c: Claim)
    requires claims != [] && (Seen(b) == 0 || exists d :: d in claims && d.epoch > Seen(b))
    ensures Newest(claims, c) && c.epoch >= Seen(b)
    ensures HearAll(b, claims).owner == c.owner && Seen(HearAll(b, claims)) == c.epoch
    decreases |claims|
  {
    var next, rest := Hear(b, claims[0]), claims[1..];
    assert forall d :: d in claims <==> d == claims[0] || d in rest;
    if rest != [] && (Seen(next) == 0 || exists d :: d in rest && d.epoch > Seen(next)) {
      c := OutcomeIsNewest(next, rest);
    } else {
      c := claims[0];
      if rest != [] {
        OldClaimsIgnored(next, rest);
      }
    }
  }

  predicate SameClaims(p: seq<Claim>, q: seq<Claim>) {
    (forall c | c in p :: c in q) && forall c | c in q :: c in p
  }

  /** Every claim of the newest epoch names the same owner. */
  predicate OneNewestOwner(claims: seq<Claim>) {
    forall c, d | c in claims && d in claims && Newest(claims, c) && Newest(claims, d) :: c.owner == d.owner
  }

  /** No epoch is known for the slot. */
  predicate Fresh(b: Belief) { Seen(b) == 0 }

  /** Two nodes that hear the same claims, in any order and with any repetition, agree. */
  lemma Converges(a: Belief, b: Belief, p: seq<Claim>, q: seq<Claim>)
    requires Fresh(a) && Fresh(b) && p != [] && SameClaims(p, q) && OneNewestOwner(p)
    ensures HearAll(a, p).owner == HearAll(b, q).owner && Seen(HearAll(a, p)) == Seen(HearAll(b, q))
    ensures exists c :: Newest(p, c) && HearAll(a, p).owner == c.owner && Seen(HearAll(a, p)) == c.epoch
  {
    assert p[0] in q;
    var c := OutcomeIsNewest(a, p);
    var d := OutcomeIsNewest(b, q);
    assert Newest(p, d);
  }

  lemma {:induction false} HearConcat(b: Belief, p: seq<Claim>, q: seq<Claim>)
    ensures HearAll(b, p + q) == HearAll(HearAll(b, p), q)
    decreases |p|
  {
    if p == [] {
      assert p + q == q;
    } else {
      assert (p + q)[1..] == p[1..] + q;
      HearConcat(Hear(b, p[0]), p[1..], q);
    }
  }

  /** A newest claim wins when it is heard first and last. */
  lemma FirstAndLastWins(b: Belief, claims: seq<Claim>, c: Claim)
    requires Fresh(b) && Newest(claims, c)
    ensures HearAll(b, [c] + claims + [c]).owner == c.owner
    ensures SameClaims(claims, [c] + claims + [c])
  {
    HearConcat(b, [c] + claims, [c]);
    HearConcat(b, [c], claims);
    var first := Hear(b, c);
    assert HearAll(b, [c]) == HearAll(first, []) == first;
    if c.epoch > 0 {
      OldClaimsIgnored(first, claims);
      OldClaimsIgnored(first, [c]);
    } else {
      var after := HearAll(first, claims);
      var d := OutcomeIsNewest(first, claims);
      assert d in claims && d.epoch == 0;
      assert HearAll(after, [c]) == HearAll(Hear(after, c), []);
    }
  }

  /** Agreement in every order holds if and only if the newest claims name one owner. */
  lemma ConvergesIff(b: Belief, claims: seq<Claim>)
    requires Fresh(b) && claims != []
    ensures (forall p, q | SameClaims(claims, p) && SameClaims(claims, q) :: HearAll(b, p).owner == HearAll(b, q).owner)
       <==> OneNewestOwner(claims)
  {
    if OneNewestOwner(claims) {
      forall p, q | SameClaims(claims, p) && SameClaims(claims, q)
        ensures HearAll(b, p).owner == HearAll(b, q).owner
      {
        Converges(b, b, claims, p);
        Converges(b, b, claims, q);
      }
    } else {
      var c, d :| c in claims && d in claims && Newest(claims, c) && Newest(claims, d) && c.owner != d.owner;
      FirstAndLastWins(b, claims, c);
      FirstAndLastWins(b, claims, d);
    }
  }

  datatype Role = Master | Slave

  /** The parts of a node's gossip entry that concern slots and roles. */
  datatype NodeInfo = NodeInfo(id: NodeId, masterFlag: bool, replicaFlag: bool, masterID: NodeId,
                               configEpoch: nat, bitmap: seq<SlotBitmap.Byte>)

  /** Roles are taken from a node's own report only; an unknown node counts as a master. */
  function RoleAfter(roles: map<NodeId, Role>, info: NodeInfo, direct: bool): Role {
    if direct && info.masterFlag then Master
    else if direct && info.replicaFlag then Slave
    else if info.id in roles then roles[info.id] else Master
  }

  // ---------------------------------------------------------------------------
  // Runs of gossip entries

  /** An entry as it arrives: about its sender itself, or passed on by another node. */
  datatype Report = Report(info: NodeInfo, direct: bool)

  type Roles = map<NodeId, Role>

  function RolesAfter(roles: Roles, e: Report): Roles {
    roles[e.info.id := RoleAfter(roles, e.info, e.direct)]
  }

  function RolesAfterAll(roles: Roles, es: seq<Report>): Roles
    decreases |es|
  {
    if es == [] then roles else RolesAfterAll(RolesAfter(roles, es[0]), es[1..])
  }

  predicate Claims(e: Report, s: nat) { s in SlotBitmap.Decode(e.info.bitmap) }

  function ClaimOf(e: Report): Claim { Claim(e.info.id, e.info.configEpoch) }

  function HeardOf(roles: Roles, e: Report, s: nat): seq<Claim> {
    if RoleAfter(roles, e.info, e.direct) == Master && Claims(e, s) then [ClaimOf(e)] else []
  }

  /** The claims on a slot that a run of entries makes a node hear. */
  function Heard(roles: Roles, es: seq<Report>, s: nat): seq<Claim>
    decreases |es|
  {
    if es == [] then [] else HeardOf(roles, es[0], s) + Heard(RolesAfter(roles, es[0]), es[1..], s)
  }

  lemma {:induction false} HeardConcat(roles: Roles, p: seq<Report>, q: seq<Report>, s: nat)
    ensures Heard(roles, p + q, s) == Heard(roles, p, s) + Heard(RolesAfterAll(roles, p), q, s)
    ensures RolesAfterAll(roles, p + q) == RolesAfterAll(RolesAfterAll(roles, p), q)
    decreases |p|
  {
    hide HeardOf, RolesAfter;
    if p == [] {
      assert p + q == q;
    } else {
      assert (p + q)[1..] == p[1..] + q;
      HeardConcat(RolesAfter(roles, p[0]), p[1..], q, s);
    }
  }

  lemma HeardSnoc(roles: Roles, p: seq<Report>, e: Report, s: nat)
    ensures Heard(roles, p + [e], s) == Heard(roles, p, s) + HeardOf(RolesAfterAll(roles, p), e, s)
    ensures RolesAfterAll(roles, p + [e]) == RolesAfter(RolesAfterAll(roles, p), e)
  {
    hide HeardOf, RolesAfter;
    var after := RolesAfterAll(roles, p);
    HeardConcat(roles, p, [e], s);
    assert [e][1..] == [];
    assert Heard(after, [e], s) == HeardOf(after, e, s) + Heard(RolesAfter(after, e), [], s);
    assert RolesAfterAll(after, [e]) == RolesAfterAll(RolesAfter(after, e), []);
  }

  lemma HearHeard(b: Belief, roles: Roles, e: Report, s: nat)
    ensures HearAll(b, HeardOf(roles, e, s)) ==
            if RoleAfter(roles, e.info, e.direct) == Master && Claims(e, s) then Hear(b, ClaimOf(e)) else b
  {
    var c := ClaimOf(e);
    assert [c][1..] == [];
    assert HearAll(b, [c]) == HearAll(Hear(b, c), []);
  }

  lemma NothingHeard(b: Belief, roles: Roles, s: nat)
    ensures HearAll(b, Heard(roles, [], s)) == b && RolesAfterAll(roles, []) == roles
  {
  }

  lemma HearStep(b: Belief, roles: Roles, p: seq<Report>, e: Report, s: nat)
    ensures var before := HearAll(b, Heard(roles, p, s));
            HearAll(b, Heard(roles, p + [e], s)) ==
            if RoleAfter(RolesAfterAll(roles, p), e.info, e.direct) == Master && Claims(e, s)
            then Hear(before, ClaimOf(e)) else before
    ensures RolesAfterAll(roles, p + [e]) == RolesAfter(RolesAfterAll(roles, p), e)
  {
    hide HeardOf, Heard, RolesAfterAll, Hear, HearAll, Claims;
    HeardSnoc(roles, p, e, s);
    HearConcat(b, Heard(roles, p, s), HeardOf(RolesAfterAll(roles, p), e, s));
    HearHeard(HearAll(b, Heard(roles, p, s)), RolesAfterAll(roles, p), e, s);
  }

  /** A node reports that it is a replica, or that it is a master. */
  predicate ReplicaReport(e: Report) { e.direct && !e.info.masterFlag && e.info.replicaFlag }

  predicate MasterReport(e: Report) { e.direct && e.info.masterFlag }

  predicate Reported(es: seq<Report>, id: NodeId) {
    exists e :: e in es && ReplicaReport(e) && e.info.id == id
  }

  /** An entry that is heard whatever came before it, or only if no replica report of its sender did. */
  predicate Sure(es: seq<Report>, e: Report) {
    !ReplicaReport(e) && (MasterReport(e) || !Reported(es, e.info.id))
  }

  predicate Unsure(es: seq<Report>, e: Report) {
    !ReplicaReport(e) && !MasterReport(e) && Reported(es, e.info.id)
  }

  /** Replicas are known only for what was reported. */
  predicate KnownFrom(roles: Roles, es: seq<Report>) {
    forall id | id in roles && roles[id] == Slave :: Reported(es, id)
  }

  lemma KnownStep(roles: Roles, es: seq<Report>, e: Report)
    requires KnownFrom(roles, es) && e in es
    ensures KnownFrom(RolesAfter(roles, e), es)
  {
  }

  /** Only claims of entries that report no replica are heard, and those of sure entries always are. */
  lemma {:induction false} HeardBounds(roles: Roles, es: seq<Report>, p: seq<Report>, s: nat)
    requires KnownFrom(roles, es) && forall e | e in p :: e in es
    ensures forall c | c in Heard(roles, p, s) ::
              exists e :: e in p && !ReplicaReport(e) && Claims(e, s) && c == ClaimOf(e)
    ensures forall e | e in p && Sure(es, e) && Claims(e, s) :: ClaimOf(e) in Heard(roles, p, s)
    decreases |p|
  {
    hide Claims, KnownFrom;
    if p != [] {
      var e0 := p[0];
      KnownStep(roles, es, e0);
      HeardBounds(RolesAfter(roles, e0), es, p[1..], s);
      SureIsHeard(roles, es, e0);
      assert forall e | e in p :: e == e0 || e in p[1..];
    }
  }

  lemma SureIsHeard(roles: Roles, es: seq<Report>, e: Report)
    requires KnownFrom(roles, es)
    ensures Sure(es, e) ==> RoleAfter(roles, e.info, e.direct) == Master
    ensures ReplicaReport(e) ==> RoleAfter(roles, e.info, e.direct) == Slave
  {
  }

  predicate SameReports(p: seq<Report>, q: seq<Report>) {
    (forall e | e in p :: e in q) && forall e | e in q :: e in p
  }

  lemma SameReportsSame(p: seq<Report>, q: seq<Report>, id: NodeId)
    requires SameReports(p, q)
    ensures Reported(p, id) <==> Reported(q, id)
  {
  }

  /** All claims on a slot, in order. */
  function ClaimsOn(es: seq<Report>, s: nat): seq<Claim> {
    if es == [] then [] else (if Claims(es[0], s) then [ClaimOf(es[0])] else []) + ClaimsOn(es[1..], s)
  }

  /** Without a replica report, and without a sender known as a replica, exactly the claims are heard. */
  lemma {:induction false} AllClaimsHeard(roles: Roles, es: seq<Report>, s: nat)
    requires (forall id | id in roles :: roles[id] == Master) && forall e | e in es :: !ReplicaReport(e)
    ensures Heard(roles, es, s) == ClaimsOn(es, s)
    decreases |es|
  {
    if es != [] {
      assert !ReplicaReport(es[0]);
      AllClaimsHeard(RolesAfter(roles, es[0]), es[1..], s);
    }
  }

  lemma {:induction false} ClaimsOnExact(es: seq<Report>, s: nat)
    ensures forall c :: c in ClaimsOn(es, s) <==> exists e :: e in es && Claims(e, s) && c == ClaimOf(e)
  {
    hide Claims;
    if es != [] {
      ClaimsOnExact(es[1..], s);
      assert forall e :: e in es <==> e == es[0] || e in es[1..];
    }
  }

  /**
   * Among masters: two nodes that know of no replica and process the same entries, none of them a replica report,
   * in any order and with any repetition, end with the same owner and epoch, if the newest claims name one owner.
   */
  lemma EntriesConverge(a: Belief, b: Belief, known: Roles, known': Roles, p: seq<Report>, q: seq<Report>, s: nat)
    requires Fresh(a) && Fresh(b) && SameReports(p, q) && forall e | e in p :: !ReplicaReport(e)
    requires (forall id | id in known :: known[id] == Master) && forall id | id in known' :: known'[id] == Master
    requires ClaimsOn(p, s) != [] && OneNewestOwner(ClaimsOn(p, s))
    ensures var x, y := HearAll(a, Heard(known, p, s)), HearAll(b, Heard(known', q, s));
            x.owner == y.owner && Seen(x) == Seen(y)
  {
    hide Claims, HearAll;
    AllClaimsHeard(known, p, s);
    AllClaimsHeard(known', q, s);
    ClaimsOnExact(p, s);
    ClaimsOnExact(q, s);
    Converges(a, b, ClaimsOn(p, s), ClaimsOn(q, s));
  }

  /** The newest of the sure claims on a slot. */
  predicate NewestSure(es: seq<Report>, s: nat, d: Report) {
    && d in es && Sure(es, d) && Claims(d, s)
    && forall e | e in es && Sure(es, e) && Claims(e, s) :: e.info.configEpoch <= d.info.configEpoch
  }

  predicate SomeSure(es: seq<Report>, s: nat) {
    exists e :: e in es && Sure(es, e) && Claims(e, s)
  }

  /** From the newest sure claim on, all claims name one owner. */
  ghost predicate OneOwnerFromSure(es: seq<Report>, s: nat) {
    forall d, e | NewestSure(es, s, d) && e in es && !ReplicaReport(e) && Claims(e, s)
                  && e.info.configEpoch >= d.info.configEpoch :: e.info.id == d.info.id
  }

  /** Without a sure claim, no claim names another owner than the one believed in. */
  predicate NoOtherOwner(es: seq<Report>, s: nat, owner: NodeId) {
    forall e | e in es && !ReplicaReport(e) && Claims(e, s) :: e.info.id == owner
  }

  ghost predicate Agreed(es: seq<Report>, s: nat, owner: NodeId) {
    if SomeSure(es, s) then OneOwnerFromSure(es, s) else NoOtherOwner(es, s, owner)
  }

  /** What a new node believes after a run of entries. */
  function Outcome(b: Belief, es: seq<Report>, s: nat): Belief { HearAll(b, Heard(map[], es, s)) }

  predicate Dated(es: seq<Report>, s: nat) {
    forall e | e in es && Claims(e, s) :: e.info.configEpoch > 0
  }

  lemma {:induction false} NewestSureExists(es: seq<Report>, s: nat, p: seq<Report>) returns (d: Report)
    requires exists e :: e in p && e in es && Sure(es, e) && Claims(e, s)
    ensures d in p && d in es && Sure(es, d) && Claims(d, s)
    ensures forall e | e in p && e in es && Sure(es, e) && Claims(e, s) :: e.info.configEpoch <= d.info.configEpoch
    decreases |p|
  {
    hide Claims, Sure;
    var e0, rest := p[0], p[1..];
    assert forall e | e in p :: e == e0 || e in rest;
    if exists e :: e in rest && e in es && Sure(es, e) && Claims(e, s) {
      d := NewestSureExists(es, s, rest);
      if e0 in es && Sure(es, e0) && Claims(e0, s) && e0.info.configEpoch > d.info.configEpoch {
        d := e0;
      }
    } else {
      d := e0;
    }
  }

  lemma {:induction false} OwnerStays(b: Belief, claims: seq<Claim>)
    requires forall c | c in claims :: c.owner == b.owner
    ensures HearAll(b, claims).owner == b.owner
    decreases |claims|
  {
    if claims != [] {
      OwnerStays(Hear(b, claims[0]), claims[1..]);
    }
  }

  /** If the claims agree, the outcome of every order names that owner. */
  lemma AgreedOutcome(b: Belief, es: seq<Report>, p: seq<Report>, s: nat) returns (owner: NodeId)
    requires Fresh(b) && SameReports(es, p) && Agreed(es, s, b.owner)
    ensures Outcome(b, p, s).owner == owner
    ensures owner == b.owner || SomeSure(es, s)
    ensures SomeSure(es, s) ==> forall d | NewestSure(es, s, d) :: d.info.id == owner
  {
    hide Claims, Sure;
    HeardBounds(map[], es, p, s);
    var heard := Heard(map[], p, s);
    if SomeSure(es, s) {
      var d := NewestSureExists(es, s, es);
      assert NewestSure(es, s, d);
      assert ClaimOf(d) in heard;
      var c := OutcomeIsNewest(b, heard);
      owner := c.owner;
      assert c.epoch >= d.info.configEpoch;
    } else {
      owner := b.owner;
      OwnerStays(b, heard);
    }
  }

  // Two orders that disagree

  function Select(es: seq<Report>, wanted: Report -> bool): seq<Report> {
    if es == [] then [] else (if wanted(es[0]) then [es[0]] else []) + Select(es[1..], wanted)
  }

  lemma {:induction false} SelectExact(es: seq<Report>, wanted: Report -> bool)
    ensures forall e :: e in Select(es, wanted) <==> e in es && wanted(e)
  {
    if es != [] {
      SelectExact(es[1..], wanted);
      assert forall e :: e in es <==> e == es[0] || e in es[1..];
    }
  }

  ghost predicate Slaves(roles: Roles, es: seq<Report>) {
    forall id | Reported(es, id) :: id in roles && roles[id] == Slave
  }

  lemma {:induction false} ReportsUnheard(roles: Roles, p: seq<Report>, s: nat)
    requires forall e | e in p :: ReplicaReport(e)
    ensures Heard(roles, p, s) == []
    ensures forall id | id in roles && roles[id] == Slave ::
              id in RolesAfterAll(roles, p) && RolesAfterAll(roles, p)[id] == Slave
    ensures forall e | e in p :: e.info.id in RolesAfterAll(roles, p) && RolesAfterAll(roles, p)[e.info.id] == Slave
    decreases |p|
  {
    if p != [] {
      assert ReplicaReport(p[0]);
      ReportsUnheard(RolesAfter(roles, p[0]), p[1..], s);
      assert forall e | e in p :: e == p[0] || e in p[1..];
    }
  }

  lemma {:induction false} UnsureUnheard(roles: Roles, es: seq<Report>, p: seq<Report>, s: nat)
    requires Slaves(roles, es) && forall e | e in p :: Unsure(es, e)
    ensures Heard(roles, p, s) == []
    decreases |p|
  {
    if p != [] {
      assert Unsure(es, p[0]);
      assert RolesAfter(roles, p[0]) == roles;
      UnsureUnheard(roles, es, p[1..], s);
    }
  }

  /** Replica reports first, then unsure entries: nothing is heard. Then the sure ones. */
  function Quietly(es: seq<Report>, first: seq<Report>): seq<Report> {
    Select(es, e => ReplicaReport(e)) + Select(es, e => Unsure(es, e)) + (first + Select(es, e => Sure(es, e)))
  }

  lemma QuietlySame(es: seq<Report>, first: seq<Report>)
    requires forall e | e in first :: e in es
    ensures SameReports(es, Quietly(es, first))
  {
    SelectExact(es, e => ReplicaReport(e));
    SelectExact(es, e => Unsure(es, e));
    SelectExact(es, e => Sure(es, e));
    assert forall e :: ReplicaReport(e) || Unsure(es, e) || Sure(es, e);
  }

  lemma QuietlyHeard(roles: Roles, es: seq<Report>, first: seq<Report>, s: nat) returns (roles': Roles)
    ensures Heard(roles, Quietly(es, first), s) == Heard(roles', first + Select(es, e => Sure(es, e)), s)
    ensures KnownFrom(roles, es) ==> KnownFrom(roles', es)
  {
    var reports, unsure := Select(es, e => ReplicaReport(e)), Select(es, e => Unsure(es, e));
    var rest := first + Select(es, e => Sure(es, e));
    SelectExact(es, e => ReplicaReport(e));
    SelectExact(es, e => Unsure(es, e));
    hide Select;
    HeardConcat(roles, reports + unsure, rest, s);
    HeardConcat(roles, reports, unsure, s);
    ReportsUnheard(roles, reports, s);
    var mid := RolesAfterAll(roles, reports);
    forall id | Reported(es, id) ensures id in mid && mid[id] == Slave {
      var e :| e in es && ReplicaReport(e) && e.info.id == id;
      assert e in reports;
    }
    UnsureUnheard(mid, es, unsure, s);
    roles' := RolesAfterAll(roles, reports + unsure);
    if KnownFrom(roles, es) {
      KnownAll(roles, es, reports + unsure);
    }
    assert Heard(roles, Quietly(es, first), s) == Heard(roles', rest, s);
  }

  lemma {:induction false} KnownAll(roles: Roles, es: seq<Report>, p: seq<Report>)
    requires KnownFrom(roles, es) && forall e | e in p :: e in es
    ensures KnownFrom(RolesAfterAll(roles, p), es)
    decreases |p|
  {
    hide KnownFrom;
    if p != [] {
      KnownStep(roles, es, p[0]);
      KnownAll(RolesAfter(roles, p[0]), es, p[1..]);
    }
  }

  /** Heard first, a claim no other is newer than decides. */
  lemma FirstDecides(b: Belief, c: Claim, rest: seq<Claim>)
    requires Fresh(b) && c.epoch > 0 && forall d | d in rest :: d.epoch <= c.epoch
    ensures HearAll(b, [c] + rest).owner == c.owner
  {
    assert ([c] + rest)[1..] == rest;
    OldClaimsIgnored(Hear(b, c), rest);
  }

  /** An order in which a sure claim, which no sure one is newer than, decides. */
  lemma SureDecides(b: Belief, es: seq<Report>, s: nat, d: Report)
    requires Fresh(b) && Dated(es, s) && NewestSure(es, s, d)
    ensures SameReports(es, Quietly(es, [d])) && Outcome(b, Quietly(es, [d]), s).owner == d.info.id
  {
    QuietlySame(es, [d]);
    var roles' := QuietlyHeard(map[], es, [d], s);
    var sure := Select(es, e => Sure(es, e));
    SelectExact(es, e => Sure(es, e));
    hide Select, Quietly, Claims, Sure;
    FirstHeard(b, roles', es, d, sure, s);
  }

  lemma FirstHeard(b: Belief, roles: Roles, es: seq<Report>, d: Report, rest: seq<Report>, s: nat)
    requires Fresh(b) && KnownFrom(roles, es) && d in es && Claims(d, s) && d.info.configEpoch > 0
    requires RoleAfter(roles, d.info, d.direct) == Master
    requires forall e | e in rest :: e in es
    requires forall e | e in rest && !ReplicaReport(e) && Claims(e, s) :: e.info.configEpoch <= d.info.configEpoch
    ensures HearAll(b, Heard(roles, [d] + rest, s)).owner == d.info.id
  {
    hide Claims;
    assert ([d] + rest)[1..] == rest;
    KnownStep(roles, es, d);
    HeardBounds(RolesAfter(roles, d), es, rest, s);
    FirstDecides(b, ClaimOf(d), Heard(RolesAfter(roles, d), rest, s));
  }

  /** An order in which an unsure claim, which no sure one is newer than, decides: it comes before everything else. */
  lemma UnsureDecides(b: Belief, es: seq<Report>, s: nat, e: Report)
    requires Fresh(b) && Dated(es, s) && e in es && !ReplicaReport(e) && Claims(e, s)
    requires forall d | d in es && Sure(es, d) && Claims(d, s) :: d.info.configEpoch <= e.info.configEpoch
    ensures SameReports(es, [e] + Quietly(es, [])) && Outcome(b, [e] + Quietly(es, []), s).owner == e.info.id
  {
    hide Select, Quietly, Claims, Sure, HearAll, Heard, KnownFrom;
    QuietlySame(es, []);
    var quiet, roles := Quietly(es, []), RolesAfter(map[], e);
    assert KnownFrom(map[], es) by { NoneKnown(es); }
    KnownStep(map[], es, e);
    var later := QuietClaims(roles, es, s, e.info.configEpoch);
    FirstDecides(b, ClaimOf(e), later);
    HeardFirst(e, quiet, s);
  }

  lemma NoneKnown(es: seq<Report>)
    ensures KnownFrom(map[], es)
  {
  }

  /** What is heard in such an order is no newer than the sure claims. */
  lemma QuietClaims(roles: Roles, es: seq<Report>, s: nat, epoch: nat) returns (later: seq<Claim>)
    requires KnownFrom(roles, es) && forall d | d in es && Sure(es, d) && Claims(d, s) :: d.info.configEpoch <= epoch
    ensures later == Heard(roles, Quietly(es, []), s) && forall c | c in later :: c.epoch <= epoch
  {
    var roles' := QuietlyHeard(roles, es, [], s);
    var sure := Select(es, e => Sure(es, e));
    SelectExact(es, e => Sure(es, e));
    hide Select, Quietly, Claims, Sure, Heard, KnownFrom;
    assert [] + sure == sure;
    HeardBounds(roles', es, sure, s);
    later := Heard(roles', sure, s);
  }

  /** A claim that comes first is heard, unless it is of a replica's own report. */
  lemma HeardFirst(e: Report, rest: seq<Report>, s: nat)
    requires !ReplicaReport(e) && Claims(e, s)
    ensures Heard(map[], [e] + rest, s) == [ClaimOf(e)] + Heard(RolesAfter(map[], e), rest, s)
  {
    hide Claims;
    assert ([e] + rest)[1..] == rest;
  }

  lemma UnheardKeepsOwner(b: Belief, es: seq<Report>, s: nat)
    requires !SomeSure(es, s)
    ensures SameReports(es, Quietly(es, [])) && Outcome(b, Quietly(es, []), s) == b
  {
    QuietlySame(es, []);
    var roles' := QuietlyHeard(map[], es, [], s);
    var sure := Select(es, e => Sure(es, e));
    SelectExact(es, e => Sure(es, e));
    hide Select, Quietly, Claims, Sure;
    assert [] + sure == sure;
    NoClaimsUnheard(roles', sure, s);
  }

  lemma {:induction false} NoClaimsUnheard(roles: Roles, p: seq<Report>, s: nat)
    requires forall e | e in p :: !Claims(e, s)
    ensures Heard(roles, p, s) == []
    decreases |p|
  {
    hide Claims;
    if p != [] {
      assert !Claims(p[0], s);
      NoClaimsUnheard(RolesAfter(roles, p[0]), p[1..], s);
    }
  }

  /**
   * New nodes that process the same entries, in any order and with any repetition, agree on a slot's owner if and
   * only if, from the newest sure claim on, all claims name one owner; without a sure claim, if and only if no
   * claim names another owner than the one believed in.
   */
  lemma EntriesConvergeIff(b: Belief, es: seq<Report>, s: nat)
    requires Fresh(b) && Dated(es, s)
    ensures (forall p, q | SameReports(es, p) && SameReports(es, q) :: Outcome(b, p, s).owner == Outcome(b, q, s).owner)
       <==> Agreed(es, s, b.owner)
  {
    hide Outcome, Quietly, Claims, Sure;
    if Agreed(es, s, b.owner) {
      forall p, q | SameReports(es, p) && SameReports(es, q)
        ensures Outcome(b, p, s).owner == Outcome(b, q, s).owner
      {
        AgreedAlike(b, es, p, q, s);
      }
    } else {
      Disagree(b, es, s);
    }
  }

  lemma AgreedAlike(b: Belief, es: seq<Report>, p: seq<Report>, q: seq<Report>, s: nat)
    requires Fresh(b) && SameReports(es, p) && SameReports(es, q) && Agreed(es, s, b.owner)
    ensures Outcome(b, p, s).owner == Outcome(b, q, s).owner
  {
    hide Outcome, Claims, Sure;
    var x := AgreedOutcome(b, es, p, s);
    var y := AgreedOutcome(b, es, q, s);
    if SomeSure(es, s) {
      var d := NewestSureExists(es, s, es);
      assert NewestSure(es, s, d);
    }
  }

  lemma Disagree(b: Belief, es: seq<Report>, s: nat)
    requires Fresh(b) && Dated(es, s) && !Agreed(es, s, b.owner)
    ensures exists p, q :: SameReports(es, p) && SameReports(es, q) && Outcome(b, p, s).owner != Outcome(b, q, s).owner
  {
    hide Outcome, Quietly, Claims, Sure, SameReports;
    if SomeSure(es, s) {
      var d, e :| NewestSure(es, s, d) && e in es && !ReplicaReport(e) && Claims(e, s)
                  && e.info.configEpoch >= d.info.configEpoch && e.info.id != d.info.id;
      SureDecides(b, es, s, d);
      UnsureDecides(b, es, s, e);
    } else {
      var e :| e in es && !ReplicaReport(e) && Claims(e, s) && e.info.id != b.owner;
      UnheardKeepsOwner(b, es, s);
      UnsureDecides(b, es, s, e);
    }
  }

  /** One second-hand claim and the claimant's report that it is a replica: the order decides. */
  lemma ReplicaReportDecides(slot: Slot)
    requires slot < SLOT_COUNT
    ensures var bitmap := SlotBitmap.Encode([slot]);
            var claim := Report(NodeInfo("a", true, false, "", 1, bitmap), false);
            var report := Report(NodeInfo("a", false, true, "m", 1, []), true);
            var nothing := Belief("", 0, 0);
            Outcome(nothing, [claim, report], slot).owner == "a" && Outcome(nothing, [report, claim], slot).owner == ""
  {
    var bitmap := SlotBitmap.Encode([slot]);
    SlotBitmap.DecodeEncode([slot]);
    assert slot in [slot];
    hide SlotBitmap.Decode, SlotBitmap.Encode;
    var claim := Report(NodeInfo("a", true, false, "", 1, bitmap), false);
    var report := Report(NodeInfo("a", false, true, "m", 1, []), true);
    HeardSnoc(map[], [claim], report, slot);
    HeardSnoc(map[], [], claim, slot);
    HeardSnoc(map[], [report], claim, slot);
    HeardSnoc(map[], [], report, slot);
    assert [claim] + [report] == [claim, report] && [report] + [claim] == [report, claim];
    assert [] + [claim] == [claim] && [] + [report] == [report];
    var nothing := Belief("", 0, 0);
    HearHeard(nothing, map[], claim, slot);
  }

  function Registered(info: SlotInfo, n: NodeId): SlotInfo {
    if n == "" then info else info.(replicas := WithReplica(info.replicas, n))
  }

  /** A slot after a claim: a new owner starts without replicas and without a migration under way. */
  function Claimed(info: SlotInfo, recorded: nat, c: Claim): SlotInfo {
    if CanApply(Belief(info.nodeID, recorded, info.configEpoch), c.epoch) && info.nodeID != c.owner
    then info.(nodeID := c.owner, primaryID := c.owner, replicas := [], state := Normal)
    else info
  }

  /** A slot after a whole gossip entry: the reported replica is registered first, then the claim is heard. */
  function Processed(was: SlotInfo, recorded: nat, info: NodeInfo, direct: bool, claimed: bool): SlotInfo {
    var r := if direct && info.masterID != "" && was.nodeID == info.masterID then Registered(was, info.id) else was;
    if claimed then Claimed(r, recorded, Claim(info.id, info.configEpoch)) else r
  }

  class GossipState {
    const self: NodeId
    const slots: SlotManager
    var roles: map<NodeId, Role>
    var slotEpochs: map<Slot, nat>

    constructor (self: NodeId, slots: SlotManager)
      ensures this.self == self && this.slots == slots && roles == map[] && slotEpochs == map[]
    {
      this.self, this.slots, roles, slotEpochs := self, slots, map[], map[];
    }

    function RecordedOf(s: Slot): nat
      reads this
    {
      if s in slotEpochs then slotEpochs[s] else 0
    }

    function BeliefOf(s: Slot): Belief
      requires s < slots.slots.Length
      reads this, slots, slots.slots
    {
      Belief(slots.slots[s].nodeID, RecordedOf(s), slots.slots[s].configEpoch)
    }

    method RecordSlotEpoch(slot: Slot, epoch: nat)
      modifies `slotEpochs
      ensures slotEpochs == if slot in old(slotEpochs) && epoch < old(slotEpochs)[slot] then old(slotEpochs)
                            else old(slotEpochs)[slot := epoch]
    {
      if epoch >= (if slot in slotEpochs then slotEpochs[slot] else 0) {
        slotEpochs := slotEpochs[slot := epoch];
      }
    }

    /** Registers a replica for exactly the slots its master owns here, and changes nothing else. */
    method RegisterReplica(masterID: NodeId, replicaID: NodeId)
      requires slots.Valid() && masterID != ""
      modifies slots.slots
      ensures slots.Valid()
      ensures forall s: Slot | s < SLOT_COUNT ::
                slots.slots[s] == if old(slots.slots[s]).nodeID == masterID
                                  then Registered(old(slots.slots[s]), replicaID) else old(slots.slots[s])
      ensures forall s: Slot | s < SLOT_COUNT :: BeliefOf(s) == old(BeliefOf(s))
    {
      hide WithReplica;
      var listed := if masterID in slots.nodeSlots then slots.nodeSlots[masterID] else [];
      ghost var start := slots.View();
      assert Indexed(start, masterID) && listed == Owned(start, masterID);
      for i := 0 to |listed|
        invariant slots.Valid()
        invariant forall s: Slot | s < SLOT_COUNT ::
                    slots.slots[s] == if s in listed[..i] then Registered(start.slots[s], replicaID) else start.slots[s]
      {
        assert listed[i] in Owned(start, masterID);
        assert listed[i] !in listed[..i] && start.slots[listed[i]].nodeID == masterID;
        slots.AddSlotReplica(listed[i], replicaID);
        assert forall s: Slot | s < SLOT_COUNT :: slots.slots[s] == slots.View().slots[s];
        assert listed[..i + 1] == listed[..i] + [listed[i]];
      }
      assert listed[..|listed|] == listed;
    }

    /** One claimed slot. */
    method ApplyClaim(slot: Slot, c: Claim)
      requires slots.Valid() && slot < SLOT_COUNT
      modifies this, slots, slots.slots
      ensures slots.Valid() && roles == old(roles)
      ensures forall s: Slot | s < SLOT_COUNT ::
                BeliefOf(s) == if s == slot then Hear(old(BeliefOf(s)), c) else old(BeliefOf(s))
      ensures forall s: Slot | s < SLOT_COUNT ::
                slots.slots[s] == if s == slot then Claimed(old(slots.slots[s]), old(RecordedOf(s)), c)
                                  else old(slots.slots[s])
    {
      if !CanApply(BeliefOf(slot), c.epoch) {
        return;
      }
      if slots.slots[slot].nodeID != c.owner {
        ghost var before := slots.View();
        var ok := slots.AssignSlot(slot, c.owner);
        assert forall s: Slot | s < SLOT_COUNT ::
          slots.slots[s] == slots.View().slots[s] && (s != slot ==> slots.slots[s] == before.slots[s]);
      }
      RecordSlotEpoch(slot, c.epoch);
    }

    /** The claimed slots, one after the other. */
    method ApplyClaims(claimed: seq<nat>, c: Claim)
      requires slots.Valid() && SlotBitmap.Below(claimed, SLOT_COUNT) && SlotBitmap.Ascending(claimed)
      modifies this, slots, slots.slots
      ensures slots.Valid() && roles == old(roles)
      ensures forall s: Slot | s < SLOT_COUNT ::
                BeliefOf(s) == if s in claimed then Hear(old(BeliefOf(s)), c) else old(BeliefOf(s))
      ensures forall s: Slot | s < SLOT_COUNT ::
                slots.slots[s] == if s in claimed then Claimed(old(slots.slots[s]), old(RecordedOf(s)), c)
                                  else old(slots.slots[s])
    {
      hide Hear, Claimed;
      for i := 0 to |claimed|
        invariant slots.Valid() && roles == old(roles)
        invariant forall s: Slot | s < SLOT_COUNT ::
                    BeliefOf(s) == if s in claimed[..i] then Hear(old(BeliefOf(s)), c) else old(BeliefOf(s))
        invariant forall s: Slot | s < SLOT_COUNT ::
                    slots.slots[s] == if s in claimed[..i] then Claimed(old(slots.slots[s]), old(RecordedOf(s)), c)
                                      else old(slots.slots[s])
      {
        assert claimed[i] !in claimed[..i];
        ApplyClaim(claimed[i], c);
        assert claimed[..i + 1] == claimed[..i] + [claimed[i]];
      }
      assert claimed[..|claimed|] == claimed;
    }

    /** Processing one gossip entry hears its claim on exactly the slots of its bitmap, if it is a master's. */
    method ProcessNodeInfo(info: NodeInfo, direct: bool)
      requires slots.Valid()
      modifies this, slots, slots.slots
      ensures slots.Valid()
      ensures roles == old(roles)[info.id := RoleAfter(old(roles), info, direct)]
      ensures forall s: Slot | s < SLOT_COUNT ::
                BeliefOf(s) == if RoleAfter(old(roles), info, direct) == Master && s in SlotBitmap.Decode(info.bitmap)
                               then Hear(old(BeliefOf(s)), Claim(info.id, info.configEpoch)) else old(BeliefOf(s))
      ensures forall s: Slot | s < SLOT_COUNT ::
                var claimed := RoleAfter(old(roles), info, direct) == Master && s in SlotBitmap.Decode(info.bitmap);
                slots.slots[s] == Processed(old(slots.slots[s]), old(RecordedOf(s)), info, direct, claimed)
    {
      hide Hear, SlotBitmap.Decode, Registered, Claimed;
      var role := RoleAfter(roles, info, direct);
      roles := roles[info.id := role];
      if direct && info.masterID != "" {
        RegisterReplica(info.masterID, info.id);
      }
      if role == Master {
        var claimed := SlotBitmap.BytesToSlots(info.bitmap);
        SlotBitmap.DecodeExact(info.bitmap);
        ApplyClaims(claimed, Claim(info.id, info.configEpoch));
      }
    }

    /** A run of entries: each slot's belief is the outcome of the claims heard in it. */
    method ProcessAll(es: seq<Report>)
      requires slots.Valid()
      modifies this, slots, slots.slots
      ensures slots.Valid() && roles == RolesAfterAll(old(roles), es)
      ensures forall s: Slot | s < SLOT_COUNT :: BeliefOf(s) == HearAll(old(BeliefOf(s)), Heard(old(roles), es, s))
    {
      hide Hear, Heard, HeardOf, RolesAfterAll, HearAll, SlotBitmap.Decode, Processed;
      assert es[..0] == [];
      NothingHeard(BeliefOf(0), roles, 0);
      forall s: Slot | s < SLOT_COUNT ensures BeliefOf(s) == HearAll(BeliefOf(s), Heard(roles, es[..0], s)) {
        NothingHeard(BeliefOf(s), roles, s);
      }
      for i := 0 to |es|
        invariant slots.Valid() && roles == RolesAfterAll(old(roles), es[..i])
        invariant forall s: Slot | s < SLOT_COUNT ::
                    BeliefOf(s) == HearAll(old(BeliefOf(s)), Heard(old(roles), es[..i], s))
      {
        assert es[..i + 1] == es[..i] + [es[i]];
        ProcessNodeInfo(es[i].info, es[i].direct);
        forall s: Slot | s < SLOT_COUNT
          ensures BeliefOf(s) == HearAll(old(BeliefOf(s)), Heard(old(roles), es[..i + 1], s))
        {
          HearStep(old(BeliefOf(s)), old(roles), es[..i], es[i], s);
        }
        HeardSnoc(old(roles), es[..i], es[i], 0);
      }
      assert es[..|es|] == es;
    }
  }
}
