/** The table-driven state machine engine (task/src/fsm.c). */
module Fsm {
  import opened Basics

  const STATE_ANY := -0xFFFF
  const STATE_CURRENT := -0xFFF0
  const ACTION_ANY := -0xFFFF

  /** One transition. Guards and hooks belong to the caller; what they answer is an input of
      each call. */
  datatype Entry = Entry(from: int, action: int, to: int)

  predicate Sentinel(s: int) { s == STATE_ANY || s == STATE_CURRENT }

  predicate Matches(e: Entry, state: int, action: int) {
    && (Sentinel(e.from) || e.from == state)
    && (e.action == ACTION_ANY || e.action == action)
  }

  /** Entry i is the first that matches and whose guard holds. */
  ghost predicate Fires(es: seq<Entry>, state: int, action: int, guards: seq<bool>, i: nat)
    requires |guards| == |es|
  {
    && i < |es| && Matches(es[i], state, action) && guards[i]
    && forall j :: 0 <= j < i ==> !(Matches(es[j], state, action) && guards[j])
  }

  function Dest(e: Entry, state: int): int { if Sentinel(e.to) then state else e.to }

  datatype Result = Ran(ret: int) | Final | NoMatch

  class Machine {
    var current: int
    const term: int
    var entries: seq<Entry>
    var ended: nat   // times the on-terminated callback was called

    /** fsm_create. */
    constructor (state: int, terminal: int)
      ensures current == state && term == terminal && entries == [] && ended == 0
    {
      current, term, entries, ended := state, terminal, [], 0;
    }

    /** fsm_set appends. */
    method Set(es: seq<Entry>)
      modifies this`entries
      ensures entries == old(entries) + es
    {
      entries := entries + es;
    }

    /** fsm_act: the first entry for the state, the action and a true guard fires. A hook that
        fails ends the machine. The callback is called exactly when a call ends the machine. */
    method Act(action: int, guards: seq<bool>, execs: seq<int>) returns (r: Result, ghost fired: Option<nat>)
      requires |guards| == |execs| == |entries|
      modifies this`current, this`ended
      ensures old(current) == term ==> r == Final
      ensures r == Final ==> old(current) == term && current == old(current) && ended == old(ended)
      ensures r == NoMatch ==> current == old(current) && ended == old(ended)
                               && forall i :: !Fires(entries, old(current), action, guards, i)
      ensures r.Ran? ==> fired.Some? && Fires(entries, old(current), action, guards, fired.value)
                         && r.ret == execs[fired.value]
                         && current == (if r.ret != 0 then term else Dest(entries[fired.value], old(current)))
                         && ended == old(ended) + if current == term then 1 else 0
    {
      fired := None;
      if current == term { return Final, fired; }
      var i, found, terminates, ret := 0, false, false, 0;
      while i < |entries| && !found
        invariant 0 <= i <= |entries| && ended == old(ended)
        invariant !found ==> current == old(current) && !terminates
                             && forall j :: 0 <= j < i ==> !(Matches(entries[j], current, action) && guards[j])
        invariant found ==> fired.Some? && Fires(entries, old(current), action, guards, fired.value)
                            && current == Dest(entries[fired.value], old(current)) && ret == execs[fired.value]
                            && terminates == (ret != 0 || current == term)
        decreases |entries| - i, !found
      {
        var e := entries[i];
        if !Matches(e, current, action) || !guards[i] {
          i := i + 1;
        } else {
          fired := Some(i);
          if !Sentinel(e.to) { current := e.to; }
          ret := execs[i];
          terminates := ret != 0 || current == term;
          found := true;
        }
      }
      if terminates {
        current := term;
        ended := ended + 1;
      }
      if !found { return NoMatch, fired; }
      return Ran(ret), fired;
    }
  }
}

/** The INVITE client and server transaction tables (sections 17.1.1 and 17.2.1 of RFC 3261),
    run against each other over a network that loses, duplicates and reorders. */
module InviteFsm {
  import opened Basics
  import opened Fsm

  const INIT := 0
  const CALLING := 1
  const PROCEEDING := 3
  const COMPLETED := 4
  const CONFIRMED := 5
  const TERMINATED := 6

  const SEND_REQUEST := 0
  const RECV_REQUEST := 1
  const RECV_1XX := 2
  const RECV_2XX := 3
  const RECV_3XX := 4
  const SEND_1XX := 5
  const SEND_2XX := 6
  const SEND_3XX := 7
  const RECV_ACK := 8
  const RETRANSMIT := 9
  const TIMEOUT := 10
  const TERMINATE := 11
  const TRANSPORT_ERR := 12

  function Client(): seq<Entry> {
    [Entry(INIT, SEND_REQUEST, CALLING),
     Entry(CALLING, RETRANSMIT, CALLING),
     Entry(CALLING, RECV_1XX, PROCEEDING),
     Entry(CALLING, RECV_2XX, TERMINATED),
     Entry(CALLING, RECV_3XX, COMPLETED),
     Entry(CALLING, TIMEOUT, TERMINATED),
     Entry(PROCEEDING, RECV_1XX, PROCEEDING),
     Entry(PROCEEDING, RECV_2XX, TERMINATED),
     Entry(PROCEEDING, RECV_3XX, COMPLETED),
     Entry(COMPLETED, RECV_3XX, COMPLETED),
     Entry(COMPLETED, TERMINATE, TERMINATED),
     Entry(STATE_ANY, TRANSPORT_ERR, TERMINATED)]
  }

  function Server(): seq<Entry> {
    [Entry(INIT, RECV_REQUEST, PROCEEDING),
     Entry(PROCEEDING, RECV_REQUEST, PROCEEDING),
     Entry(PROCEEDING, SEND_1XX, PROCEEDING),
     Entry(PROCEEDING, SEND_2XX, TERMINATED),
     Entry(PROCEEDING, SEND_3XX, COMPLETED),
     Entry(COMPLETED, RECV_REQUEST, COMPLETED),
     Entry(COMPLETED, RETRANSMIT, COMPLETED),
     Entry(COMPLETED, RECV_ACK, CONFIRMED),
     Entry(COMPLETED, TIMEOUT, TERMINATED),
     Entry(CONFIRMED, RECV_ACK, CONFIRMED),
     Entry(CONFIRMED, TERMINATE, TERMINATED),
     Entry(STATE_ANY, TRANSPORT_ERR, TERMINATED)]
  }

  function Always(n: nat): (g: seq<bool>)
    ensures |g| == n && forall i :: 0 <= i < n ==> g[i]
  {
    seq(n, _ => true)
  }

  /** The engine accepts event ev in state s and moves to s'. Both tables use guards that always
      hold and hooks that do nothing. */
  ghost predicate Moves(es: seq<Entry>, s: int, ev: int, s': int) {
    s != TERMINATED && exists i: nat :: Fires(es, s, ev, Always(|es|), i) && s' == Dest(es[i], s)
  }

  // ---------- the two ends and the network ----------

  datatype Msg = Invite | Provisional | Success | Failure | Ack

  /** What an end sends when event ev is accepted in state s. */
  function ClientOut(s: int, ev: int): set<Msg> {
    if ev == SEND_REQUEST || ev == RETRANSMIT then {Invite}
    else if ev == RECV_3XX then {Ack}
    else {}
  }

  function ServerOut(s: int, ev: int): set<Msg> {
    if ev == RECV_REQUEST then if s == COMPLETED then {Failure} else {Provisional}
    else if ev == SEND_1XX then {Provisional}
    else if ev == SEND_2XX then {Success}
    else if ev == SEND_3XX || ev == RETRANSMIT then {Failure}
    else {}
  }

  /** What event the delivery of a message is; None for one the end does not take. */
  function ClientEvent(m: Msg): Option<int> {
    match m
    case Provisional => Some(RECV_1XX)
    case Success => Some(RECV_2XX)
    case Failure => Some(RECV_3XX)
    case _ => None
  }

  function ServerEvent(m: Msg): Option<int> {
    match m case Invite => Some(RECV_REQUEST) case Ack => Some(RECV_ACK) case _ => None
  }

  /** Both ends, every message ever sent, and what has happened. A message once sent may be
      delivered any number of times, in any order, or never. */
  datatype Sys = Sys(client: int, server: int, net: set<Msg>,
                     clientCompleted: bool, serverCompleted: bool, endedBy2xx: bool)

  predicate Local(ev: int) { ev in {SEND_REQUEST, SEND_1XX, SEND_2XX, SEND_3XX, RETRANSMIT, TIMEOUT, TERMINATE, TRANSPORT_ERR} }

  /** An event can reach an end: by its user, a timer or the transport, or by a delivery. */
  predicate Reaches(net: set<Msg>, ev: int, event: Msg -> Option<int>) {
    Local(ev) || exists m :: m in net && event(m) == Some(ev)
  }

  ghost predicate ClientStep(a: Sys, ev: int, b: Sys) {
    && Reaches(a.net, ev, ClientEvent) && Moves(Client(), a.client, ev, b.client)
    && b == a.(client := b.client, net := a.net + ClientOut(a.client, ev),
               clientCompleted := a.clientCompleted || b.client == COMPLETED,
               endedBy2xx := a.endedBy2xx || (ev == RECV_2XX && b.client == TERMINATED))
  }

  ghost predicate ServerStep(a: Sys, ev: int, b: Sys) {
    && Reaches(a.net, ev, ServerEvent) && Moves(Server(), a.server, ev, b.server)
    && b == a.(server := b.server, net := a.net + ServerOut(a.server, ev),
               serverCompleted := a.serverCompleted || b.server == COMPLETED)
  }

  /** A step of either end; an event that is not accepted changes nothing. */
  ghost predicate Step(a: Sys, b: Sys) {
    a == b || exists ev :: ClientStep(a, ev, b) || ServerStep(a, ev, b)
  }

  const START := Sys(INIT, INIT, {}, false, false, false)

  ghost predicate StepAt(ss: seq<Sys>, i: nat)
    requires i + 1 < |ss|
  {
    Step(ss[i], ss[i + 1])
  }

  ghost predicate Run(ss: seq<Sys>) {
    ss != [] && ss[0] == START && forall i :: 0 <= i < |ss| - 1 ==> StepAt(ss, i)
  }

  // ---------- what the tables allow ----------

  lemma OneOf(i: nat)
    requires i < 12
    ensures i == 0 || i == 1 || i == 2 || i == 3 || i == 4 || i == 5 || i == 6 || i == 7 || i == 8 || i == 9 || i == 10 || i == 11
  {
  }

  /** The client of section 17.1.1. */
  predicate ClientRule(s: int, ev: int, s': int) {
    s != TERMINATED && (
      || (ev == TRANSPORT_ERR && s' == TERMINATED)
      || (s == INIT && ev == SEND_REQUEST && s' == CALLING)
      || (s == CALLING && ((ev == RETRANSMIT && s' == CALLING) || (ev == TIMEOUT && s' == TERMINATED)))
      || (s in {CALLING, PROCEEDING} &&
          ((ev == RECV_1XX && s' == PROCEEDING) || (ev == RECV_2XX && s' == TERMINATED) || (ev == RECV_3XX && s' == COMPLETED)))
      || (s == COMPLETED && ((ev == RECV_3XX && s' == COMPLETED) || (ev == TERMINATE && s' == TERMINATED))))
  }

  /** The server of section 17.2.1. */
  predicate ServerRule(s: int, ev: int, s': int) {
    s != TERMINATED && (
      || (ev == TRANSPORT_ERR && s' == TERMINATED)
      || (s in {INIT, PROCEEDING} && ev == RECV_REQUEST && s' == PROCEEDING)
      || (s == PROCEEDING &&
          ((ev == SEND_1XX && s' == PROCEEDING) || (ev == SEND_2XX && s' == TERMINATED) || (ev == SEND_3XX && s' == COMPLETED)))
      || (s == COMPLETED && ((ev in {RECV_REQUEST, RETRANSMIT} && s' == COMPLETED) || (ev == RECV_ACK && s' == CONFIRMED)
                             || (ev == TIMEOUT && s' == TERMINATED)))
      || (s == CONFIRMED && ((ev == RECV_ACK && s' == CONFIRMED) || (ev == TERMINATE && s' == TERMINATED))))
  }

  /** The rows of the tables that fire. */
  function ClientRow(s: int, ev: int): nat {
    if ev == TRANSPORT_ERR then 11 else if s == INIT then 0
    else if s == CALLING then if ev == RETRANSMIT then 1 else if ev == RECV_1XX then 2 else if ev == RECV_2XX then 3 else if ev == RECV_3XX then 4 else 5
    else if s == PROCEEDING then if ev == RECV_1XX then 6 else if ev == RECV_2XX then 7 else 8
    else if ev == RECV_3XX then 9 else 10
  }

  function ServerRow(s: int, ev: int): nat {
    if ev == TRANSPORT_ERR then 11 else if s == INIT then 0
    else if s == PROCEEDING then if ev == RECV_REQUEST then 1 else if ev == SEND_1XX then 2 else if ev == SEND_2XX then 3 else 4
    else if s == COMPLETED then if ev == RECV_REQUEST then 5 else if ev == RETRANSMIT then 6 else if ev == RECV_ACK then 7 else 8
    else if ev == RECV_ACK then 9 else 10
  }

  /** The table moves exactly as the rules say. */
  lemma ClientMoves(s: int, ev: int, s': int)
    ensures Moves(Client(), s, ev, s') <==> ClientRule(s, ev, s')
  {
    if Moves(Client(), s, ev, s') {
      var i: nat :| Fires(Client(), s, ev, Always(|Client()|), i) && s' == Dest(Client()[i], s);
      OneOf(i);
    }
    if ClientRule(s, ev, s') { ClientFires(s, ev, s'); }
  }

  lemma ClientFires(s: int, ev: int, s': int)
    requires ClientRule(s, ev, s')
    ensures Moves(Client(), s, ev, s')
  {
    var i := ClientRow(s, ev);
    OneOf(i);
    assert Matches(Client()[i], s, ev) && s' == Dest(Client()[i], s);
    assert Fires(Client(), s, ev, Always(|Client()|), i);
  }

  lemma ServerMoves(s: int, ev: int, s': int)
    ensures Moves(Server(), s, ev, s') <==> ServerRule(s, ev, s')
  {
    if Moves(Server(), s, ev, s') {
      var i: nat :| Fires(Server(), s, ev, Always(|Server()|), i) && s' == Dest(Server()[i], s);
      OneOf(i);
    }
    if ServerRule(s, ev, s') { ServerFires(s, ev, s'); }
  }

  lemma ServerFires(s: int, ev: int, s': int)
    requires ServerRule(s, ev, s')
    ensures Moves(Server(), s, ev, s')
  {
    var i := ServerRow(s, ev);
    OneOf(i);
    assert Matches(Server()[i], s, ev) && s' == Dest(Server()[i], s);
    assert Fires(Server(), s, ev, Always(|Server()|), i);
  }

  predicate State(s: int) { INIT <= s <= TERMINATED }

  /** What every reachable pair of ends keeps. */
  ghost predicate Inv(a: Sys) {
    && State(a.client) && State(a.server)
    && (a.client == COMPLETED ==> a.clientCompleted)
    && (a.server in {COMPLETED, CONFIRMED} ==> a.serverCompleted)
    && (a.serverCompleted ==> a.server in {COMPLETED, CONFIRMED, TERMINATED})
    && (Failure in a.net <==> a.serverCompleted)
    && (Success in a.net ==> a.server == TERMINATED && !a.serverCompleted)
    && (Ack in a.net ==> a.clientCompleted)
    && (a.clientCompleted ==> Failure in a.net)
    && (a.endedBy2xx ==> Success in a.net && a.client == TERMINATED)
    && (a.server == CONFIRMED ==> Ack in a.net)
  }

  lemma ClientKeeps(a: Sys, ev: int, b: Sys)
    requires Inv(a) && ClientStep(a, ev, b)
    ensures Inv(b) && a.client <= b.client && a.server == b.server
  {
    ClientMoves(a.client, ev, b.client);
    hide Moves, Client;
  }

  lemma ServerKeeps(a: Sys, ev: int, b: Sys)
    requires Inv(a) && ServerStep(a, ev, b)
    ensures Inv(b) && a.server <= b.server && a.client == b.client
  {
    ServerMoves(a.server, ev, b.server);
    hide Moves, Server;
  }

  lemma StepKeeps(a: Sys, b: Sys)
    requires Inv(a) && Step(a, b)
    ensures Inv(b) && a.client <= b.client && a.server <= b.server
    ensures a.net <= b.net
    ensures a.clientCompleted ==> b.clientCompleted
    ensures a.serverCompleted ==> b.serverCompleted
  {
    hide Inv, Moves;
    if a != b {
      var ev :| ClientStep(a, ev, b) || ServerStep(a, ev, b);
      if ClientStep(a, ev, b) { ClientKeeps(a, ev, b); } else { ServerKeeps(a, ev, b); }
    }
  }

  /** In every state of every run: a 2xx and a 3xx-6xx are never both sent, a confirmed server
      means the client got to COMPLETED, and a client ended by a 2xx means the server never
      entered COMPLETED. */
  lemma {:induction false} RunSafe(ss: seq<Sys>, n: nat)
    requires Run(ss) && n < |ss|
    ensures Inv(ss[n])
    ensures !(Success in ss[n].net && Failure in ss[n].net)
    ensures ss[n].server == CONFIRMED ==> ss[n].clientCompleted
    ensures ss[n].endedBy2xx ==> !ss[n].serverCompleted
    decreases n
  {
    if n > 0 {
      RunSafe(ss, n - 1);
      assert StepAt(ss, n - 1);
      StepKeeps(ss[n - 1], ss[n]);
    }
  }

  /** Neither end's state number ever goes down. */
  lemma {:induction false} RunMonotone(ss: seq<Sys>, i: nat, j: nat)
    requires Run(ss) && i <= j < |ss|
    ensures ss[i].client <= ss[j].client && ss[i].server <= ss[j].server
    decreases j
  {
    hide Step, Inv;
    if i < j {
      RunMonotone(ss, i, j - 1);
      RunSafe(ss, j - 1);
      assert StepAt(ss, j - 1);
      StepKeeps(ss[j - 1], ss[j]);
    }
  }

  /** The history flags mean what they say: COMPLETED was entered at some earlier state. */
  lemma {:induction false} CompletedMeansEntered(ss: seq<Sys>, n: nat)
    requires Run(ss) && n < |ss|
    ensures ss[n].clientCompleted <==> exists i :: 0 <= i <= n && ss[i].client == COMPLETED
    ensures ss[n].serverCompleted <==> exists i :: 0 <= i <= n && ss[i].server == COMPLETED
    decreases n
  {
    if n > 0 {
      CompletedMeansEntered(ss, n - 1);
      assert StepAt(ss, n - 1);
      StepFlags(ss[n - 1], ss[n]);
    }
  }

  lemma StepFlags(a: Sys, b: Sys)
    requires Step(a, b)
    ensures a.clientCompleted ==> b.clientCompleted
    ensures b.clientCompleted ==> a.clientCompleted || b.client == COMPLETED
    ensures b.client == COMPLETED ==> b.clientCompleted || a.client == COMPLETED
    ensures a.serverCompleted ==> b.serverCompleted
    ensures b.serverCompleted ==> a.serverCompleted || b.server == COMPLETED
    ensures b.server == COMPLETED ==> b.serverCompleted || a.server == COMPLETED
  {
  }

  // ---------- driving the engine ----------

  /** Feeding an event to a machine with one of the tables is a move of the table, or nothing. */
  method Feed(m: Machine, ev: int) returns (ok: bool)
    requires m.term == TERMINATED
    modifies m`current, m`ended
    ensures ok <==> exists s' :: Moves(m.entries, old(m.current), ev, s')
    ensures ok ==> Moves(m.entries, old(m.current), ev, m.current)
    ensures !ok ==> m.current == old(m.current)
    ensures m.ended == old(m.ended) + if ok && m.current == TERMINATED then 1 else 0
  {
    var g := Always(|m.entries|);
    var r, fired := m.Act(ev, g, seq(|m.entries|, _ => 0));
    ok := r.Ran?;
    if ok {
      assert Fires(m.entries, old(m.current), ev, g, fired.value);
      assert Moves(m.entries, old(m.current), ev, m.current);
    } else {
      forall s' ensures !Moves(m.entries, old(m.current), ev, s') {
        assert r == NoMatch ==> forall i: nat :: !Fires(m.entries, old(m.current), ev, g, i);
      }
    }
  }

  // ---------- a confirmed server is reachable ----------

  lemma ClientGoes(a: Sys, ev: int, m: Msg, i: nat, b: Sys)
    requires Local(ev) || (m in a.net && ClientEvent(m) == Some(ev))
    requires a.client != TERMINATED && Fires(Client(), a.client, ev, Always(|Client()|), i)
    requires b == Sys(Dest(Client()[i], a.client), a.server, a.net + ClientOut(a.client, ev),
                      a.clientCompleted || b.client == COMPLETED, a.serverCompleted,
                      a.endedBy2xx || (ev == RECV_2XX && b.client == TERMINATED))
    ensures Step(a, b)
  {
    assert ClientStep(a, ev, b);
  }

  lemma ServerGoes(a: Sys, ev: int, m: Msg, i: nat, b: Sys)
    requires Local(ev) || (m in a.net && ServerEvent(m) == Some(ev))
    requires a.server != TERMINATED && Fires(Server(), a.server, ev, Always(|Server()|), i)
    requires b == Sys(a.client, Dest(Server()[i], a.server), a.net + ServerOut(a.server, ev),
                      a.clientCompleted, a.serverCompleted || b.server == COMPLETED, a.endedBy2xx)
    ensures Step(a, b)
  {
    assert ServerStep(a, ev, b);
  }

  /** Request, rejection, ACK: the server gets to CONFIRMED. */
  lemma ConfirmedReachable()
    ensures exists ss: seq<Sys> :: Run(ss) && ss[|ss| - 1].server == CONFIRMED
  {
    hide Step, Always;
    AlwaysTrue(12);
    var s1 := Sys(CALLING, INIT, {Invite}, false, false, false);
    var s2 := Sys(CALLING, PROCEEDING, {Invite, Provisional}, false, false, false);
    var s3 := Sys(CALLING, COMPLETED, {Invite, Provisional, Failure}, false, true, false);
    var s4 := Sys(COMPLETED, COMPLETED, {Invite, Provisional, Failure, Ack}, true, true, false);
    var s5 := Sys(COMPLETED, CONFIRMED, {Invite, Provisional, Failure, Ack}, true, true, false);
    ClientGoes(START, SEND_REQUEST, Invite, 0, s1);
    ServerGoes(s1, RECV_REQUEST, Invite, 0, s2);
    ServerGoes(s2, SEND_3XX, Invite, 4, s3);
    ClientGoes(s3, RECV_3XX, Failure, 4, s4);
    ServerGoes(s4, RECV_ACK, Ack, 7, s5);
    hide Client, Server;
    var ss := [START, s1, s2, s3, s4, s5];
    forall i | 0 <= i < |ss| - 1 ensures StepAt(ss, i) {
    }
    assert Run(ss);
  }

  lemma AlwaysTrue(n: nat)
    ensures |Always(n)| == n && forall i :: 0 <= i < n ==> Always(n)[i]
  {
  }
}
