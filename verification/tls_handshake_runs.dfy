// Every run of the two machines: no schedule leads to an error, the transcripts
// agree, every message of the script is said and hashed once, and every fair
// schedule with finitely many retries ends.
module TlsHandshakeRuns {
  import opened Basics
  import opened TlsHandshakeModel
  import opened TlsHandshakeScript
  import opened TlsHandshake

  /** One side is ahead of the other, or both are level. */
  ghost predicate InStep(o: Options, me: bool, pendMe: seq<Act>, pendYou: seq<Act>, toMe: seq<Item>, toYou: seq<Item>,
                         mine: seq<Msg>, yours: seq<Msg>) {
    || Ahead(o, me, pendMe, pendYou, toMe, toYou, mine, yours)
    || Ahead(o, !me, pendYou, pendMe, toYou, toMe, yours, mine)
  }

  /** An item on the way is the next act of its receiver. */
  lemma NextItem(o: Options, me: bool, pendMe: seq<Act>, pendYou: seq<Act>, toMe: seq<Item>, toYou: seq<Item>,
                 mine: seq<Msg>, yours: seq<Msg>)
    requires InStep(o, me, pendMe, pendYou, toMe, toYou, mine, yours) && toMe != []
    ensures pendMe != [] && pendMe[0] == Act(!me, KindOf(toMe[0]))
    ensures toMe[0].Hs? ==> Good(o, !me, mine, toMe[0].m)
    ensures InStep(o, me, pendMe[1..], pendYou, toMe[1..], toYou, if toMe[0].Hs? then mine + [toMe[0].m] else mine, yours)
  {
    hide Good, AllGood, Tag, Msgs;
    HeadMatches(o, me, pendMe, pendYou, toMe, toYou, mine, yours);
  }

  lemma SayInStep(o: Options, me: bool, pendMe: seq<Act>, pendYou: seq<Act>, toMe: seq<Item>, toYou: seq<Item>, said: seq<Item>,
                  mine: seq<Msg>, yours: seq<Msg>, pendMe': seq<Act>)
    requires InStep(o, me, pendMe, pendYou, toMe, toYou, mine, yours)
    requires pendMe == Tag(me, said) + pendMe' && AllGood(o, me, mine, Msgs(said))
    ensures InStep(o, me, pendMe', pendYou, toMe, toYou + said, mine + Msgs(said), yours)
  {
    if said == [] {
      assert toYou + said == toYou && mine + Msgs(said) == mine && Tag(me, said) + pendMe' == pendMe';
      return;
    }
    if !Ahead(o, me, pendMe, pendYou, toMe, toYou, mine, yours) {
      SpeakerIsLevel(o, me, pendMe, pendYou, toMe, toYou, mine, yours);
    }
    hide Good, AllGood, Tag, Msgs;
    SayMore(o, me, pendMe, pendYou, toYou, said, mine, yours, pendMe');
  }

  /** A step of one machine keeps the two in step. `rest` is what is on the way to it
      behind its inbox, `out` what was on the way from it before its flight. */
  lemma MoveInStep<T>(o: Options, me: bool, p: Peer<T>, p': Peer<T>, pend: seq<Act>, pend': seq<Act>, pendYou: seq<Act>,
                      rest: seq<Item>, out: seq<Item>, yours: seq<Msg>)
    requires InStep(o, me, pend, pendYou, Box(p.inbox) + rest, out + p.flight, p.transcript, yours)
    requires Moves(o, me, p, pend, p', pend')
    ensures InStep(o, me, pend', pendYou, Box(p'.inbox) + rest, out + p'.flight, p'.transcript, yours)
  {
    hide InStep, Tag, Msgs, AllGood, Good;
    var toMe := Box(p.inbox) + rest;
    if p.inbox.Some? && p'.inbox.None? {
      NextItem(o, me, pend, pendYou, toMe, out + p.flight, p.transcript, yours);
      assert toMe[1..] == rest && Box(p'.inbox) + rest == rest;
      assert pend[1..] == pend';
    } else {
      var said := p'.flight[|p.flight|..];
      SayInStep(o, me, pend, pendYou, toMe, out + p.flight, said, p.transcript, yours, pend');
      assert out + p.flight + said == out + p'.flight;
    }
  }

  // ---- The invariant ----

  function ToClient(sys: System): seq<Item> {
    Box(sys.c.inbox) + (sys.toClient + sys.s.flight)
  }

  function ToServer(sys: System): seq<Item> {
    Box(sys.s.inbox) + sys.toServer + sys.c.flight
  }

  ghost predicate Inv(o: Options, sys: System) {
    && Agreed(o) && ClientOk(o, sys.c) && ServerOk(o, sys.s)
    && InStep(o, false, PendC(o, sys.c), PendS(o, sys.s), ToClient(sys), ToServer(sys), sys.c.transcript, sys.s.transcript)
  }

  lemma Symmetric(o: Options, me: bool, pendMe: seq<Act>, pendYou: seq<Act>, toMe: seq<Item>, toYou: seq<Item>,
                  mine: seq<Msg>, yours: seq<Msg>)
    requires InStep(o, me, pendMe, pendYou, toMe, toYou, mine, yours)
    ensures InStep(o, !me, pendYou, pendMe, toYou, toMe, yours, mine)
  {
  }

  lemma LevelAtStart(o: Options, script: seq<Act>)
    ensures InStep(o, false, script, script, [], [], [], [])
  {
    OneMessage(false, Msg(ClientHello, 0));
    assert [] + script == script;
  }

  lemma StartPeers(o: Options)
    ensures var sys := Start();
            ClientOk(o, sys.c) && ServerOk(o, sys.s)
            && PendC(o, sys.c) == RestC(o, CStart) && PendS(o, sys.s) == RestS(o, SStart)
  {
    hide RestC, RestS;
    assert [] + RestC(o, CStart) == RestC(o, CStart) && [] + RestS(o, SStart) == RestS(o, SStart);
  }

  lemma StartInv(o: Options)
    requires Agreed(o)
    ensures Inv(o, Start())
  {
    hide RestC, RestS, Script, InStep, ClientOk, ServerOk, PendC, PendS;
    ClientFollowsScript(o);
    ServerFollowsScript(o);
    StartPeers(o);
    assert ToClient(Start()) == [] && ToServer(Start()) == [];
    LevelAtStart(o, Script(o));
  }

  lemma ClientInbox(o: Options, sys: System)
    requires Inv(o, sys)
    ensures InboxOk(o, false, sys.c, PendC(o, sys.c))
  {
    hide InStep, RestC, RestS, Good;
    if sys.c.inbox.Some? {
      NextItem(o, false, PendC(o, sys.c), PendS(o, sys.s), ToClient(sys), ToServer(sys), sys.c.transcript, sys.s.transcript);
    }
  }

  lemma ServerInbox(o: Options, sys: System)
    requires Inv(o, sys)
    ensures InboxOk(o, true, sys.s, PendS(o, sys.s))
  {
    hide InStep, RestC, RestS, Good;
    if sys.s.inbox.Some? {
      Symmetric(o, false, PendC(o, sys.c), PendS(o, sys.s), ToClient(sys), ToServer(sys), sys.c.transcript, sys.s.transcript);
      NextItem(o, true, PendS(o, sys.s), PendC(o, sys.c), ToServer(sys), ToClient(sys), sys.s.transcript, sys.c.transcript);
    }
  }

  lemma ClientGo(o: Options, sys: System, ch: Choice)
    requires Inv(o, sys) && sys.c.wait == Go
    ensures Inv(o, Step(o, sys, Event(false, ch)))
  {
    hide InStep, RestC, RestS, Good, Moves, DoClient, ClientOk, ServerOk;
    ClientInbox(o, sys);
    ClientMoves(o, sys.c, ch);
    MoveInStep(o, false, sys.c, DoClient(o, sys.c, ch), PendC(o, sys.c), PendC(o, DoClient(o, sys.c, ch)), PendS(o, sys.s),
               sys.toClient + sys.s.flight, Box(sys.s.inbox) + sys.toServer, sys.s.transcript);
  }

  lemma ServerGo(o: Options, sys: System, ch: Choice)
    requires Inv(o, sys) && sys.s.wait == Go
    ensures Inv(o, Step(o, sys, Event(true, ch)))
  {
    hide InStep, RestC, RestS, Good, Moves, DoServer, ClientOk, ServerOk;
    ServerInbox(o, sys);
    ServerMoves(o, sys.s, ch);
    Symmetric(o, false, PendC(o, sys.c), PendS(o, sys.s), ToClient(sys), ToServer(sys), sys.c.transcript, sys.s.transcript);
    var s' := DoServer(o, sys.s, ch);
    assert ToServer(sys) == Box(sys.s.inbox) + (sys.toServer + sys.c.flight);
    assert ToClient(sys) == Box(sys.c.inbox) + sys.toClient + sys.s.flight;
    MoveInStep(o, true, sys.s, s', PendS(o, sys.s), PendS(o, s'), PendC(o, sys.c),
               sys.toServer + sys.c.flight, Box(sys.c.inbox) + sys.toClient, sys.c.transcript);
    var sys' := sys.(s := s');
    assert ToServer(sys') == Box(s'.inbox) + (sys.toServer + sys.c.flight);
    assert ToClient(sys') == Box(sys.c.inbox) + sys.toClient + s'.flight;
    Symmetric(o, true, PendS(o, s'), PendC(o, sys.c), ToServer(sys'), ToClient(sys'), s'.transcript, sys.c.transcript);
  }

  // ---- Resolving a wait ----

  function Pend<T>(me: bool, p: Peer<T>, rest: seq<Act>): seq<Act> {
    (if p.wait == ReadCcs then [Act(!me, KCcs)] else []) + rest
  }

  /** A side, its incoming channel with what is `behind` it, and its outgoing channel. */
  ghost predicate SideInStep<T>(o: Options, me: bool, p: Peer<T>, incoming: seq<Item>, behind: seq<Item>, out: seq<Item>,
                                rest: seq<Act>, pendYou: seq<Act>, yours: seq<Msg>, sending: bool, atCcs: bool) {
    && PeerOk(me, p, Pend(me, p, rest), sending, atCcs)
    && InStep(o, me, Pend(me, p, rest), pendYou, Box(p.inbox) + (incoming + behind), out + p.flight, p.transcript, yours)
  }

  lemma FlushInStep<T>(o: Options, me: bool, p: Peer<T>, incoming: seq<Item>, behind: seq<Item>, out: seq<Item>,
                       rest: seq<Act>, pendYou: seq<Act>, yours: seq<Msg>, sending: bool, atCcs: bool, ch: Choice)
    requires p.wait == Flush || p.wait == Retry
    requires SideInStep(o, me, p, incoming, behind, out, rest, pendYou, yours, sending, atCcs)
    ensures var (p', incoming', sent) := Resolve(p, incoming, ch);
            SideInStep(o, me, p', incoming', behind, out + sent, rest, pendYou, yours, sending, atCcs)
  {
    hide InStep, PeerOk, Resolve;
    FlushKeepsPeer(me, p, incoming, Pend(me, p, rest), sending, atCcs, ch);
    var (p', incoming', sent) := Resolve(p, incoming, ch);
    assert out + sent + p'.flight == out + p.flight;
  }

  lemma FlushKeepsPeer<T>(me: bool, p: Peer<T>, incoming: seq<Item>, pend: seq<Act>, sending: bool, atCcs: bool, ch: Choice)
    requires p.wait == Flush || p.wait == Retry
    requires PeerOk(me, p, pend, sending, atCcs)
    ensures var (p', incoming', sent) := Resolve(p, incoming, ch);
            && PeerOk(me, p', pend, sending, atCcs) && (p'.wait == Go || p'.wait == Flush)
            && p'.inbox == p.inbox && p'.transcript == p.transcript
            && incoming' == incoming && sent + p'.flight == p.flight
  {
  }

  lemma MessageInStep<T>(o: Options, me: bool, p: Peer<T>, incoming: seq<Item>, behind: seq<Item>, out: seq<Item>,
                         rest: seq<Act>, pendYou: seq<Act>, yours: seq<Msg>, sending: bool, atCcs: bool, ch: Choice)
    requires p.wait == ReadMessage
    requires SideInStep(o, me, p, incoming, behind, out, rest, pendYou, yours, sending, atCcs)
    ensures var (p', incoming', sent) := Resolve(p, incoming, ch);
            SideInStep(o, me, p', incoming', behind, out + sent, rest, pendYou, yours, sending, atCcs)
  {
    hide InStep, Good;
    assert out + [] == out;
    assert Box(p.inbox) + (incoming + behind) == incoming + behind;
    if incoming != [] {
      NextItem(o, me, Pend(me, p, rest), pendYou, incoming + behind, out + p.flight, p.transcript, yours);
      assert [incoming[0]] + (incoming[1..] + behind) == incoming + behind;
    }
  }

  lemma CcsInStep<T>(o: Options, me: bool, p: Peer<T>, incoming: seq<Item>, behind: seq<Item>, out: seq<Item>,
                     rest: seq<Act>, pendYou: seq<Act>, yours: seq<Msg>, sending: bool, atCcs: bool, ch: Choice)
    requires p.wait == ReadCcs
    requires SideInStep(o, me, p, incoming, behind, out, rest, pendYou, yours, sending, atCcs)
    ensures var (p', incoming', sent) := Resolve(p, incoming, ch);
            SideInStep(o, me, p', incoming', behind, out + sent, rest, pendYou, yours, sending, atCcs)
  {
    hide InStep, Good;
    assert out + [] == out;
    assert Box(p.inbox) + (incoming + behind) == incoming + behind;
    if incoming != [] {
      NextItem(o, me, Pend(me, p, rest), pendYou, incoming + behind, out + p.flight, p.transcript, yours);
      assert (incoming + behind)[1..] == incoming[1..] + behind;
      assert Pend(me, p, rest)[1..] == rest == [] + rest;
      assert [] + (incoming[1..] + behind) == incoming[1..] + behind;
    }
  }

  /** Resolving a wait loses nothing, and a record that arrives is the one expected. */
  lemma ResolveInStep<T>(o: Options, me: bool, p: Peer<T>, incoming: seq<Item>, behind: seq<Item>, out: seq<Item>,
                         rest: seq<Act>, pendYou: seq<Act>, yours: seq<Msg>, sending: bool, atCcs: bool, ch: Choice)
    requires p.wait != Go && SideInStep(o, me, p, incoming, behind, out, rest, pendYou, yours, sending, atCcs)
    ensures var (p', incoming', sent) := Resolve(p, incoming, ch);
            && p'.state == p.state && p'.flag == p.flag
            && SideInStep(o, me, p', incoming', behind, out + sent, rest, pendYou, yours, sending, atCcs)
  {
    hide InStep, Good;
    if p.wait == ReadMessage {
      MessageInStep(o, me, p, incoming, behind, out, rest, pendYou, yours, sending, atCcs, ch);
    } else if p.wait == ReadCcs {
      CcsInStep(o, me, p, incoming, behind, out, rest, pendYou, yours, sending, atCcs, ch);
    } else {
      FlushInStep(o, me, p, incoming, behind, out, rest, pendYou, yours, sending, atCcs, ch);
    }
  }

  lemma ClientResolves(o: Options, sys: System, ch: Choice)
    requires Inv(o, sys) && sys.c.wait != Go
    ensures Inv(o, Step(o, sys, Event(false, ch)))
  {
    hide InStep, RestC, RestS, Good, PeerOk, ServerOk, Resolve;
    ResolveInStep(o, false, sys.c, sys.toClient, sys.s.flight, Box(sys.s.inbox) + sys.toServer, RestC(o, sys.c.state),
                  PendS(o, sys.s), sys.s.transcript, SendingC(sys.c.state), sys.c.state == CProcessCcs, ch);
    var sent := Resolve(sys.c, sys.toClient, ch).2;
    assert Box(sys.s.inbox) + sys.toServer + sent == Box(sys.s.inbox) + (sys.toServer + sent);
  }

  lemma ServerResolves(o: Options, sys: System, ch: Choice)
    requires Inv(o, sys) && sys.s.wait != Go
    ensures Inv(o, Step(o, sys, Event(true, ch)))
  {
    hide InStep, RestC, RestS, Good, PeerOk, ClientOk, Resolve;
    Symmetric(o, false, PendC(o, sys.c), PendS(o, sys.s), ToClient(sys), ToServer(sys), sys.c.transcript, sys.s.transcript);
    assert ToServer(sys) == Box(sys.s.inbox) + (sys.toServer + sys.c.flight);
    assert ToClient(sys) == Box(sys.c.inbox) + sys.toClient + sys.s.flight;
    ResolveInStep(o, true, sys.s, sys.toServer, sys.c.flight, Box(sys.c.inbox) + sys.toClient, RestS(o, sys.s.state),
                  PendC(o, sys.c), sys.c.transcript, SendingS(sys.s.state), sys.s.state == SProcessCcs, ch);
    var (s', incoming', sent) := Resolve(sys.s, sys.toServer, ch);
    var sys' := sys.(s := s', toServer := incoming', toClient := sys.toClient + sent);
    assert ToServer(sys') == Box(s'.inbox) + (incoming' + sys.c.flight);
    assert ToClient(sys') == Box(sys.c.inbox) + sys.toClient + sent + s'.flight;
    Symmetric(o, true, PendS(o, s'), PendC(o, sys.c), ToServer(sys'), ToClient(sys'), s'.transcript, sys.c.transcript);
  }

  lemma StepKeepsInv(o: Options, sys: System, e: Event)
    requires Inv(o, sys)
    ensures Inv(o, Step(o, sys, e))
  {
    hide Inv, Step;
    if e.server {
      if sys.s.wait == Go { ServerGo(o, sys, e.ch); } else { ServerResolves(o, sys, e.ch); }
      assert e == Event(true, e.ch);
    } else {
      if sys.c.wait == Go { ClientGo(o, sys, e.ch); } else { ClientResolves(o, sys, e.ch); }
      assert e == Event(false, e.ch);
    }
  }

  lemma {:induction false} RunKeepsInv(o: Options, sys: System, events: seq<Event>)
    requires Inv(o, sys)
    ensures Inv(o, Run(o, sys, events))
    decreases |events|
  {
    hide Inv;
    if events != [] {
      StepKeepsInv(o, sys, events[0]);
      RunKeepsInv(o, Step(o, sys, events[0]), events[1..]);
    }
  }

  /** No schedule leads either side to an error: no message is unexpected, no Finished
      fails its check, and no record is of the wrong type. */
  lemma NeverAnError(o: Options, events: seq<Event>)
    requires Agreed(o)
    ensures var sys := Run(o, Start(), events); sys.c.wait != Error && sys.s.wait != Error
  {
    StartInv(o);
    RunKeepsInv(o, Start(), events);
    hide RestC, RestS, InStep;
  }

  // ---- The messages of the script ----

  function TypesOf(msgs: seq<Msg>): seq<MsgType> {
    if msgs == [] then [] else [TypeOf(msgs[0])] + TypesOf(msgs[1..])
  }

  /** The messages among some acts. */
  function Spoken(acts: seq<Act>): seq<MsgType> {
    if acts == [] then []
    else (if acts[0].kind.KMsg? then [acts[0].kind.typ] else []) + Spoken(acts[1..])
  }

  lemma {:induction false} TypesAppend(a: seq<Msg>, b: seq<Msg>)
    ensures TypesOf(a + b) == TypesOf(a) + TypesOf(b)
  {
    if a == [] {
      assert a + b == b;
    } else {
      assert (a + b)[1..] == a[1..] + b;
      TypesAppend(a[1..], b);
    }
  }

  lemma {:induction false} SpokenAppend(a: seq<Act>, b: seq<Act>)
    ensures Spoken(a + b) == Spoken(a) + Spoken(b)
  {
    if a == [] {
      assert a + b == b;
    } else {
      assert (a + b)[1..] == a[1..] + b;
      SpokenAppend(a[1..], b);
      Associates(if a[0].kind.KMsg? then [a[0].kind.typ] else [], Spoken(a[1..]), Spoken(b));
    }
  }

  lemma {:induction false} SpokenTag(me: bool, items: seq<Item>)
    ensures Spoken(Tag(me, items)) == TypesOf(Msgs(items))
  {
    if items != [] {
      SpokenTag(me, items[1..]);
      SpokenAppend([Act(me, KindOf(items[0]))], Tag(me, items[1..]));
      var head := if items[0].Hs? then [items[0].m] else [];
      TypesAppend(head, Msgs(items[1..]));
    }
  }

  lemma OneSpoken(server: bool, m: Msg)
    ensures Spoken([Act(server, KMsg(TypeOf(m)))]) == [TypeOf(m)] == TypesOf([m]) && Spoken([Act(server, KCcs)]) == []
  {
  }

  /** A step of the client keeps said and still-to-be-said together. */
  lemma MovesTypes(o: Options, p: Peer<CState>, p': Peer<CState>, pend: seq<Act>, pend': seq<Act>)
    requires Moves(o, false, p, pend, p', pend')
    ensures TypesOf(p'.transcript) + Spoken(pend') == TypesOf(p.transcript) + Spoken(pend)
  {
    hide Spoken, TypesOf, Tag, Msgs, AllGood;
    if p.inbox.Some? && p'.inbox.None? {
      TypesAppend(p.transcript, [p.inbox.value]);
      SpokenAppend([Act(true, KMsg(TypeOf(p.inbox.value)))], pend');
      OneSpoken(true, p.inbox.value);
      Associates(TypesOf(p.transcript), TypesOf([p.inbox.value]), Spoken(pend'));
    } else {
      var said := p'.flight[|p.flight|..];
      TypesAppend(p.transcript, Msgs(said));
      SpokenAppend(Tag(false, said), pend');
      SpokenTag(false, said);
      Associates(TypesOf(p.transcript), TypesOf(Msgs(said)), Spoken(pend'));
    }
  }

  ghost predicate TypesOk(o: Options, sys: System) {
    TypesOf(sys.c.transcript) + Spoken(PendC(o, sys.c)) == Spoken(Script(o))
  }

  lemma ResolveTypes(o: Options, p: Peer<CState>, incoming: seq<Item>, ch: Choice)
    requires p.wait != Go
    ensures var p' := Resolve(p, incoming, ch).0;
            p'.transcript == p.transcript && Spoken(PendC(o, p')) == Spoken(PendC(o, p))
  {
    hide Spoken, RestC;
    SpokenAppend([Act(true, KCcs)], RestC(o, p.state));
    OneSpoken(true, Msg(ClientHello, 0));
    assert [] + RestC(o, p.state) == RestC(o, p.state) && [] + Spoken(RestC(o, p.state)) == Spoken(RestC(o, p.state));
  }

  lemma StepKeepsTypes(o: Options, sys: System, e: Event)
    requires Inv(o, sys) && TypesOk(o, sys)
    ensures TypesOk(o, Step(o, sys, e))
  {
    hide InStep, RestC, RestS, Spoken, TypesOf, Moves, DoClient, DoServer, Resolve, ClientOk, ServerOk, PendC;
    if !e.server {
      if sys.c.wait == Go {
        ClientInbox(o, sys);
        ClientMoves(o, sys.c, e.ch);
        MovesTypes(o, sys.c, DoClient(o, sys.c, e.ch), PendC(o, sys.c), PendC(o, DoClient(o, sys.c, e.ch)));
      } else {
        ResolveTypes(o, sys.c, sys.toClient, e.ch);
      }
    }
  }

  lemma {:induction false} RunKeepsTypes(o: Options, sys: System, events: seq<Event>)
    requires Inv(o, sys) && TypesOk(o, sys)
    ensures TypesOk(o, Run(o, sys, events))
    decreases |events|
  {
    hide Inv, TypesOk;
    if events != [] {
      StepKeepsTypes(o, sys, events[0]);
      StepKeepsInv(o, sys, events[0]);
      RunKeepsTypes(o, Step(o, sys, events[0]), events[1..]);
    }
  }

  lemma BothDone(o: Options, sys: System)
    requires Inv(o, sys) && sys.c.state == CDone && sys.s.state == SDone
    ensures sys.c.transcript == sys.s.transcript && PendC(o, sys.c) == []
    ensures ToClient(sys) == [] && ToServer(sys) == []
  {
    NothingAfterDone(o);
    hide RestC, RestS;
    assert PendC(o, sys.c) == [] && PendS(o, sys.s) == [];
  }

  /** When both sides are done they have the same transcript: every message of the
      script, said once, hashed once on each side, in order; nothing is left over. */
  lemma TranscriptsAgree(o: Options, events: seq<Event>)
    requires Agreed(o)
    ensures var sys := Run(o, Start(), events);
            sys.c.state == CDone && sys.s.state == SDone ==>
              && sys.c.transcript == sys.s.transcript
              && TypesOf(sys.c.transcript) == Spoken(Script(o))
              && ToClient(sys) == [] && ToServer(sys) == []
  {
    StartInv(o);
    StartPeers(o);
    ClientFollowsScript(o);
    hide Inv, RestC, RestS, Script, PendC, PendS, ClientOk, ServerOk;
    assert TypesOk(o, Start()) by { assert TypesOf([]) + Spoken(Script(o)) == Spoken(Script(o)); }
    RunKeepsInv(o, Start(), events);
    RunKeepsTypes(o, Start(), events);
    var sys := Run(o, Start(), events);
    if sys.c.state == CDone && sys.s.state == SDone { BothDone(o, sys); }
  }

  // ---- How far there is to go ----

  function Weight<T>(p: Peer<T>): nat {
    match p.wait
    case Go => if p.inbox.Some? then 0 else 2
    case ReadMessage => 1
    case _ => 3
  }

  function Effort(o: Options, sys: System): nat {
    4 * (RankC(o, sys.c.state) + RankS(o, sys.s.state)) + Weight(sys.c) + Weight(sys.s)
  }

  ghost predicate AllDone(sys: System) {
    sys.c.state == CDone && sys.s.state == SDone
  }

  predicate Blocked<T>(p: Peer<T>) {
    p.wait == ReadMessage || p.wait == ReadCcs
  }

  /** A step waits in its state or goes on to the next one. */
  ghost predicate WaitsOrGoesOn<T>(p: Peer<T>, p': Peer<T>, next: T, ch: Choice) {
    || p'.wait == Error || p'.state == next
    || (p'.state == p.state && p'.wait == Retry && ch.retry)
    || (p'.state == p.state && p'.wait == ReadMessage && p.inbox.None? && p'.inbox.None?)
  }

  lemma ClientGoesToNext(o: Options, p: Peer<CState>, ch: Choice)
    requires p.wait == Go
    ensures WaitsOrGoesOn(p, DoClient(o, p, ch), NextC(o, p.state), ch)
  {
    if RankC(o, p.state) >= 21 { ClientGoesEarly(o, p, ch); } else { ClientGoesLate(o, p, ch); }
    hide DoClient, NextC;
  }

  lemma ClientGoesEarly(o: Options, p: Peer<CState>, ch: Choice)
    requires p.wait == Go && RankC(o, p.state) >= 21
    ensures WaitsOrGoesOn(p, DoClient(o, p, ch), NextC(o, p.state), ch)
  {
  }

  lemma ClientGoesLate(o: Options, p: Peer<CState>, ch: Choice)
    requires p.wait == Go && RankC(o, p.state) < 21
    ensures WaitsOrGoesOn(p, DoClient(o, p, ch), NextC(o, p.state), ch)
  {
  }

  lemma ServerGoesToNext(o: Options, p: Peer<SState>, ch: Choice)
    requires p.wait == Go
    ensures WaitsOrGoesOn(p, DoServer(o, p, ch), NextS(o, p.state), ch)
  {
    if RankS(o, p.state) >= 21 { ServerGoesEarly(o, p, ch); } else { ServerGoesLate(o, p, ch); }
    hide DoServer, NextS;
  }

  lemma ServerGoesEarly(o: Options, p: Peer<SState>, ch: Choice)
    requires p.wait == Go && RankS(o, p.state) >= 21
    ensures WaitsOrGoesOn(p, DoServer(o, p, ch), NextS(o, p.state), ch)
  {
  }

  lemma ServerGoesLate(o: Options, p: Peer<SState>, ch: Choice)
    requires p.wait == Go && RankS(o, p.state) < 21
    ensures WaitsOrGoesOn(p, DoServer(o, p, ch), NextS(o, p.state), ch)
  {
  }

  /** Resolving a wait lightens a side, or gets some of its flight out, or leaves all
      as it was: because the transport takes nothing, or for want of a record. */
  lemma ResolveLightens<T>(p: Peer<T>, incoming: seq<Item>, ch: Choice)
    requires p.wait != Go && p.wait != Error
    ensures var (p', incoming', sent) := Resolve(p, incoming, ch);
            p'.state == p.state &&
            (|| p'.wait == Error
             || Weight(p') < Weight(p)
             || (Weight(p') == Weight(p) && |p'.flight| < |p.flight|)
             || (p' == p && incoming' == incoming && sent == []
                 && ((p.wait == Flush && ch.count == 0) || (Blocked(p) && incoming == []))))
  {
  }

  /** What a side that waits for a record has before it. */
  lemma BlockedOnOther<T>(me: bool, p: Peer<T>, rest: seq<Act>, sending: bool, atCcs: bool)
    requires PeerOk(me, p, Pend(me, p, rest), sending, atCcs) && Blocked(p)
    ensures p.inbox.None? && p.flight == []
    ensures Pend(me, p, rest) != [] && Pend(me, p, rest)[0].server != me
  {
  }

  /** When both sides wait and nothing is on the way, something is wrong: it cannot
      happen. */
  lemma NoDeadlock(o: Options, pendC: seq<Act>, pendS: seq<Act>, toC: seq<Item>, toS: seq<Item>, c: seq<Msg>, s: seq<Msg>)
    requires InStep(o, false, pendC, pendS, toC, toS, c, s) && (pendC != [] || pendS != [])
    requires pendC != [] ==> pendC[0].server
    requires pendS != [] ==> !pendS[0].server
    ensures toC != [] || toS != []
    ensures pendC == [] ==> toS != []
    ensures pendS == [] ==> toC != []
  {
    OneMessage(false, Msg(ClientHello, 0));
    OneMessage(true, Msg(ClientHello, 0));
    assert [] + pendC == pendC && [] + pendS == pendS;
  }

  lemma NoError(o: Options, sys: System)
    requires Inv(o, sys)
    ensures sys.c.wait != Error && sys.s.wait != Error
  {
    hide InStep, RestC, RestS;
  }

  /** A side whose wait can be resolved. */
  lemma WhoCanGo(o: Options, sys: System) returns (server: bool)
    requires Inv(o, sys) && !AllDone(sys)
    requires sys.c.wait == Go ==> sys.c.state == CDone
    requires sys.s.wait == Go ==> sys.s.state == SDone
    ensures if server then sys.s.wait == Flush || sys.s.wait == Retry || (Blocked(sys.s) && sys.toServer != [])
            else sys.c.wait == Flush || sys.c.wait == Retry || (Blocked(sys.c) && sys.toClient != [])
  {
    NoError(o, sys);
    hide InStep, RestC, RestS;
    if sys.c.wait == Flush || sys.c.wait == Retry {
      return false;
    }
    if sys.s.wait == Flush || sys.s.wait == Retry {
      return true;
    }
    if sys.c.wait == Go { NothingAfterDone(o); } else {
      BlockedOnOther(false, sys.c, RestC(o, sys.c.state), SendingC(sys.c.state), sys.c.state == CProcessCcs);
    }
    if sys.s.wait == Go { NothingAfterDone(o); } else {
      BlockedOnOther(true, sys.s, RestS(o, sys.s.state), SendingS(sys.s.state), sys.s.state == SProcessCcs);
    }
    NoDeadlock(o, PendC(o, sys.c), PendS(o, sys.s), ToClient(sys), ToServer(sys), sys.c.transcript, sys.s.transcript);
    server := !(Blocked(sys.c) && sys.toClient != []);
  }

  // ---- Every fair schedule ends ----

  /** Nearer to the end: a lower effort, or as low with less left to flush. */
  ghost predicate Nearer(o: Options, sys': System, sys: System) {
    || Effort(o, sys') < Effort(o, sys)
    || (Effort(o, sys') == Effort(o, sys) && |sys'.c.flight| + |sys'.s.flight| < |sys.c.flight| + |sys.s.flight|)
  }

  /** A side with nothing to do until the other side has done something. */
  predicate Idle(sys: System, server: bool) {
    if server then (sys.s.wait == Go && sys.s.state == SDone) || (Blocked(sys.s) && sys.toServer == [])
    else (sys.c.wait == Go && sys.c.state == CDone) || (Blocked(sys.c) && sys.toClient == [])
  }

  /** A step without a retry brings the end nearer or changes nothing; the latter only
      if the transport took nothing or that side is idle. */
  ghost predicate Progress(o: Options, sys: System, e: Event) {
    var sys' := Step(o, sys, e);
    Nearer(o, sys', sys) || (sys' == sys && (e.ch.count == 0 || Idle(sys, e.server)))
  }

  lemma ClientProgress(o: Options, sys: System, ch: Choice)
    requires Inv(o, sys) && !ch.retry
    ensures Progress(o, sys, Event(false, ch))
  {
    hide Inv, DoClient, Resolve, RankC, RankS, NextC;
    StepKeepsInv(o, sys, Event(false, ch));
    NoError(o, sys);
    NoError(o, Step(o, sys, Event(false, ch)));
    if sys.c.wait != Go {
      ResolveLightens(sys.c, sys.toClient, ch);
      assert sys.toServer + [] == sys.toServer;
    } else if sys.c.state == CDone {
      DoneStays(o, sys.c, sys.s, ch);
    } else {
      ClientGoesToNext(o, sys.c, ch);
      NextCDescends(o, sys.c.state);
    }
  }

  lemma ServerProgress(o: Options, sys: System, ch: Choice)
    requires Inv(o, sys) && !ch.retry
    ensures Progress(o, sys, Event(true, ch))
  {
    hide Inv, DoServer, Resolve, RankC, RankS, NextS;
    StepKeepsInv(o, sys, Event(true, ch));
    NoError(o, sys);
    NoError(o, Step(o, sys, Event(true, ch)));
    if sys.s.wait != Go {
      ResolveLightens(sys.s, sys.toServer, ch);
      assert sys.toClient + [] == sys.toClient;
    } else if sys.s.state == SDone {
      DoneStays(o, sys.c, sys.s, ch);
    } else {
      ServerGoesToNext(o, sys.s, ch);
      NextSDescends(o, sys.s.state);
    }
  }

  lemma DoneStays(o: Options, c: Peer<CState>, s: Peer<SState>, ch: Choice)
    ensures c.state == CDone ==> DoClient(o, c, ch) == c
    ensures s.state == SDone ==> DoServer(o, s, ch) == s
  {
  }

  lemma StepProgress(o: Options, sys: System, e: Event)
    requires Inv(o, sys) && !e.ch.retry
    ensures Progress(o, sys, e)
  {
    hide Inv, Progress;
    if e.server { ServerProgress(o, sys, e.ch); } else { ClientProgress(o, sys, e.ch); }
    assert e == Event(e.server, e.ch);
  }

  /** Until both are done, one side is not idle. */
  lemma SomeoneBusy(o: Options, sys: System) returns (server: bool)
    requires Inv(o, sys) && !AllDone(sys)
    ensures !Idle(sys, server)
  {
    hide Inv;
    if sys.c.wait == Go && sys.c.state != CDone {
      return false;
    }
    if sys.s.wait == Go && sys.s.state != SDone {
      return true;
    }
    server := WhoCanGo(o, sys);
  }

  /** The state after the first `n` events of an endless schedule. */
  function At(o: Options, sys: System, sched: nat -> Event, n: nat): System {
    if n == 0 then sys else Step(o, At(o, sys, sched, n - 1), sched(n - 1))
  }

  function Prefix(sched: nat -> Event, n: nat): seq<Event> {
    seq(n, i requires i >= 0 => sched(i))
  }

  lemma {:induction false} AtIsRun(o: Options, sys: System, sched: nat -> Event, n: nat)
    ensures At(o, sys, sched, n) == Run(o, sys, Prefix(sched, n))
  {
    hide Step;
    if n > 0 {
      var before := Prefix(sched, n - 1);
      AtIsRun(o, sys, sched, n - 1);
      assert Prefix(sched, n) == before + [sched(n - 1)];
      RunAppend(o, sys, before, [sched(n - 1)]);
      OneEvent(o, Run(o, sys, before), sched(n - 1));
    }
  }

  /** From `n` on, the side gets another turn in which its transport takes something. */
  ghost predicate TurnAfter(sched: nat -> Event, server: bool, n: nat) {
    exists m: nat :: m >= n && sched(m).server == server && sched(m).ch.count > 0
  }

  ghost predicate Fair(sched: nat -> Event) {
    forall server, n: nat :: TurnAfter(sched, server, n)
  }

  ghost predicate NoRetryFrom(sched: nat -> Event, n: nat) {
    forall m: nat :: m >= n ==> !sched(m).ch.retry
  }

  /** A busy side whose turn comes at `m` brings the end nearer, if nothing did before. */
  lemma {:induction false} NearerBy(o: Options, sys: System, sched: nat -> Event, n: nat, m: nat) returns (k: nat)
    requires n <= m && Inv(o, At(o, sys, sched, n)) && NoRetryFrom(sched, n)
    requires sched(m).ch.count > 0 && !Idle(At(o, sys, sched, n), sched(m).server)
    ensures k > n && Inv(o, At(o, sys, sched, k)) && Nearer(o, At(o, sys, sched, k), At(o, sys, sched, n))
    decreases m - n
  {
    hide Inv, Idle, Nearer, Step, Effort;
    var now := At(o, sys, sched, n);
    StepProgress(o, now, sched(n));
    StepKeepsInv(o, now, sched(n));
    k := n + 1;
    if At(o, sys, sched, k) == now && n < m {
      k := NearerBy(o, sys, sched, n + 1, m);
    }
  }

  lemma {:induction false} EndsFrom(o: Options, sys: System, sched: nat -> Event, n: nat) returns (m: nat)
    requires Inv(o, At(o, sys, sched, n)) && Fair(sched) && NoRetryFrom(sched, n)
    ensures AllDone(At(o, sys, sched, m))
    decreases Effort(o, At(o, sys, sched, n)), |At(o, sys, sched, n).c.flight| + |At(o, sys, sched, n).s.flight|
  {
    hide Inv, Idle, Step, Effort, At;
    if AllDone(At(o, sys, sched, n)) {
      return n;
    }
    var server := SomeoneBusy(o, At(o, sys, sched, n));
    assert TurnAfter(sched, server, n);
    var turn: nat :| turn >= n && sched(turn).server == server && sched(turn).ch.count > 0;
    var k := NearerBy(o, sys, sched, n, turn);
    m := EndsFrom(o, sys, sched, k);
  }

  lemma {:induction false} AtKeepsInv(o: Options, sys: System, sched: nat -> Event, n: nat)
    requires Inv(o, sys)
    ensures Inv(o, At(o, sys, sched, n))
  {
    hide Inv, Step;
    if n > 0 {
      AtKeepsInv(o, sys, sched, n - 1);
      StepKeepsInv(o, At(o, sys, sched, n - 1), sched(n - 1));
    }
  }

  lemma {:induction false} DoneForGood(o: Options, sys: System, sched: nat -> Event, n: nat, m: nat)
    requires n <= m && AllDone(At(o, sys, sched, n))
    ensures AllDone(At(o, sys, sched, m))
    decreases m
  {
    hide Step, AllDone;
    if n < m {
      DoneForGood(o, sys, sched, n, m - 1);
      DoneStep(o, At(o, sys, sched, m - 1), sched(m - 1));
    }
  }

  lemma DoneStep(o: Options, sys: System, e: Event)
    requires AllDone(sys)
    ensures AllDone(Step(o, sys, e))
  {
    DoneStays(o, sys.c, sys.s, e.ch);
    hide DoClient, DoServer;
  }

  ghost predicate DoneFrom(o: Options, sys: System, sched: nat -> Event, m: nat) {
    forall k: nat :: k >= m ==>
      AllDone(At(o, sys, sched, k)) && At(o, sys, sched, k).c.transcript == At(o, sys, sched, k).s.transcript
  }

  /** Liveness. On every schedule that gives each side, again and again, a turn in
      which its transport takes something, and that asks for a retry only finitely
      often, both sides finish, stay finished and have the same transcript - from the
      start as from every state that can be reached, however the turns interleave and
      however little each flush gets through. */
  lemma Completes(o: Options, sys: System, sched: nat -> Event)
    requires Inv(o, sys) && Fair(sched) && exists n: nat :: NoRetryFrom(sched, n)
    ensures exists m: nat :: DoneFrom(o, sys, sched, m)
  {
    hide Inv, At, AllDone;
    var n: nat :| NoRetryFrom(sched, n);
    AtKeepsInv(o, sys, sched, n);
    var m := EndsFrom(o, sys, sched, n);
    forall k: nat | k >= m
      ensures AllDone(At(o, sys, sched, k)) && At(o, sys, sched, k).c.transcript == At(o, sys, sched, k).s.transcript
    {
      DoneForGood(o, sys, sched, m, k);
      AtKeepsInv(o, sys, sched, k);
      DoneAgree(o, At(o, sys, sched, k));
    }
    assert DoneFrom(o, sys, sched, m);
  }

  /** Taking turns is fair, with as little as one item per flush. */
  lemma TakingTurnsIsFair()
    ensures var sched: nat -> Event := n => Event(n % 2 == 1, Choice(false, 0, 1));
            Fair(sched) && NoRetryFrom(sched, 0)
  {
    var sched: nat -> Event := n => Event(n % 2 == 1, Choice(false, 0, 1));
    forall server, n: nat ensures TurnAfter(sched, server, n) {
      var m := if (n % 2 == 1) == server then n else n + 1;
      assert m >= n && sched(m).server == server && sched(m).ch.count > 0;
    }
  }

  /** Retries have to end: a certificate check that always asks for one keeps a full
      handshake from finishing, whatever else the schedule does. */
  lemma {:induction false} RetriesMustEnd(o: Options, sched: nat -> Event, n: nat)
    requires o.certAuth && !o.resumed && forall m: nat :: sched(m).ch.retry
    ensures RankC(o, At(o, Start(), sched, n).c.state) >= RankC(o, CVerifyServerCertificate)
    ensures !AllDone(At(o, Start(), sched, n))
  {
    hide DoClient, Step;
    if n > 0 {
      var before := At(o, Start(), sched, n - 1);
      RetriesMustEnd(o, sched, n - 1);
      EarlyWithRetries(o, before.c, sched(n - 1).ch);
      ClientStateAfter(o, before, sched(n - 1));
    }
  }

  lemma ClientStateAfter(o: Options, sys: System, e: Event)
    ensures Step(o, sys, e).c.state == if !e.server && sys.c.wait == Go then DoClient(o, sys.c, e.ch).state else sys.c.state
  {
    hide DoClient, DoServer;
  }

  lemma EarlyWithRetries(o: Options, c: Peer<CState>, ch: Choice)
    requires o.certAuth && !o.resumed && ch.retry && RankC(o, c.state) >= RankC(o, CVerifyServerCertificate)
    ensures RankC(o, DoClient(o, c, ch).state) >= RankC(o, CVerifyServerCertificate)
  {
  }

  lemma DoneAgree(o: Options, sys: System)
    requires Inv(o, sys) && AllDone(sys)
    ensures sys.c.transcript == sys.s.transcript
  {
    BothDone(o, sys);
  }

  // ---- Runs put together ----

  lemma NoEvents(o: Options, sys: System)
    ensures Run(o, sys, []) == sys
  {
  }

  lemma PatienceLeft(wait': Wait)
    ensures wait' == ReadMessage || wait' == Retry ==> Patience(wait') < Patience(Flush) && Patience(wait') < Patience(Go)
  {
  }

  lemma {:induction false} RunAppend(o: Options, sys: System, a: seq<Event>, b: seq<Event>)
    ensures Run(o, sys, a + b) == Run(o, Run(o, sys, a), b)
    decreases |a|
  {
    hide Step;
    if a == [] {
      assert a + b == b;
    } else {
      assert (a + b)[0] == a[0] && (a + b)[1..] == a[1..] + b;
      RunAppend(o, Step(o, sys, a[0]), a[1..], b);
    }
  }

  lemma OneEvent(o: Options, sys: System, e: Event)
    ensures Run(o, sys, [e]) == Step(o, sys, e)
  {
    hide Step;
    assert [e][1..] == [];
    assert Run(o, Step(o, sys, e), []) == Step(o, sys, e);
  }

  /** How soon the loop of `ssl_run_handshake` stops at a wait where it stands. */
  function Patience(wait: Wait): nat {
    match wait
    case Go => 4
    case Flush => 3
    case ReadCcs => 3
    case ReadMessage => 2
    case Retry => 1
    case Error => 0
  }
}
