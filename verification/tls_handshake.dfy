// Client and server together: over any schedule, with any number of retries and
// partial flushes, two honest peers stay in lock step and build one transcript.
module TlsHandshake {
  import opened Basics
  import opened TlsHandshakeModel
  import opened TlsHandshakeScript

  // ---- Items as acts ----

  function KindOf(it: Item): Kind {
    if it.Ccs? then KCcs else KMsg(TypeOf(it.m))
  }

  /** What one side has said, item by item. */
  function Tag(server: bool, items: seq<Item>): (r: seq<Act>)
    ensures |r| == |items|
  {
    if items == [] then [] else [Act(server, KindOf(items[0]))] + Tag(server, items[1..])
  }

  function Msgs(items: seq<Item>): seq<Msg> {
    if items == [] then []
    else (if items[0].Hs? then [items[0].m] else []) + Msgs(items[1..])
  }

  function Box(m: Option<Msg>): seq<Item> {
    if m.Some? then [Hs(m.value)] else []
  }

  lemma {:induction false} TagsAppend(server: bool, a: seq<Item>, b: seq<Item>)
    ensures Tag(server, a + b) == Tag(server, a) + Tag(server, b)
  {
    if a == [] {
      assert a + b == b;
    } else {
      assert (a + b)[0] == a[0] && (a + b)[1..] == a[1..] + b;
      TagsAppend(server, a[1..], b);
      Associates([Act(server, KindOf(a[0]))], Tag(server, a[1..]), Tag(server, b));
    }
  }

  lemma {:induction false} MsgsAppend(a: seq<Item>, b: seq<Item>)
    ensures Msgs(a + b) == Msgs(a) + Msgs(b)
  {
    if a == [] {
      assert a + b == b;
    } else {
      assert (a + b)[0] == a[0] && (a + b)[1..] == a[1..] + b;
      MsgsAppend(a[1..], b);
      Associates(if a[0].Hs? then [a[0].m] else [], Msgs(a[1..]), Msgs(b));
    }
  }

  lemma TagAppend(server: bool, a: seq<Item>, b: seq<Item>)
    ensures Tag(server, a + b) == Tag(server, a) + Tag(server, b)
    ensures Msgs(a + b) == Msgs(a) + Msgs(b)
  {
    TagsAppend(server, a, b);
    MsgsAppend(a, b);
  }

  // ---- What each side still has before it ----

  function PendC(o: Options, p: Peer<CState>): seq<Act> {
    (if p.wait == ReadCcs then [Act(true, KCcs)] else []) + RestC(o, p.state)
  }

  function PendS(o: Options, p: Peer<SState>): seq<Act> {
    (if p.wait == ReadCcs then [Act(false, KCcs)] else []) + RestS(o, p.state)
  }

  // ---- Contents ----

  /** A message as an honest peer writes it, `pre` being the transcript before it. */
  predicate Good(o: Options, server: bool, pre: seq<Msg>, m: Msg) {
    match m
    case Finished(fromServer, over) => fromServer == server && over == pre
    case Msg(kind, body) => kind != FinishedType && (kind == Certificate ==> (body != 0 <==> server || o.clientHasCert))
  }

  predicate AllGood(o: Options, server: bool, pre: seq<Msg>, msgs: seq<Msg>) {
    forall k :: 0 <= k < |msgs| ==> Good(o, server, pre + msgs[..k], msgs[k])
  }

  lemma AllGoodAppend(o: Options, server: bool, pre: seq<Msg>, a: seq<Msg>, b: seq<Msg>)
    requires AllGood(o, server, pre, a) && AllGood(o, server, pre + a, b)
    ensures AllGood(o, server, pre, a + b)
  {
    forall k | 0 <= k < |a + b| ensures Good(o, server, pre + (a + b)[..k], (a + b)[k]) {
      if k < |a| {
        assert (a + b)[..k] == a[..k];
      } else {
        assert pre + (a + b)[..k] == pre + a + b[..k - |a|];
      }
    }
  }

  lemma AllGoodRest(o: Options, server: bool, pre: seq<Msg>, msgs: seq<Msg>)
    requires AllGood(o, server, pre, msgs) && msgs != []
    ensures Good(o, server, pre, msgs[0]) && AllGood(o, server, pre + [msgs[0]], msgs[1..])
  {
    assert pre + msgs[..0] == pre;
    forall k | 0 <= k < |msgs| - 1 ensures Good(o, server, pre + [msgs[0]] + msgs[1..][..k], msgs[1..][k]) {
      assert pre + [msgs[0]] + msgs[1..][..k] == pre + msgs[..k + 1];
    }
  }

  // ---- One side ahead of the other ----

  /** Side `me` is ahead: nothing is on its way to it, and what is on its way to the
      other side is just what the other side has yet to read before both stand at the
      same point of the script. */
  predicate Ahead(o: Options, me: bool, pendMe: seq<Act>, pendYou: seq<Act>, toMe: seq<Item>, toYou: seq<Item>,
                  mine: seq<Msg>, yours: seq<Msg>) {
    && toMe == []
    && pendYou == Tag(me, toYou) + pendMe
    && mine == yours + Msgs(toYou)
    && AllGood(o, me, yours, Msgs(toYou))
  }

  /** The first act still to come for `me`, when an item is on its way to it. */
  lemma HeadMatches(o: Options, me: bool, pendMe: seq<Act>, pendYou: seq<Act>, toMe: seq<Item>, toYou: seq<Item>,
                    mine: seq<Msg>, yours: seq<Msg>)
    requires Ahead(o, !me, pendYou, pendMe, toYou, toMe, yours, mine) && toMe != []
    ensures pendMe != [] && pendMe[0] == Act(!me, KindOf(toMe[0]))
    ensures pendMe[1..] == Tag(!me, toMe[1..]) + pendYou
    ensures toMe[0].Hs? ==> Good(o, !me, mine, toMe[0].m)
    ensures if toMe[0].Hs? then Ahead(o, !me, pendYou, pendMe[1..], toYou, toMe[1..], yours, mine + [toMe[0].m])
            else Ahead(o, !me, pendYou, pendMe[1..], toYou, toMe[1..], yours, mine)
  {
    if toMe[0].Hs? {
      assert Msgs(toMe)[0] == toMe[0].m && Msgs(toMe)[1..] == Msgs(toMe[1..]);
      AllGoodRest(o, !me, mine, Msgs(toMe));
      assert mine + Msgs(toMe) == mine + [toMe[0].m] + Msgs(toMe[1..]);
    } else {
      assert Msgs(toMe) == Msgs(toMe[1..]);
    }
  }

  /** Saying more keeps `me` ahead. */
  lemma SayMore(o: Options, me: bool, pendMe: seq<Act>, pendYou: seq<Act>, toYou: seq<Item>, said: seq<Item>,
                mine: seq<Msg>, yours: seq<Msg>, pendMe': seq<Act>)
    requires Ahead(o, me, pendMe, pendYou, [], toYou, mine, yours)
    requires pendMe == Tag(me, said) + pendMe' && AllGood(o, me, mine, Msgs(said))
    ensures Ahead(o, me, pendMe', pendYou, [], toYou + said, mine + Msgs(said), yours)
  {
    hide Tag, Msgs, AllGood;
    TagAppend(me, toYou, said);
    AllGoodAppend(o, me, yours, Msgs(toYou), Msgs(said));
    Associates(Tag(me, toYou), Tag(me, said), pendMe');
    Associates(yours, Msgs(toYou), Msgs(said));
  }

  /** When the other side is ahead and `me` has something to say next, both stand at
      the same point. */
  lemma SpeakerIsLevel(o: Options, me: bool, pendMe: seq<Act>, pendYou: seq<Act>, toMe: seq<Item>, toYou: seq<Item>,
                       mine: seq<Msg>, yours: seq<Msg>)
    requires Ahead(o, !me, pendYou, pendMe, toYou, toMe, yours, mine)
    requires pendMe != [] && pendMe[0].server == me
    ensures toMe == [] && Ahead(o, me, pendMe, pendYou, toMe, toYou, mine, yours)
  {
    if toMe != [] {
      HeadMatches(o, me, pendMe, pendYou, toMe, toYou, mine, yours);
    }
  }

  // ---- One step of a machine ----

  /** A step either takes the message in the inbox or says something or nothing; it
      does just what comes next for that side. */
  ghost predicate Moves<T>(o: Options, me: bool, p: Peer<T>, pend: seq<Act>, p': Peer<T>, pend': seq<Act>) {
    if p.inbox.Some? && p'.inbox.None? then
      && p'.flight == p.flight && p'.transcript == p.transcript + [p.inbox.value]
      && pend == [Act(!me, KMsg(TypeOf(p.inbox.value)))] + pend'
    else
      && p'.inbox == p.inbox && p.flight <= p'.flight
      && var said := p'.flight[|p.flight|..];
      && p'.transcript == p.transcript + Msgs(said)
      && pend == Tag(me, said) + pend' && AllGood(o, me, p.transcript, Msgs(said))
  }

  predicate SendingC(st: CState) {
    st == CSendCertificate || st == CSendKeyExchange || st == CSendCertificateVerify || st == CSendFinished
  }

  /** After the certificate request has been read. */
  predicate LateC(st: CState) {
    !(st.CStart? || st.CEnterEarlyData? || st.CReadServerHello? || st.CReadServerCertificate? || st.CReadCertificateStatus?
      || st.CVerifyServerCertificate? || st.CReadServerKeyExchange? || st.CReadCertificateRequest?)
  }

  ghost predicate PeerOk<T>(me: bool, p: Peer<T>, pend: seq<Act>, sending: bool, atCcs: bool) {
    && p.wait != Error
    && (p.wait == ReadMessage || p.wait == ReadCcs ==> p.inbox.None? && p.flight == [])
    && (p.wait == ReadCcs ==> atCcs)
    && (atCcs ==> p.inbox.None? && p.wait != ReadMessage)
    && (p.flight != [] ==> p.wait == Flush || sending)
    && (p.wait == ReadMessage ==> pend != [] && pend[0].server != me && pend[0].kind.KMsg?)
  }

  ghost predicate ClientOk(o: Options, p: Peer<CState>) {
    && PeerOk(false, p, PendC(o, p), SendingC(p.state), p.state == CProcessCcs)
    && p.flag == (o.certRequest && LateC(p.state))
  }

  /** The inbox holds what comes next. */
  ghost predicate InboxOk<T>(o: Options, me: bool, p: Peer<T>, pend: seq<Act>) {
    p.inbox.Some? ==> pend != [] && pend[0] == Act(!me, KMsg(TypeOf(p.inbox.value))) && Good(o, !me, p.transcript, p.inbox.value)
  }

  /** The next message of the server's flight at the states that look ahead. */
  lemma NextOfServer(o: Options)
    ensures var done := S(ServerHelloDone);
            var request := if o.certRequest then S(CertificateRequest) else done;
            var keys := if o.skeSent then S(ServerKeyExchange) else request;
            && RestC(o, CReadServerHelloDone) != [] && RestC(o, CReadServerHelloDone)[0] == done
            && RestC(o, CReadCertificateRequest) != [] && RestC(o, CReadCertificateRequest)[0] == request
            && RestC(o, CReadServerKeyExchange) != [] && RestC(o, CReadServerKeyExchange)[0] == keys
            && RestC(o, CVerifyServerCertificate) == RestC(o, CReadServerKeyExchange)
            && RestC(o, CReadCertificateStatus) != []
            && RestC(o, CReadCertificateStatus)[0] == if o.certAuth && o.statusSent then S(CertificateStatus) else keys
  {
    hide RestC;
    StepC(o, CReadServerHelloDone);
    StepC(o, CReadCertificateRequest);
    StepC(o, CReadServerKeyExchange);
    QuietC(o, CVerifyServerCertificate);
    StepC(o, CReadCertificateStatus);
  }

  // ---- Saying several things ----

  function Said<T>(p: Peer<T>, p': Peer<T>): seq<Item>
    requires p.flight <= p'.flight
  {
    p'.flight[|p.flight|..]
  }

  /** From `p` to `p'` the side said just `acts`. */
  ghost predicate Says<T>(o: Options, me: bool, p: Peer<T>, p': Peer<T>, acts: seq<Act>) {
    && p'.inbox == p.inbox && p.flight <= p'.flight
    && Tag(me, Said(p, p')) == acts
    && p'.transcript == p.transcript + Msgs(Said(p, p'))
    && AllGood(o, me, p.transcript, Msgs(Said(p, p')))
  }

  lemma SaysThen<T>(o: Options, me: bool, p: Peer<T>, p1: Peer<T>, p2: Peer<T>, a: seq<Act>, b: seq<Act>)
    requires Says(o, me, p, p1, a) && Says(o, me, p1, p2, b)
    ensures Says(o, me, p, p2, a + b)
  {
    hide Tag, Msgs, AllGood;
    assert Said(p, p2) == Said(p, p1) + Said(p1, p2);
    TagAppend(me, Said(p, p1), Said(p1, p2));
    AllGoodAppend(o, me, p.transcript, Msgs(Said(p, p1)), Msgs(Said(p1, p2)));
    Associates(p.transcript, Msgs(Said(p, p1)), Msgs(Said(p1, p2)));
  }

  lemma OneMessage(me: bool, m: Msg)
    ensures Tag(me, [Hs(m)]) == [Act(me, KMsg(TypeOf(m)))] && Msgs([Hs(m)]) == [m]
    ensures Tag(me, [Ccs]) == [Act(me, KCcs)] && Msgs([Ccs]) == []
    ensures Tag(me, []) == [] && Msgs([]) == []
  {
  }

  lemma SaysNothing<T>(o: Options, me: bool, p: Peer<T>, p': Peer<T>)
    requires p'.flight == p.flight && p'.inbox == p.inbox && p'.transcript == p.transcript
    ensures Says(o, me, p, p', [])
  {
    assert Said(p, p') == [];
  }

  lemma SaysMessage<T>(o: Options, me: bool, p: Peer<T>, c: bool, m: Msg)
    requires c ==> Good(o, me, p.transcript, m)
    ensures Says(o, me, p, EmitIf(p, c, m), If(c, Act(me, KMsg(TypeOf(m)))))
  {
    if c {
      assert Said(p, Emit(p, m)) == [Hs(m)];
      OneMessage(me, m);
      assert p.transcript + [m][..0] == p.transcript;
    } else {
      SaysNothing(o, me, p, p);
    }
  }

  lemma SaysCcs<T>(o: Options, me: bool, p: Peer<T>)
    ensures Says(o, me, p, EmitCcs(p), [Act(me, KCcs)])
  {
    assert Said(p, EmitCcs(p)) == [Ccs];
    OneMessage(me, Msg(ClientHello, 0));
  }

  lemma SaysMoves<T>(o: Options, me: bool, p: Peer<T>, q: Peer<T>, p': Peer<T>, acts: seq<Act>, pend: seq<Act>, pend': seq<Act>)
    requires Says(o, me, p, q, acts) && pend == acts + pend'
    requires p'.inbox == q.inbox && p'.flight == q.flight && p'.transcript == q.transcript
    ensures Moves(o, me, p, pend, p', pend')
  {
    hide Tag, Msgs, AllGood;
    assert p'.flight[|p.flight|..] == Said(p, q);
  }

  lemma ClientSaysFinished(o: Options, p: Peer<CState>, ch: Choice)
    requires p.state == CSendFinished && p.wait == Go && !(o.channelId && ch.retry)
    ensures Moves(o, false, p, PendC(o, p), DoClient(o, p, ch), PendC(o, DoClient(o, p, ch)))
  {
    hide Says, Tag, Msgs, AllGood, RestC;
    var p1 := EmitCcs(p);
    var p2 := EmitIf(p1, o.npn, Msg(NextProto, ch.body));
    var p3 := EmitIf(p2, o.channelId, Msg(ChannelId, ch.body));
    var last := Finished(false, p3.transcript);
    SaysCcs(o, false, p);
    SaysMessage(o, false, p1, o.npn, Msg(NextProto, ch.body));
    SaysThen(o, false, p, p1, p2, [Act(false, KCcs)], If(o.npn, C(NextProto)));
    SaysMessage(o, false, p2, o.channelId, Msg(ChannelId, ch.body));
    SaysThen(o, false, p, p2, p3, [Act(false, KCcs)] + If(o.npn, C(NextProto)), If(o.channelId, C(ChannelId)));
    SaysMessage(o, false, p3, true, last);
    SaysThen(o, false, p, p3, Emit(p3, last),
             [Act(false, KCcs)] + If(o.npn, C(NextProto)) + If(o.channelId, C(ChannelId)), [C(FinishedType)]);
    StepC(o, CSendFinished);
    SaysMoves(o, false, p, Emit(p3, last), DoClient(o, p, ch), ClientEnd(o), PendC(o, p), PendC(o, DoClient(o, p, ch)));
  }

  lemma ClientSaysOne(o: Options, p: Peer<CState>, ch: Choice)
    requires Agreed(o) && p.wait == Go && p.flag == (o.certRequest && LateC(p.state))
    requires p.state == CStart || (p.state == CSendCertificate && !ch.retry) || p.state == CSendKeyExchange
             || (p.state == CSendCertificateVerify && !ch.retry)
    ensures Moves(o, false, p, PendC(o, p), DoClient(o, p, ch), PendC(o, DoClient(o, p, ch)))
  {
    hide Says, Tag, Msgs, AllGood, RestC;
    var m := match p.state
      case CStart => Msg(ClientHello, ch.body)
      case CSendCertificate => Msg(Certificate, if o.clientHasCert then ch.body + 1 else 0)
      case CSendKeyExchange => Msg(ClientKeyExchange, ch.body)
      case _ => Msg(CertificateVerify, ch.body);
    var c := match p.state
      case CSendCertificate => p.flag
      case CSendCertificateVerify => p.flag && o.clientHasCert
      case _ => true;
    SaysMessage(o, false, p, c, m);
    StepC(o, p.state);
    SaysMoves(o, false, p, EmitIf(p, c, m), DoClient(o, p, ch), ActsC(o, p.state), PendC(o, p), PendC(o, DoClient(o, p, ch)));
  }

  lemma QuietMoves<T>(o: Options, me: bool, p: Peer<T>, p': Peer<T>, pend: seq<Act>)
    requires p'.flight == p.flight && p'.inbox == p.inbox && p'.transcript == p.transcript
    ensures Moves(o, me, p, pend, p', pend)
  {
    assert p'.flight[|p.flight|..] == [];
  }

  /** A client that neither sends nor waits for anything asynchronous. */
  predicate ClientSpeaks(st: CState) {
    st == CStart || st == CSendCertificate || st == CSendKeyExchange || st == CSendCertificateVerify || st == CSendFinished
  }

  /** The step to `p'` is right. */
  ghost predicate ClientStep(o: Options, p: Peer<CState>, p': Peer<CState>) {
    Moves(o, false, p, PendC(o, p), p', PendC(o, p')) && ClientOk(o, p')
  }

  ghost predicate ClientReady(o: Options, p: Peer<CState>) {
    Agreed(o) && p.wait == Go && ClientOk(o, p) && InboxOk(o, false, p, PendC(o, p))
  }

  lemma ClientFacts(o: Options, p: Peer<CState>)
    requires ClientReady(o, p)
    ensures Agreed(o) && p.wait == Go && PendC(o, p) == RestC(o, p.state)
    ensures p.flag == (o.certRequest && LateC(p.state))
    ensures p.state == CProcessCcs ==> p.inbox.None?
    ensures InboxOk(o, false, p, PendC(o, p))
  {
    assert [] + RestC(o, p.state) == RestC(o, p.state);
  }

  lemma ClientBlocks(o: Options, p: Peer<CState>, typ: MsgType, rest: seq<Act>)
    requires ClientReady(o, p) && p.inbox.None? && !SendingC(p.state) && p.state != CProcessCcs
    requires RestC(o, p.state) == [S(typ)] + rest
    ensures ClientStep(o, p, Waits(p, ReadMessage))
  {
    QuietMoves(o, false, p, Waits(p, ReadMessage), PendC(o, p));
  }

  lemma ClientTakes(o: Options, p: Peer<CState>, typ: MsgType, next: CState, flag: bool)
    requires ClientReady(o, p) && p.inbox.Some? && !SendingC(p.state)
    requires flag == (o.certRequest && LateC(next))
    requires RestC(o, p.state) == [S(typ)] + RestC(o, next)
    ensures ClientStep(o, p, To(Consume(p), next).(flag := flag))
    ensures TypeOf(p.inbox.value) == typ && Good(o, true, p.transcript, p.inbox.value)
  {
    ClientFacts(o, p);
    assert RestC(o, p.state)[0] == S(typ);
  }

  lemma ClientTakesTicket(o: Options, p: Peer<CState>)
    requires ClientReady(o, p) && p.inbox.Some? && p.state == CReadSessionTicket && o.ticket
    ensures ClientStep(o, p, Waits(To(Consume(p), CProcessCcs), ReadCcs))
    ensures TypeOf(p.inbox.value) == NewSessionTicket
  {
    ClientFacts(o, p);
    TicketThenCcs(o);
    hide RestC;
    assert RestC(o, p.state)[0] == S(NewSessionTicket);
  }

  lemma ClientGoesOn(o: Options, p: Peer<CState>, next: CState, wait: Wait)
    requires ClientReady(o, p) && (SendingC(p.state) ==> SendingC(next))
    requires wait == Go || wait == Retry || (wait == ReadCcs && next == CProcessCcs && !SendingC(p.state))
    requires next == CProcessCcs ==> p.inbox.None?
    requires o.certRequest ==> LateC(next) == LateC(p.state)
    requires PendC(o, To(p, next).(wait := wait)) == PendC(o, p)
    ensures ClientStep(o, p, To(p, next).(wait := wait))
  {
    QuietMoves(o, false, p, To(p, next).(wait := wait), PendC(o, p));
  }

  lemma ClientReadsPlain(o: Options, p: Peer<CState>, ch: Choice)
    requires ClientReady(o, p)
    requires p.state == CReadServerHello || (p.state == CReadServerCertificate && o.certAuth) || p.state == CReadServerHelloDone
    ensures ClientStep(o, p, DoClient(o, p, ch))
  {
    hide RestC, ClientReady, ClientStep;
    ClientFacts(o, p);
    StepC(o, p.state);
    var next := NextC(o, p.state);
    var typ := match p.state case CReadServerHello => ServerHello case CReadServerCertificate => Certificate case _ => ServerHelloDone;
    if p.inbox.None? {
      ClientBlocks(o, p, typ, RestC(o, next));
    } else {
      ClientTakes(o, p, typ, next, o.certRequest && LateC(next));
    }
  }

  lemma ClientLooksAhead(o: Options, p: Peer<CState>, ch: Choice)
    requires ClientReady(o, p)
    requires p.state == CReadCertificateStatus || p.state == CReadServerKeyExchange || p.state == CReadCertificateRequest
    ensures ClientStep(o, p, DoClient(o, p, ch))
  {
    hide RestC, ClientReady, ClientStep;
    ClientFacts(o, p);
    StepC(o, p.state);
    NextOfServer(o);
    var next := NextC(o, p.state);
    if ActsC(o, p.state) != [] {
      var typ := match p.state
        case CReadCertificateStatus => CertificateStatus
        case CReadServerKeyExchange => ServerKeyExchange
        case _ => CertificateRequest;
      if p.inbox.None? {
        ClientBlocks(o, p, typ, RestC(o, next));
      } else {
        ClientTakes(o, p, typ, next, o.certRequest && LateC(next));
      }
    } else {
      QuietC(o, p.state);
      if DoClient(o, p, ch).wait == Go {
        ClientGoesOn(o, p, next, Go);
      } else {
        ClientBlocks(o, p, RestC(o, p.state)[0].kind.typ, RestC(o, p.state)[1..]);
      }
    }
  }

  lemma ClientReadsFinished(o: Options, p: Peer<CState>, ch: Choice)
    requires ClientReady(o, p) && p.state == CReadFinished
    ensures ClientStep(o, p, DoClient(o, p, ch))
  {
    hide RestC, ClientReady, ClientStep;
    ClientFacts(o, p);
    StepC(o, p.state);
    var next := NextC(o, p.state);
    if p.inbox.None? {
      ClientBlocks(o, p, FinishedType, RestC(o, next));
    } else {
      ClientTakes(o, p, FinishedType, next, o.certRequest && LateC(next));
    }
  }

  /** After the ticket, if there is one, comes the change of cipher. */
  lemma TicketThenCcs(o: Options)
    ensures var after := [Act(true, KCcs)] + RestC(o, CProcessCcs);
            RestC(o, CReadSessionTicket) == if o.ticket then [S(NewSessionTicket)] + after else after
  {
    StepC(o, CReadSessionTicket);
    Associates([S(NewSessionTicket)], [Act(true, KCcs)], RestC(o, CProcessCcs));
    hide RestC;
    assert [] + [Act(true, KCcs)] == [Act(true, KCcs)];
  }

  lemma ClientReadsTicket(o: Options, p: Peer<CState>, ch: Choice)
    requires ClientReady(o, p) && p.state == CReadSessionTicket
    ensures ClientStep(o, p, DoClient(o, p, ch))
  {
    hide RestC, ClientReady, ClientStep;
    ClientFacts(o, p);
    TicketThenCcs(o);
    if !o.ticket {
      ClientGoesOn(o, p, CProcessCcs, ReadCcs);
    } else if p.inbox.None? {
      ClientBlocks(o, p, NewSessionTicket, [Act(true, KCcs)] + RestC(o, CProcessCcs));
    } else {
      ClientTakesTicket(o, p);
    }
  }

  lemma ClientQuiet(o: Options, p: Peer<CState>, ch: Choice)
    requires ClientReady(o, p)
    requires p.state == CEnterEarlyData || (p.state == CReadServerCertificate && !o.certAuth) || p.state == CVerifyServerCertificate
             || p.state == CFinishFlight || p.state == CProcessCcs || p.state == CFinish || p.state == CDone
    ensures ClientStep(o, p, DoClient(o, p, ch))
  {
    hide RestC, ClientReady, ClientStep;
    ClientFacts(o, p);
    if p.state != CDone { QuietC(o, p.state); }
    if p.state == CVerifyServerCertificate && o.certAuth && ch.retry {
      ClientGoesOn(o, p, p.state, Retry);
    } else {
      ClientGoesOn(o, p, NextC(o, p.state), Go);
    }
  }

  lemma ClientSpoke(o: Options, p: Peer<CState>, p': Peer<CState>)
    requires ClientReady(o, p) && Moves(o, false, p, PendC(o, p), p', PendC(o, p'))
    requires p'.state != CProcessCcs && p'.flag == p.flag && (p'.wait == Flush || (p'.wait == Go && SendingC(p'.state)))
    requires o.certRequest ==> LateC(p'.state) == LateC(p.state)
    ensures ClientStep(o, p, p')
  {
  }

  lemma ClientSpeaksOk(o: Options, p: Peer<CState>, ch: Choice)
    requires ClientReady(o, p) && ClientSpeaks(p.state)
    ensures ClientStep(o, p, DoClient(o, p, ch))
  {
    hide Tag, Msgs, AllGood, RestC, Moves, ClientStep, ClientReady, ClientOk;
    ClientFacts(o, p);
    var p' := DoClient(o, p, ch);
    if p'.wait == Retry {
      ClientGoesOn(o, p, p.state, Retry);
    } else {
      if p.state == CSendFinished {
        ClientSaysFinished(o, p, ch);
      } else {
        var ch' := if p.state == CSendCertificate || p.state == CSendCertificateVerify then ch.(retry := false) else ch;
        assert DoClient(o, p, ch') == p';
        ClientSaysOne(o, p, ch');
      }
      ClientSpoke(o, p, p');
    }
  }

  /** Every step of the client does what comes next, and none is an error. */
  lemma ClientMoves(o: Options, p: Peer<CState>, ch: Choice)
    requires ClientReady(o, p)
    ensures ClientStep(o, p, DoClient(o, p, ch))
  {
    hide ClientReady, ClientStep, DoClient;
    if ClientSpeaks(p.state) {
      ClientSpeaksOk(o, p, ch);
    } else if p.state == CReadServerHello || (p.state == CReadServerCertificate && o.certAuth) || p.state == CReadServerHelloDone {
      ClientReadsPlain(o, p, ch);
    } else if p.state == CReadCertificateStatus || p.state == CReadServerKeyExchange || p.state == CReadCertificateRequest {
      ClientLooksAhead(o, p, ch);
    } else if p.state == CReadSessionTicket {
      ClientReadsTicket(o, p, ch);
    } else if p.state == CReadFinished {
      ClientReadsFinished(o, p, ch);
    } else {
      ClientQuiet(o, p, ch);
    }
  }

  // ---- The server's steps ----

  predicate SendingS(st: SState) {
    st == SSendCertificate || st == SSendKeyExchange || st == SSendHelloDone || st == SSendFinished
  }

  /** After the client's certificate, if any, has been read. */
  predicate LateS(st: SState) {
    !(st.SStart? || st.SReadClientHello? || st.SSelectCertificate? || st.SSelectParameters? || st.SSendServerHello?
      || st.SSendCertificate? || st.SSendKeyExchange? || st.SSendHelloDone? || st.SReadCertificate?)
  }

  predicate HasKey(o: Options, st: SState) {
    o.certRequest && o.clientHasCert && LateS(st)
  }

  ghost predicate ServerOk(o: Options, p: Peer<SState>) {
    && PeerOk(true, p, PendS(o, p), SendingS(p.state), p.state == SProcessCcs)
    && p.flag == HasKey(o, p.state)
  }

  ghost predicate ServerStep(o: Options, p: Peer<SState>, p': Peer<SState>) {
    Moves(o, true, p, PendS(o, p), p', PendS(o, p')) && ServerOk(o, p')
  }

  ghost predicate ServerReady(o: Options, p: Peer<SState>) {
    Agreed(o) && p.wait == Go && ServerOk(o, p) && InboxOk(o, true, p, PendS(o, p))
  }

  lemma ServerFacts(o: Options, p: Peer<SState>)
    requires ServerReady(o, p)
    ensures Agreed(o) && p.wait == Go && PendS(o, p) == RestS(o, p.state)
    ensures p.flag == HasKey(o, p.state)
    ensures p.state == SProcessCcs ==> p.inbox.None?
    ensures InboxOk(o, true, p, PendS(o, p))
  {
    assert [] + RestS(o, p.state) == RestS(o, p.state);
  }

  lemma ServerBlocks(o: Options, p: Peer<SState>, typ: MsgType, rest: seq<Act>)
    requires ServerReady(o, p) && p.inbox.None? && !SendingS(p.state) && p.state != SProcessCcs
    requires RestS(o, p.state) == [C(typ)] + rest
    ensures ServerStep(o, p, Waits(p, ReadMessage))
  {
    QuietMoves(o, true, p, Waits(p, ReadMessage), PendS(o, p));
  }

  lemma ServerSees(o: Options, p: Peer<SState>, typ: MsgType, rest: seq<Act>)
    requires ServerReady(o, p) && p.inbox.Some? && RestS(o, p.state) == [C(typ)] + rest
    ensures TypeOf(p.inbox.value) == typ && Good(o, false, p.transcript, p.inbox.value)
  {
    ServerFacts(o, p);
    assert RestS(o, p.state)[0] == C(typ);
  }

  lemma ServerTakes(o: Options, p: Peer<SState>, typ: MsgType, next: SState)
    requires ServerReady(o, p) && p.inbox.Some? && !SendingS(p.state)
    requires RestS(o, p.state) == [C(typ)] + RestS(o, next)
    ensures ServerStep(o, p, To(Consume(p), next).(flag := HasKey(o, next)))
    ensures TypeOf(p.inbox.value) == typ && Good(o, false, p.transcript, p.inbox.value)
  {
    ServerFacts(o, p);
    assert RestS(o, p.state)[0] == C(typ);
  }

  lemma ServerGoesOn(o: Options, p: Peer<SState>, next: SState, wait: Wait)
    requires ServerReady(o, p) && (SendingS(p.state) ==> SendingS(next))
    requires wait == Go || wait == Retry || (wait == ReadCcs && next == SProcessCcs && !SendingS(p.state))
    requires next == SProcessCcs ==> p.inbox.None?
    requires o.certRequest ==> LateS(next) == LateS(p.state)
    requires PendS(o, To(p, next).(wait := wait)) == PendS(o, p)
    ensures ServerStep(o, p, To(p, next).(wait := wait))
  {
    QuietMoves(o, true, p, To(p, next).(wait := wait), PendS(o, p));
  }

  lemma ServerGreets(o: Options, p: Peer<SState>, ch: Choice)
    requires ServerReady(o, p)
    requires p.state == SReadClientHello || p.state == SSelectCertificate || p.state == SSelectParameters
    ensures ServerStep(o, p, DoServer(o, p, ch))
  {
    hide RestS, ServerReady, ServerStep;
    ServerFacts(o, p);
    QuietS(o, SReadClientHello);
    QuietS(o, SSelectCertificate);
    StepS(o, SSelectParameters);
    var rest := RestS(o, SSendServerHello);
    if p.inbox.None? {
      ServerBlocks(o, p, ClientHello, rest);
    } else {
      ServerSees(o, p, ClientHello, rest);
      if ch.retry {
        ServerGoesOn(o, p, p.state, Retry);
      } else if p.state == SSelectParameters {
        ServerTakes(o, p, ClientHello, SSendServerHello);
      } else {
        ServerGoesOn(o, p, NextS(o, p.state), Go);
      }
    }
  }

  /** The states that read one message, if the options call for it. */
  predicate ServerReads(o: Options, p: Peer<SState>) {
    match p.state
    case SReadCertificate => o.certRequest
    case SReadKeyExchange => true
    case SReadCertificateVerify => p.flag
    case SReadNextProto => o.npn
    case SReadChannelId => o.channelId
    case SReadFinished => true
    case _ => false
  }

  function ReadType(st: SState): MsgType {
    match st
    case SReadCertificate => Certificate
    case SReadKeyExchange => ClientKeyExchange
    case SReadCertificateVerify => CertificateVerify
    case SReadNextProto => NextProto
    case SReadChannelId => ChannelId
    case _ => FinishedType
  }

  lemma ServerReadsOne(o: Options, p: Peer<SState>, ch: Choice)
    requires ServerReady(o, p) && ServerReads(o, p)
    ensures ServerStep(o, p, DoServer(o, p, ch))
  {
    hide RestS, ServerReady, ServerStep;
    ServerFacts(o, p);
    StepS(o, p.state);
    var next := NextS(o, p.state);
    if p.inbox.None? {
      ServerBlocks(o, p, ReadType(p.state), RestS(o, next));
    } else {
      ServerTakes(o, p, ReadType(p.state), next);
      if p.state == SReadKeyExchange && ch.retry {
        ServerGoesOn(o, p, p.state, Retry);
      }
    }
  }

  lemma ServerQuiet(o: Options, p: Peer<SState>, ch: Choice)
    requires ServerReady(o, p) && !ServerReads(o, p)
    requires p.state == SStart || p.state == SReadCertificate || p.state == SVerifyClientCertificate || p.state == SReadCertificateVerify
             || p.state == SReadCcs || p.state == SProcessCcs || p.state == SReadNextProto || p.state == SReadChannelId
             || p.state == SFinish || p.state == SDone
    ensures ServerStep(o, p, DoServer(o, p, ch))
  {
    hide RestS, ServerReady, ServerStep;
    ServerFacts(o, p);
    var next := NextS(o, p.state);
    if p.state == SReadCcs {
      StepS(o, p.state);
      assert RestS(o, p.state)[0] == Act(false, KCcs);
      ServerGoesOn(o, p, next, ReadCcs);
    } else if p.state == SVerifyClientCertificate && p.flag && ch.retry {
      ServerGoesOn(o, p, p.state, Retry);
    } else {
      if p.state != SDone { QuietS(o, p.state); }
      ServerGoesOn(o, p, next, Go);
    }
  }

  predicate ServerSpeaks(st: SState) {
    st == SSendServerHello || SendingS(st)
  }

  /** One optional message and then another. */
  lemma SaysTwo<T>(o: Options, me: bool, p: Peer<T>, c: bool, m: Msg, c': bool, m': Msg)
    requires c ==> Good(o, me, p.transcript, m)
    requires c' ==> Good(o, me, EmitIf(p, c, m).transcript, m')
    ensures Says(o, me, p, EmitIf(EmitIf(p, c, m), c', m'),
                 If(c, Act(me, KMsg(TypeOf(m)))) + If(c', Act(me, KMsg(TypeOf(m')))))
  {
    SaysMessage(o, me, p, c, m);
    SaysMessage(o, me, EmitIf(p, c, m), c', m');
    SaysThen(o, me, p, EmitIf(p, c, m), EmitIf(EmitIf(p, c, m), c', m'),
             If(c, Act(me, KMsg(TypeOf(m)))), If(c', Act(me, KMsg(TypeOf(m')))));
  }

  lemma ServerSaysOne(o: Options, p: Peer<SState>, ch: Choice)
    requires p.wait == Go
    requires p.state == SSendServerHello || (p.state == SSendKeyExchange && DoServer(o, p, ch).wait != Retry)
    ensures Moves(o, true, p, PendS(o, p), DoServer(o, p, ch), PendS(o, DoServer(o, p, ch)))
  {
    hide Says, Tag, Msgs, AllGood, RestS;
    var hello := p.state == SSendServerHello;
    var m := if hello then Msg(ServerHello, ch.body) else Msg(ServerKeyExchange, ch.body);
    var c := hello || o.skeSent;
    SaysMessage(o, true, p, c, m);
    StepS(o, p.state);
    SaysMoves(o, true, p, EmitIf(p, c, m), DoServer(o, p, ch), ActsS(o, p.state), PendS(o, p), PendS(o, DoServer(o, p, ch)));
  }

  lemma ServerSaysPair(o: Options, p: Peer<SState>, ch: Choice)
    requires p.wait == Go && (p.state == SSendCertificate || p.state == SSendHelloDone)
    ensures Moves(o, true, p, PendS(o, p), DoServer(o, p, ch), PendS(o, DoServer(o, p, ch)))
  {
    hide Says, Tag, Msgs, AllGood, RestS;
    var cert := p.state == SSendCertificate;
    var c, m := if cert then o.certAuth else o.certRequest,
      if cert then Msg(Certificate, ch.body + 1) else Msg(CertificateRequest, ch.body);
    var c', m' := !cert || (o.certAuth && o.statusSent),
      if cert then Msg(CertificateStatus, ch.body) else Msg(ServerHelloDone, ch.body);
    SaysTwo(o, true, p, c, m, c', m');
    StepS(o, p.state);
    SaysMoves(o, true, p, EmitIf(EmitIf(p, c, m), c', m'), DoServer(o, p, ch), ActsS(o, p.state),
              PendS(o, p), PendS(o, DoServer(o, p, ch)));
  }

  lemma ServerSaysFinished(o: Options, p: Peer<SState>, ch: Choice)
    requires p.state == SSendFinished && p.wait == Go
    ensures Moves(o, true, p, PendS(o, p), DoServer(o, p, ch), PendS(o, DoServer(o, p, ch)))
  {
    hide Says, Tag, Msgs, AllGood, RestS;
    var p1 := EmitIf(p, o.ticket, Msg(NewSessionTicket, ch.body));
    var p2 := EmitCcs(p1);
    var last := Finished(true, p2.transcript);
    SaysMessage(o, true, p, o.ticket, Msg(NewSessionTicket, ch.body));
    SaysCcs(o, true, p1);
    SaysThen(o, true, p, p1, p2, If(o.ticket, S(NewSessionTicket)), [Act(true, KCcs)]);
    SaysMessage(o, true, p2, true, last);
    SaysThen(o, true, p, p2, Emit(p2, last), If(o.ticket, S(NewSessionTicket)) + [Act(true, KCcs)], [S(FinishedType)]);
    StepS(o, SSendFinished);
    SaysMoves(o, true, p, Emit(p2, last), DoServer(o, p, ch), ServerEnd(o), PendS(o, p), PendS(o, DoServer(o, p, ch)));
  }

  lemma ServerSpoke(o: Options, p: Peer<SState>, p': Peer<SState>)
    requires ServerReady(o, p) && Moves(o, true, p, PendS(o, p), p', PendS(o, p'))
    requires p'.state != SProcessCcs && p'.flag == p.flag && (p'.wait == Flush || (p'.wait == Go && SendingS(p'.state)))
    requires o.certRequest ==> LateS(p'.state) == LateS(p.state)
    ensures ServerStep(o, p, p')
  {
  }

  /** What sending leaves of the state. */
  lemma ServerAfterSpeaking(o: Options, p: Peer<SState>, ch: Choice)
    requires p.wait == Go && ServerSpeaks(p.state)
    ensures var p' := DoServer(o, p, ch);
            if p'.wait == Retry then p' == Waits(p, Retry)
            else p'.state != SProcessCcs && p'.flag == p.flag && (p'.wait == Flush || (p'.wait == Go && SendingS(p'.state)))
                 && (!o.resumed ==> p.state != SSendFinished ==> LateS(p'.state) == LateS(p.state))
                 && (p.state == SSendFinished ==> LateS(p'.state) && LateS(p.state))
  {
  }

  lemma ServerSpeaksOk(o: Options, p: Peer<SState>, ch: Choice)
    requires ServerReady(o, p) && ServerSpeaks(p.state)
    ensures ServerStep(o, p, DoServer(o, p, ch))
  {
    ServerFacts(o, p);
    ServerAfterSpeaking(o, p, ch);
    hide RestS, Moves, ServerStep, ServerReady, ServerOk;
    var p' := DoServer(o, p, ch);
    if p'.wait == Retry {
      ServerGoesOn(o, p, p.state, Retry);
      return;
    }
    if p.state == SSendFinished {
      ServerSaysFinished(o, p, ch);
    } else if p.state == SSendServerHello || p.state == SSendKeyExchange {
      ServerSaysOne(o, p, ch);
    } else {
      ServerSaysPair(o, p, ch);
    }
    hide DoServer;
    ServerSpoke(o, p, p');
  }

  /** Every step of the server does what comes next, and none is an error. */
  lemma ServerMoves(o: Options, p: Peer<SState>, ch: Choice)
    requires ServerReady(o, p)
    ensures ServerStep(o, p, DoServer(o, p, ch))
  {
    hide ServerReady, ServerStep, DoServer;
    if ServerSpeaks(p.state) {
      ServerSpeaksOk(o, p, ch);
    } else if p.state == SReadClientHello || p.state == SSelectCertificate || p.state == SSelectParameters {
      ServerGreets(o, p, ch);
    } else if ServerReads(o, p) {
      ServerReadsOne(o, p, ch);
    } else {
      ServerQuiet(o, p, ch);
    }
  }

  // ---- What one state does to one side ----

  /** The message in the inbox was hashed and consumed; nothing was said. */
  predicate Reads<T>(p: Peer<T>, p': Peer<T>) {
    p.inbox.Some? && p'.inbox.None? && p'.transcript == p.transcript + [p.inbox.value] && p'.flight == p.flight
  }

  /** One message was said and hashed; the inbox is as it was. */
  predicate SaysOne<T>(p: Peer<T>, p': Peer<T>, m: Msg) {
    p'.inbox == p.inbox && p'.transcript == p.transcript + [m] && p'.flight == p.flight + [Hs(m)]
  }

  predicate Quiet<T>(p: Peer<T>, p': Peer<T>) {
    p'.inbox == p.inbox && p'.transcript == p.transcript && p'.flight == p.flight
  }

  function Wrapped(msgs: seq<Msg>): seq<Item> {
    if msgs == [] then [] else [Hs(msgs[0])] + Wrapped(msgs[1..])
  }

  /** The last flight of a side: some messages, a change of cipher before or after
      them, and a Finished over all that was said and read until then. */
  predicate FinishedAfter(server: bool, flight: seq<Item>, transcript: seq<Msg>, before: seq<Item>, msgs: seq<Msg>,
                          after: seq<Item>, flight': seq<Item>, transcript': seq<Msg>) {
    var last := Finished(server, transcript + msgs);
    flight' == flight + before + Wrapped(msgs) + after + [Hs(last)] && transcript' == transcript + msgs + [last]
  }

  lemma OneWrapped(m: Msg)
    ensures Wrapped([m]) == [Hs(m)] && Wrapped([]) == []
  {
    assert [m][1..] == [];
  }

  lemma {:induction false} WrappedAppend(a: seq<Msg>, b: seq<Msg>)
    ensures Wrapped(a + b) == Wrapped(a) + Wrapped(b)
  {
    if a == [] {
      assert a + b == b;
    } else {
      assert (a + b)[1..] == a[1..] + b;
      WrappedAppend(a[1..], b);
    }
  }

  lemma ClientKeeps(o: Options, p: Peer<CState>, ch: Choice)
    ensures ClientReady(o, p) ==> ClientStep(o, p, DoClient(o, p, ch))
  {
    if ClientReady(o, p) { ClientMoves(o, p, ch); }
  }

  lemma ServerKeeps(o: Options, p: Peer<SState>, ch: Choice)
    ensures ServerReady(o, p) ==> ServerStep(o, p, DoServer(o, p, ch))
  {
    if ServerReady(o, p) { ServerMoves(o, p, ch); }
  }
}
