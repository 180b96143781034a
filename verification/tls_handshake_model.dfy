// The TLS 1.0 - 1.2 handshake (section 7.3 of RFC 5246): the two state machines as
// functions on a value. Cryptography and extension negotiation are abstract: what
// they decide is the options both sides agree on once the ServerHello is read.
module TlsHandshakeModel {
  import opened Basics

  datatype MsgType = ClientHello | ServerHello | Certificate | CertificateStatus | ServerKeyExchange
    | CertificateRequest | ServerHelloDone | ClientKeyExchange | CertificateVerify
    | NextProto | ChannelId | NewSessionTicket | FinishedType

  /** The verify data of a Finished message stands for the transcript it covers. A
      Certificate message with body 0 holds no certificate. */
  datatype Msg = Msg(kind: MsgType, body: nat) | Finished(fromServer: bool, over: seq<Msg>)

  function TypeOf(m: Msg): MsgType {
    if m.Finished? then FinishedType else m.kind
  }

  datatype Item = Hs(m: Msg) | Ccs

  /** What both sides know of the connection. */
  datatype Options = Options(
    resumed: bool,            // ssl->session != NULL
    certAuth: bool,           // ssl_cipher_uses_certificate_auth
    statusExpected: bool,     // the client's certificate_status_expected
    statusSent: bool,         // the server's
    skeRequired: bool,        // ssl_cipher_requires_server_key_exchange
    skeSent: bool,            // that, or PSK with an identity hint
    certRequest: bool,        // the server's cert_request
    requireClientCert: bool,  // SSL_VERIFY_FAIL_IF_NO_PEER_CERT
    clientHasCert: bool,      // the client's ssl_has_certificate
    ticket: bool,             // ticket_expected
    npn: bool,                // next_proto_neg_seen
    channelId: bool)          // tlsext_channel_id_valid

  /** What honest peers agree on. */
  predicate Agreed(o: Options) {
    && (o.statusSent ==> o.statusExpected && o.certAuth)
    && (o.skeRequired ==> o.skeSent)
    && (o.certRequest ==> o.certAuth && !o.resumed)
    && (o.certRequest && o.requireClientCert ==> o.clientHasCert)
  }

  datatype Wait = Go | Flush | ReadMessage | ReadCcs | Retry | Error

  datatype CState = CStart | CEnterEarlyData | CReadServerHello | CReadServerCertificate | CReadCertificateStatus
    | CVerifyServerCertificate | CReadServerKeyExchange | CReadCertificateRequest | CReadServerHelloDone
    | CSendCertificate | CSendKeyExchange | CSendCertificateVerify | CSendFinished | CFinishFlight
    | CReadSessionTicket | CProcessCcs | CReadFinished | CFinish | CDone

  datatype SState = SStart | SReadClientHello | SSelectCertificate | SSelectParameters | SSendServerHello
    | SSendCertificate | SSendKeyExchange | SSendHelloDone | SReadCertificate | SVerifyClientCertificate
    | SReadKeyExchange | SReadCertificateVerify | SReadCcs | SProcessCcs | SReadNextProto | SReadChannelId
    | SReadFinished | SSendFinished | SFinish | SDone

  /** One side: `flag` is the client's cert_request, or whether the server has a
      public key of the client. */
  datatype Peer<S> = Peer(state: S, wait: Wait, transcript: seq<Msg>, inbox: Option<Msg>, flight: seq<Item>, flag: bool)

  /** What the environment decides at a step: whether an asynchronous operation asks
      to be retried, the contents of a message, how much a flush gets through. */
  datatype Choice = Choice(retry: bool, body: nat, count: nat)

  // ---- Building blocks ----

  function To<S>(p: Peer<S>, state: S): Peer<S> {
    p.(state := state)
  }

  function Waits<S>(p: Peer<S>, wait: Wait): Peer<S> {
    p.(wait := wait)
  }

  /** `add_message`: into the flight and the transcript. */
  function Emit<S>(p: Peer<S>, m: Msg): Peer<S> {
    p.(transcript := p.transcript + [m], flight := p.flight + [Hs(m)])
  }

  function EmitIf<S>(p: Peer<S>, c: bool, m: Msg): Peer<S> {
    if c then Emit(p, m) else p
  }

  function EmitCcs<S>(p: Peer<S>): Peer<S> {
    p.(flight := p.flight + [Ccs])
  }

  /** `ssl_hash_message` and `next_message`. */
  function Consume<S>(p: Peer<S>): Peer<S>
    requires p.inbox.Some?
  {
    p.(transcript := p.transcript + [p.inbox.value], inbox := None)
  }

  /** Expects a message of one type and then moves on. */
  function Expect<S>(p: Peer<S>, typ: MsgType, next: S): Peer<S> {
    if p.inbox.None? then Waits(p, ReadMessage)
    else if TypeOf(p.inbox.value) != typ then Waits(p, Error)
    else To(Consume(p), next)
  }

  /** `ssl_get_finished`. */
  function ExpectFinished<S>(p: Peer<S>, fromServer: bool, next: S): Peer<S> {
    if p.inbox.None? then Waits(p, ReadMessage)
    else if TypeOf(p.inbox.value) != FinishedType then Waits(p, Error)
    else if p.inbox.value != Finished(fromServer, p.transcript) then Waits(p, Error)
    else To(Consume(p), next)
  }

  // ---- The client ----

  function DoClient(o: Options, p: Peer<CState>, ch: Choice): Peer<CState> {
    match p.state
    case CStart => Waits(To(Emit(p, Msg(ClientHello, ch.body)), CEnterEarlyData), Flush)
    case CEnterEarlyData => To(p, CReadServerHello)
    case CReadServerHello => Expect(p, ServerHello, if o.resumed then CReadSessionTicket else CReadServerCertificate)
    case CReadServerCertificate =>
      if !o.certAuth then To(p, CReadCertificateStatus)
      else if p.inbox.Some? && p.inbox.value == Msg(Certificate, 0) then Waits(p, Error)
      else Expect(p, Certificate, CReadCertificateStatus)
    case CReadCertificateStatus =>
      if !o.statusExpected then To(p, CVerifyServerCertificate)
      else if p.inbox.Some? && TypeOf(p.inbox.value) != CertificateStatus then To(p, CVerifyServerCertificate)
      else Expect(p, CertificateStatus, CVerifyServerCertificate)
    case CVerifyServerCertificate =>
      if o.certAuth && ch.retry then Waits(p, Retry) else To(p, CReadServerKeyExchange)
    case CReadServerKeyExchange =>
      if p.inbox.Some? && TypeOf(p.inbox.value) != ServerKeyExchange then
        if o.skeRequired then Waits(p, Error) else To(p, CReadCertificateRequest)
      else Expect(p, ServerKeyExchange, CReadCertificateRequest)
    case CReadCertificateRequest =>
      if !o.certAuth then To(p, CReadServerHelloDone)
      else if p.inbox.Some? && TypeOf(p.inbox.value) == ServerHelloDone then To(p, CReadServerHelloDone)
      else if p.inbox.Some? && TypeOf(p.inbox.value) == CertificateRequest then To(Consume(p), CReadServerHelloDone).(flag := true)
      else Expect(p, CertificateRequest, CReadServerHelloDone)
    case CReadServerHelloDone => Expect(p, ServerHelloDone, CSendCertificate)
    case CSendCertificate =>
      if !p.flag then To(p, CSendKeyExchange)
      else if ch.retry then Waits(p, Retry)
      else To(Emit(p, Msg(Certificate, if o.clientHasCert then ch.body + 1 else 0)), CSendKeyExchange)
    case CSendKeyExchange => To(Emit(p, Msg(ClientKeyExchange, ch.body)), CSendCertificateVerify)
    case CSendCertificateVerify =>
      if !p.flag || !o.clientHasCert then To(p, CSendFinished)
      else if ch.retry then Waits(p, Retry)
      else To(Emit(p, Msg(CertificateVerify, ch.body)), CSendFinished)
    case CSendFinished =>
      if o.channelId && ch.retry then Waits(p, Retry)
      else
        var p1 := EmitCcs(p);
        var p2 := EmitIf(p1, o.npn, Msg(NextProto, ch.body));
        var p3 := EmitIf(p2, o.channelId, Msg(ChannelId, ch.body));
        Waits(To(Emit(p3, Finished(false, p3.transcript)), CFinishFlight), Flush)
    case CFinishFlight => To(p, if o.resumed then CFinish else CReadSessionTicket)
    case CReadSessionTicket =>
      if !o.ticket then Waits(To(p, CProcessCcs), ReadCcs)
      else
        var p' := Expect(p, NewSessionTicket, CProcessCcs);
        if p'.wait == Go then Waits(p', ReadCcs) else p'
    case CProcessCcs => if p.inbox.Some? then Waits(p, Error) else To(p, CReadFinished)
    case CReadFinished => ExpectFinished(p, true, if o.resumed then CSendFinished else CFinish)
    case CFinish => To(p, CDone)
    case CDone => p
  }

  // ---- The server ----

  function DoServer(o: Options, p: Peer<SState>, ch: Choice): Peer<SState> {
    match p.state
    case SStart => To(p, SReadClientHello)
    case SReadClientHello =>
      if p.inbox.None? then Waits(p, ReadMessage)
      else if TypeOf(p.inbox.value) != ClientHello then Waits(p, Error)
      else if ch.retry then Waits(p, Retry)
      else To(p, SSelectCertificate)
    case SSelectCertificate =>
      if p.inbox.None? then Waits(p, ReadMessage) else if ch.retry then Waits(p, Retry) else To(p, SSelectParameters)
    case SSelectParameters =>
      if p.inbox.None? then Waits(p, ReadMessage) else if ch.retry then Waits(p, Retry) else To(Consume(p), SSendServerHello)
    case SSendServerHello => To(Emit(p, Msg(ServerHello, ch.body)), if o.resumed then SSendFinished else SSendCertificate)
    case SSendCertificate =>
      var p1 := EmitIf(p, o.certAuth, Msg(Certificate, ch.body + 1));
      To(EmitIf(p1, o.certAuth && o.statusSent, Msg(CertificateStatus, ch.body)), SSendKeyExchange)
    case SSendKeyExchange =>
      if !o.skeSent then To(p, SSendHelloDone)
      else if o.certAuth && ch.retry then Waits(p, Retry)
      else To(Emit(p, Msg(ServerKeyExchange, ch.body)), SSendHelloDone)
    case SSendHelloDone =>
      var p1 := EmitIf(p, o.certRequest, Msg(CertificateRequest, ch.body));
      Waits(To(Emit(p1, Msg(ServerHelloDone, ch.body)), SReadCertificate), Flush)
    case SReadCertificate =>
      if !o.certRequest then To(p, SVerifyClientCertificate)
      else if p.inbox.Some? && p.inbox.value == Msg(Certificate, 0) && o.requireClientCert then Waits(p, Error)
      else
        var p' := Expect(p, Certificate, SVerifyClientCertificate);
        if p'.wait == Go then p'.(flag := p.inbox.value != Msg(Certificate, 0)) else p'
    case SVerifyClientCertificate => if p.flag && ch.retry then Waits(p, Retry) else To(p, SReadKeyExchange)
    case SReadKeyExchange =>
      if p.inbox.Some? && TypeOf(p.inbox.value) == ClientKeyExchange && ch.retry then Waits(p, Retry)
      else Expect(p, ClientKeyExchange, SReadCertificateVerify)
    case SReadCertificateVerify => if !p.flag then To(p, SReadCcs) else Expect(p, CertificateVerify, SReadCcs)
    case SReadCcs => Waits(To(p, SProcessCcs), ReadCcs)
    case SProcessCcs => if p.inbox.Some? then Waits(p, Error) else To(p, SReadNextProto)
    case SReadNextProto => if !o.npn then To(p, SReadChannelId) else Expect(p, NextProto, SReadChannelId)
    case SReadChannelId => if !o.channelId then To(p, SReadFinished) else Expect(p, ChannelId, SReadFinished)
    case SReadFinished => ExpectFinished(p, false, if o.resumed then SFinish else SSendFinished)
    case SSendFinished =>
      var p1 := EmitCcs(EmitIf(p, o.ticket, Msg(NewSessionTicket, ch.body)));
      Waits(To(Emit(p1, Finished(true, p1.transcript)), if o.resumed then SReadCcs else SFinish), Flush)
    case SFinish => To(p, SDone)
    case SDone => p
  }

  // ---- The driver and the two channels ----

  datatype System = System(c: Peer<CState>, s: Peer<SState>, toServer: seq<Item>, toClient: seq<Item>)

  function Start(): System {
    System(Peer(CStart, Go, [], None, [], false), Peer(SStart, Go, [], None, [], false), [], [])
  }

  /** Resolves what a side waits for, as `ssl_run_handshake` does: the side, what is
      left of its incoming channel, and what it has put on the outgoing one. */
  function Resolve<S>(p: Peer<S>, incoming: seq<Item>, ch: Choice): (Peer<S>, seq<Item>, seq<Item>) {
    match p.wait
    case Flush =>
      var n := if ch.count < |p.flight| then ch.count else |p.flight|;
      (p.(flight := p.flight[n..], wait := if n == |p.flight| then Go else Flush), incoming, p.flight[..n])
    case ReadMessage =>
      if incoming == [] then (p, incoming, [])
      else if incoming[0].Ccs? then (Waits(p, Error), incoming, [])
      else (p.(inbox := Some(incoming[0].m), wait := Go), incoming[1..], [])
    case ReadCcs =>
      if incoming == [] then (p, incoming, [])
      else if incoming[0].Hs? then (Waits(p, Error), incoming, [])
      else (Waits(p, Go), incoming[1..], [])
    case Retry => (Waits(p, Go), incoming, [])
    case Go => (p, incoming, [])
    case Error => (p, incoming, [])
  }

  datatype Event = Event(server: bool, ch: Choice)

  /** One side either resolves its wait or takes one step of its machine. */
  function Step(o: Options, sys: System, e: Event): System {
    if e.server then
      if sys.s.wait == Go then sys.(s := DoServer(o, sys.s, e.ch))
      else
        var (s, incoming, sent) := Resolve(sys.s, sys.toServer, e.ch);
        sys.(s := s, toServer := incoming, toClient := sys.toClient + sent)
    else
      if sys.c.wait == Go then sys.(c := DoClient(o, sys.c, e.ch))
      else
        var (c, incoming, sent) := Resolve(sys.c, sys.toClient, e.ch);
        sys.(c := c, toClient := incoming, toServer := sys.toServer + sent)
  }

  function Run(o: Options, sys: System, events: seq<Event>): System
    decreases |events|
  {
    if events == [] then sys else Run(o, Step(o, sys, events[0]), events[1..])
  }
}
