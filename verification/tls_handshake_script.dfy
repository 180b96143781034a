// What is still to be said: from each state of the client and of the server, the
// rest of the handshake. Both machines follow the message flow of section 7.3 of
// RFC 5246.
module TlsHandshakeScript {
  import opened Basics
  import opened TlsHandshakeModel

  datatype Kind = KMsg(typ: MsgType) | KCcs

  /** Something that the server (or else the client) says. */
  datatype Act = Act(server: bool, kind: Kind)

  function C(typ: MsgType): Act {
    Act(false, KMsg(typ))
  }

  function S(typ: MsgType): Act {
    Act(true, KMsg(typ))
  }

  function If(c: bool, a: Act): seq<Act> {
    if c then [a] else []
  }

  /** The client's last flight, and the server's. */
  function ClientEnd(o: Options): seq<Act> {
    [Act(false, KCcs)] + If(o.npn, C(NextProto)) + If(o.channelId, C(ChannelId)) + [C(FinishedType)]
  }

  function ServerEnd(o: Options): seq<Act> {
    If(o.ticket, S(NewSessionTicket)) + [Act(true, KCcs)] + [S(FinishedType)]
  }

  function ServerHello1(o: Options): seq<Act> {
    If(o.certAuth, S(Certificate)) + If(o.certAuth && o.statusSent, S(CertificateStatus))
    + If(o.skeSent, S(ServerKeyExchange)) + (If(o.certRequest, S(CertificateRequest)) + [S(ServerHelloDone)])
  }

  function ClientKeys(o: Options): seq<Act> {
    If(o.certRequest, C(Certificate)) + [C(ClientKeyExchange)] + If(o.certRequest && o.clientHasCert, C(CertificateVerify))
  }

  /** The flow as the standard draws it. */
  function Script(o: Options): seq<Act> {
    [C(ClientHello), S(ServerHello)]
    + if o.resumed then ServerEnd(o) + ClientEnd(o)
      else ServerHello1(o) + ClientKeys(o) + (ClientEnd(o) + ServerEnd(o))
  }

  // ---- The client's view ----

  function RankC(o: Options, st: CState): nat {
    match st
    case CStart => 30
    case CEnterEarlyData => 29
    case CReadServerHello => 28
    case CReadServerCertificate => 27
    case CReadCertificateStatus => 26
    case CVerifyServerCertificate => 25
    case CReadServerKeyExchange => 24
    case CReadCertificateRequest => 23
    case CReadServerHelloDone => 22
    case CSendCertificate => 21
    case CSendKeyExchange => 20
    case CSendCertificateVerify => 19
    case CSendFinished => if o.resumed then 5 else 18
    case CFinishFlight => if o.resumed then 4 else 17
    case CReadSessionTicket => 10
    case CProcessCcs => 9
    case CReadFinished => 8
    case CFinish => 2
    case CDone => 0
  }

  /** What passes in one state, in order. */
  function ActsC(o: Options, st: CState): seq<Act> {
    match st
    case CStart => [C(ClientHello)]
    case CReadServerHello => [S(ServerHello)]
    case CReadServerCertificate => If(o.certAuth, S(Certificate))
    case CReadCertificateStatus => If(o.certAuth && o.statusSent, S(CertificateStatus))
    case CReadServerKeyExchange => If(o.skeSent, S(ServerKeyExchange))
    case CReadCertificateRequest => If(o.certRequest, S(CertificateRequest))
    case CReadServerHelloDone => [S(ServerHelloDone)]
    case CSendCertificate => If(o.certRequest, C(Certificate))
    case CSendKeyExchange => [C(ClientKeyExchange)]
    case CSendCertificateVerify => If(o.certRequest && o.clientHasCert, C(CertificateVerify))
    case CSendFinished => ClientEnd(o)
    case CReadSessionTicket => If(o.ticket, S(NewSessionTicket)) + [Act(true, KCcs)]
    case CReadFinished => [S(FinishedType)]
    case _ => []
  }

  function NextC(o: Options, st: CState): CState {
    match st
    case CStart => CEnterEarlyData
    case CEnterEarlyData => CReadServerHello
    case CReadServerHello => if o.resumed then CReadSessionTicket else CReadServerCertificate
    case CReadServerCertificate => CReadCertificateStatus
    case CReadCertificateStatus => CVerifyServerCertificate
    case CVerifyServerCertificate => CReadServerKeyExchange
    case CReadServerKeyExchange => CReadCertificateRequest
    case CReadCertificateRequest => CReadServerHelloDone
    case CReadServerHelloDone => CSendCertificate
    case CSendCertificate => CSendKeyExchange
    case CSendKeyExchange => CSendCertificateVerify
    case CSendCertificateVerify => CSendFinished
    case CSendFinished => CFinishFlight
    case CFinishFlight => if o.resumed then CFinish else CReadSessionTicket
    case CReadSessionTicket => CProcessCcs
    case CProcessCcs => CReadFinished
    case CReadFinished => if o.resumed then CSendFinished else CFinish
    case CFinish => CDone
    case CDone => CDone
  }

  lemma NextCDescends(o: Options, st: CState)
    ensures st != CDone ==> RankC(o, NextC(o, st)) < RankC(o, st)
  {
  }

  /** What the client expects and means to say from state `st` on. */
  function RestC(o: Options, st: CState): seq<Act>
    decreases RankC(o, st)
  {
    NextCDescends(o, st);
    if st == CDone then [] else ActsC(o, st) + RestC(o, NextC(o, st))
  }

  // ---- The server's view ----

  function RankS(o: Options, st: SState): nat {
    match st
    case SStart => 30
    case SReadClientHello => 29
    case SSelectCertificate => 28
    case SSelectParameters => 27
    case SSendServerHello => 26
    case SSendCertificate => 25
    case SSendKeyExchange => 24
    case SSendHelloDone => 23
    case SReadCertificate => 22
    case SVerifyClientCertificate => 21
    case SReadKeyExchange => 20
    case SReadCertificateVerify => 19
    case SReadCcs => 12
    case SProcessCcs => 11
    case SReadNextProto => 10
    case SReadChannelId => 9
    case SReadFinished => 8
    case SSendFinished => if o.resumed then 13 else 5
    case SFinish => 2
    case SDone => 0
  }

  function ActsS(o: Options, st: SState): seq<Act> {
    match st
    case SSelectParameters => [C(ClientHello)]
    case SSendServerHello => [S(ServerHello)]
    case SSendCertificate => If(o.certAuth, S(Certificate)) + If(o.certAuth && o.statusSent, S(CertificateStatus))
    case SSendKeyExchange => If(o.skeSent, S(ServerKeyExchange))
    case SSendHelloDone => If(o.certRequest, S(CertificateRequest)) + [S(ServerHelloDone)]
    case SReadCertificate => If(o.certRequest, C(Certificate))
    case SReadKeyExchange => [C(ClientKeyExchange)]
    case SReadCertificateVerify => If(o.certRequest && o.clientHasCert, C(CertificateVerify))
    case SReadCcs => [Act(false, KCcs)]
    case SReadNextProto => If(o.npn, C(NextProto))
    case SReadChannelId => If(o.channelId, C(ChannelId))
    case SReadFinished => [C(FinishedType)]
    case SSendFinished => ServerEnd(o)
    case _ => []
  }

  function NextS(o: Options, st: SState): SState {
    match st
    case SStart => SReadClientHello
    case SReadClientHello => SSelectCertificate
    case SSelectCertificate => SSelectParameters
    case SSelectParameters => SSendServerHello
    case SSendServerHello => if o.resumed then SSendFinished else SSendCertificate
    case SSendCertificate => SSendKeyExchange
    case SSendKeyExchange => SSendHelloDone
    case SSendHelloDone => SReadCertificate
    case SReadCertificate => SVerifyClientCertificate
    case SVerifyClientCertificate => SReadKeyExchange
    case SReadKeyExchange => SReadCertificateVerify
    case SReadCertificateVerify => SReadCcs
    case SReadCcs => SProcessCcs
    case SProcessCcs => SReadNextProto
    case SReadNextProto => SReadChannelId
    case SReadChannelId => SReadFinished
    case SReadFinished => if o.resumed then SFinish else SSendFinished
    case SSendFinished => if o.resumed then SReadCcs else SFinish
    case SFinish => SDone
    case SDone => SDone
  }

  lemma NextSDescends(o: Options, st: SState)
    ensures st != SDone ==> RankS(o, NextS(o, st)) < RankS(o, st)
  {
  }

  function RestS(o: Options, st: SState): seq<Act>
    decreases RankS(o, st)
  {
    NextSDescends(o, st);
    if st == SDone then [] else ActsS(o, st) + RestS(o, NextS(o, st))
  }

  // ---- Both follow the script ----

  lemma StepC(o: Options, st: CState)
    requires st != CDone
    ensures RestC(o, st) == ActsC(o, st) + RestC(o, NextC(o, st))
  {
  }

  lemma StepS(o: Options, st: SState)
    requires st != SDone
    ensures RestS(o, st) == ActsS(o, st) + RestS(o, NextS(o, st))
  {
  }

  lemma ClientEnds(o: Options)
    ensures RestC(o, CReadSessionTicket) == ServerEnd(o) + if o.resumed then ClientEnd(o) else []
    ensures RestC(o, CSendFinished) == ClientEnd(o) + if o.resumed then [] else ServerEnd(o)
  {
    hide RestC, ClientEnd, If;
    StepC(o, CReadSessionTicket);
    QuietC(o, CProcessCcs);
    StepC(o, CReadFinished);
    StepC(o, CSendFinished);
    QuietC(o, CFinishFlight);
    QuietC(o, CFinish);
    assert RestC(o, CDone) == [] by { NothingAfterDone(o); }
  }

  lemma NothingAfterDone(o: Options)
    ensures RestC(o, CDone) == [] && RestS(o, SDone) == []
  {
  }

  lemma Four<T>(a: seq<T>, b: seq<T>, c: seq<T>, d: seq<T>)
    ensures a + (b + (c + d)) == a + b + c + d
  {
  }

  lemma Six<T>(a: seq<T>, b: seq<T>, c: seq<T>, d: seq<T>, e: seq<T>, r: seq<T>)
    ensures a + (b + (c + (d + (e + r)))) == a + b + c + (d + e) + r
  {
    Four(a, b, c, d + (e + r));
    assert d + (e + r) == d + e + r;
    assert a + b + c + (d + e + r) == a + b + c + (d + e) + r;
  }

  lemma Five<T>(a: seq<T>, b: seq<T>, c: seq<T>, d: seq<T>, r: seq<T>)
    ensures a + (b + (c + (d + r))) == a + b + c + d + r
  {
    Four(a, b, c, d + r);
    Associates(a + b + c, d, r);
  }

  lemma ServerReadsEnd(o: Options)
    ensures RestS(o, SReadCcs) == ClientEnd(o) + RestS(o, NextS(o, SReadFinished))
  {
    hide RestS, If;
    StepS(o, SReadCcs);
    QuietS(o, SProcessCcs);
    StepS(o, SReadNextProto);
    StepS(o, SReadChannelId);
    StepS(o, SReadFinished);
    Five([Act(false, KCcs)], If(o.npn, C(NextProto)), If(o.channelId, C(ChannelId)), [C(FinishedType)],
         RestS(o, NextS(o, SReadFinished)));
  }

  lemma ServerEnds(o: Options)
    ensures RestS(o, SReadCcs) == ClientEnd(o) + if o.resumed then [] else ServerEnd(o)
    ensures RestS(o, SSendFinished) == ServerEnd(o) + if o.resumed then ClientEnd(o) else []
  {
    hide RestS, ServerEnd, ClientEnd;
    ServerReadsEnd(o);
    StepS(o, SSendFinished);
    QuietS(o, SFinish);
    NothingAfterDone(o);
  }

  /** States in which nothing passes. */
  lemma QuietC(o: Options, st: CState)
    requires st != CDone && ActsC(o, st) == []
    ensures RestC(o, st) == RestC(o, NextC(o, st))
  {
  }

  lemma QuietS(o: Options, st: SState)
    requires st != SDone && ActsS(o, st) == []
    ensures RestS(o, st) == RestS(o, NextS(o, st))
  {
  }

  lemma ClientReadsHello(o: Options)
    ensures RestC(o, CReadServerCertificate) == ServerHello1(o) + RestC(o, CSendCertificate)
  {
    hide RestC, If;
    StepC(o, CReadServerCertificate);
    StepC(o, CReadCertificateStatus);
    QuietC(o, CVerifyServerCertificate);
    StepC(o, CReadServerKeyExchange);
    StepC(o, CReadCertificateRequest);
    StepC(o, CReadServerHelloDone);
    Six(If(o.certAuth, S(Certificate)), If(o.certAuth && o.statusSent, S(CertificateStatus)),
        If(o.skeSent, S(ServerKeyExchange)), If(o.certRequest, S(CertificateRequest)), [S(ServerHelloDone)], RestC(o, CSendCertificate));
  }

  lemma ClientSendsKeys(o: Options)
    ensures RestC(o, CSendCertificate) == ClientKeys(o) + RestC(o, CSendFinished)
  {
    hide RestC, If;
    StepC(o, CSendCertificate);
    StepC(o, CSendKeyExchange);
    StepC(o, CSendCertificateVerify);
    Four(If(o.certRequest, C(Certificate)), [C(ClientKeyExchange)],
         If(o.certRequest && o.clientHasCert, C(CertificateVerify)), RestC(o, CSendFinished));
  }

  lemma ServerSendsHello(o: Options)
    ensures RestS(o, SSendCertificate) == ServerHello1(o) + RestS(o, SReadCertificate)
  {
    hide RestS, If;
    StepS(o, SSendCertificate);
    StepS(o, SSendKeyExchange);
    StepS(o, SSendHelloDone);
    Four(If(o.certAuth, S(Certificate)) + If(o.certAuth && o.statusSent, S(CertificateStatus)),
         If(o.skeSent, S(ServerKeyExchange)), If(o.certRequest, S(CertificateRequest)) + [S(ServerHelloDone)], RestS(o, SReadCertificate));
  }

  lemma ServerReadsKeys(o: Options)
    ensures RestS(o, SReadCertificate) == ClientKeys(o) + RestS(o, SReadCcs)
  {
    hide RestS, If;
    StepS(o, SReadCertificate);
    QuietS(o, SVerifyClientCertificate);
    StepS(o, SReadKeyExchange);
    StepS(o, SReadCertificateVerify);
    Four(If(o.certRequest, C(Certificate)), [C(ClientKeyExchange)],
         If(o.certRequest && o.clientHasCert, C(CertificateVerify)), RestS(o, SReadCcs));
  }

  lemma AfterHello(o: Options, rest: seq<Act>)
    ensures [C(ClientHello)] + ([S(ServerHello)] + rest) == [C(ClientHello), S(ServerHello)] + rest
  {
  }

  lemma ClientFollowsScript(o: Options)
    ensures RestC(o, CStart) == Script(o)
  {
    hide RestC, ClientEnd, ServerEnd, If, ServerHello1, ClientKeys;
    ClientEnds(o);
    StepC(o, CStart);
    QuietC(o, CEnterEarlyData);
    StepC(o, CReadServerHello);
    ClientReadsHello(o);
    ClientSendsKeys(o);
    AfterHello(o, RestC(o, NextC(o, CReadServerHello)));
    Associates(ServerHello1(o), ClientKeys(o), ClientEnd(o) + ServerEnd(o));
  }

  lemma ServerFollowsScript(o: Options)
    ensures RestS(o, SStart) == Script(o)
  {
    hide RestS, ClientEnd, ServerEnd, If, ServerHello1, ClientKeys;
    ServerEnds(o);
    QuietS(o, SStart);
    QuietS(o, SReadClientHello);
    QuietS(o, SSelectCertificate);
    StepS(o, SSelectParameters);
    StepS(o, SSendServerHello);
    ServerSendsHello(o);
    ServerReadsKeys(o);
    AfterHello(o, RestS(o, NextS(o, SSendServerHello)));
    Associates(ServerHello1(o), ClientKeys(o), ClientEnd(o) + ServerEnd(o));
  }
}
