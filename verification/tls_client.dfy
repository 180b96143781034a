// The client's machine as the source runs it: one method for each state, changing the
// handshake in place, and the driver loop over them.
module TlsClient {
  import opened Basics
  import opened TlsHandshakeModel
  import opened TlsHandshakeScript
  import opened TlsHandshake
  import opened TlsHandshakeRuns

  /** Steps until the machine waits for something or is done. `ch` says what the
      environment decides in each state. */
  function Drive(o: Options, p: Peer<CState>, ch: CState -> Choice): Peer<CState>
    requires p.wait == Go
    decreases RankC(o, p.state)
  {
    if p.state == CDone then p
    else
      ClientGoesToNext(o, p, ch(p.state));
      NextCDescends(o, p.state);
      var p' := DoClient(o, p, ch(p.state));
      if p'.wait != Go then p' else Drive(o, p', ch)
  }

  class ClientHandshake {
    const o: Options
    var state: CState
    var transcript: seq<Msg>
    var inbox: Option<Msg>     // a complete message, not yet consumed
    var flight: seq<Item>      // not yet handed to the transport
    var certRequest: bool      // cert_request

    ghost function Model(wait: Wait): Peer<CState>
      reads this
    {
      Peer(state, wait, transcript, inbox, flight, certRequest)
    }

    constructor (o: Options)
      ensures this.o == o && Model(Go) == Start().c
    {
      this.o := o;
      state, transcript, inbox, flight, certRequest := CStart, [], None, [], false;
    }

    /** `ssl_add_message_cbb`. */
    method AddMessage(m: Msg)
      modifies this`transcript, this`flight
      ensures Model(Go) == Emit(old(Model(Go)), m)
    {
      flight := flight + [Hs(m)];
      transcript := transcript + [m];
    }

    method AddChangeCipherSpec()
      modifies this`flight
      ensures Model(Go) == TlsHandshakeModel.EmitCcs(old(Model(Go)))
    {
      flight := flight + [Ccs];
    }

    /** `ssl_hash_message` and `next_message`. */
    method HashAndNext()
      requires inbox.Some?
      modifies this`transcript, this`inbox
      ensures Model(Go) == Consume(old(Model(Go)))
    {
      transcript := transcript + [inbox.value];
      inbox := None;
    }

    /** `do_start_connect`. */
    method StartConnect(ch: Choice) returns (ret: Wait)
      requires state == CStart
      modifies this
      ensures Model(ret) == DoClient(o, old(Model(Go)), ch)
      ensures ret == Flush && SaysOne(old(Model(Go)), Model(ret), Msg(ClientHello, ch.body))
      ensures ClientReady(o, old(Model(Go))) ==> ClientStep(o, old(Model(Go)), Model(ret))
    {
      ClientKeeps(o, Model(Go), ch);
      hide ClientReady, ClientStep;
      AddMessage(Msg(ClientHello, ch.body));
      state := CEnterEarlyData;
      ret := Flush;
    }

    /** `do_enter_early_data`, without early data. */
    method EnterEarlyData(ch: Choice) returns (ret: Wait)
      requires state == CEnterEarlyData
      modifies this
      ensures Model(ret) == DoClient(o, old(Model(Go)), ch)
      ensures ret == Go && Quiet(old(Model(Go)), Model(ret))
      ensures ClientReady(o, old(Model(Go))) ==> ClientStep(o, old(Model(Go)), Model(ret))
    {
      ClientKeeps(o, Model(Go), ch);
      hide ClientReady, ClientStep;
      state := CReadServerHello;
      ret := Go;
    }

    /** `do_read_server_hello`. */
    method ReadServerHello(ch: Choice) returns (ret: Wait)
      requires state == CReadServerHello
      modifies this
      ensures Model(ret) == DoClient(o, old(Model(Go)), ch)
      ensures ret == Error <==> old(inbox).Some? && TypeOf(old(inbox).value) != ServerHello
      ensures ret == Go <==> Reads(old(Model(Go)), Model(ret))
      ensures ret != Go ==> Quiet(old(Model(Go)), Model(ret))
      ensures ClientReady(o, old(Model(Go))) ==> ClientStep(o, old(Model(Go)), Model(ret))
    {
      ClientKeeps(o, Model(Go), ch);
      hide ClientReady, ClientStep;
      if inbox.None? {
        return ReadMessage;
      }
      if TypeOf(inbox.value) != ServerHello {
        return Error;
      }
      HashAndNext();
      state := if o.resumed then CReadSessionTicket else CReadServerCertificate;
      ret := Go;
    }

    /** `do_read_server_certificate`. */
    method ReadServerCertificate(ch: Choice) returns (ret: Wait)
      requires state == CReadServerCertificate
      modifies this
      ensures Model(ret) == DoClient(o, old(Model(Go)), ch)
      ensures ret == Error <==> o.certAuth && old(inbox).Some? && (TypeOf(old(inbox).value) != Certificate || old(inbox).value == Msg(Certificate, 0))
      ensures Reads(old(Model(Go)), Model(ret)) <==> ret == Go && o.certAuth
      ensures !Reads(old(Model(Go)), Model(ret)) ==> Quiet(old(Model(Go)), Model(ret))
      ensures ClientReady(o, old(Model(Go))) ==> ClientStep(o, old(Model(Go)), Model(ret))
    {
      ClientKeeps(o, Model(Go), ch);
      hide ClientReady, ClientStep;
      if !o.certAuth {
        state := CReadCertificateStatus;
        return Go;
      }
      if inbox.None? {
        return ReadMessage;
      }
      if TypeOf(inbox.value) != Certificate || inbox.value == Msg(Certificate, 0) {
        return Error;
      }
      HashAndNext();
      state := CReadCertificateStatus;
      ret := Go;
    }

    /** `do_read_certificate_status`. */
    method ReadCertificateStatus(ch: Choice) returns (ret: Wait)
      requires state == CReadCertificateStatus
      modifies this
      ensures Model(ret) == DoClient(o, old(Model(Go)), ch)
      ensures ret == ReadMessage <==> o.statusExpected && old(inbox).None?
      ensures ret != Error
      ensures Reads(old(Model(Go)), Model(ret)) <==> o.statusExpected && old(inbox).Some? && TypeOf(old(inbox).value) == CertificateStatus
      ensures !Reads(old(Model(Go)), Model(ret)) ==> Quiet(old(Model(Go)), Model(ret))
      ensures ClientReady(o, old(Model(Go))) ==> ClientStep(o, old(Model(Go)), Model(ret))
    {
      ClientKeeps(o, Model(Go), ch);
      hide ClientReady, ClientStep;
      if !o.statusExpected {
        state := CVerifyServerCertificate;
        return Go;
      }
      if inbox.None? {
        return ReadMessage;
      }
      if TypeOf(inbox.value) == CertificateStatus {
        HashAndNext();
      }
      state := CVerifyServerCertificate;
      ret := Go;
    }

    /** `do_verify_server_certificate`. */
    method VerifyServerCertificate(ch: Choice) returns (ret: Wait)
      requires state == CVerifyServerCertificate
      modifies this
      ensures Model(ret) == DoClient(o, old(Model(Go)), ch)
      ensures ret == (if o.certAuth && ch.retry then Retry else Go) && Quiet(old(Model(Go)), Model(ret))
      ensures ClientReady(o, old(Model(Go))) ==> ClientStep(o, old(Model(Go)), Model(ret))
    {
      ClientKeeps(o, Model(Go), ch);
      hide ClientReady, ClientStep;
      if o.certAuth && ch.retry {
        return Retry;
      }
      state := CReadServerKeyExchange;
      ret := Go;
    }

    /** `do_read_server_key_exchange`. */
    method ReadServerKeyExchange(ch: Choice) returns (ret: Wait)
      requires state == CReadServerKeyExchange
      modifies this
      ensures Model(ret) == DoClient(o, old(Model(Go)), ch)
      ensures ret == Error <==> o.skeRequired && old(inbox).Some? && TypeOf(old(inbox).value) != ServerKeyExchange
      ensures Reads(old(Model(Go)), Model(ret)) <==> old(inbox).Some? && TypeOf(old(inbox).value) == ServerKeyExchange
      ensures !Reads(old(Model(Go)), Model(ret)) ==> Quiet(old(Model(Go)), Model(ret))
      ensures ClientReady(o, old(Model(Go))) ==> ClientStep(o, old(Model(Go)), Model(ret))
    {
      ClientKeeps(o, Model(Go), ch);
      hide ClientReady, ClientStep;
      if inbox.None? {
        return ReadMessage;
      }
      if TypeOf(inbox.value) != ServerKeyExchange {
        if o.skeRequired {
          return Error;
        }
      } else {
        HashAndNext();
      }
      state := CReadCertificateRequest;
      ret := Go;
    }

    /** `do_read_certificate_request`. */
    method ReadCertificateRequest(ch: Choice) returns (ret: Wait)
      requires state == CReadCertificateRequest
      modifies this
      ensures Model(ret) == DoClient(o, old(Model(Go)), ch)
      ensures ret == Error <==> o.certAuth && old(inbox).Some? && TypeOf(old(inbox).value) != ServerHelloDone && TypeOf(old(inbox).value) != CertificateRequest
      ensures Reads(old(Model(Go)), Model(ret)) <==> o.certAuth && old(inbox).Some? && TypeOf(old(inbox).value) == CertificateRequest
      ensures certRequest <==> old(certRequest) || Reads(old(Model(Go)), Model(ret))
      ensures !Reads(old(Model(Go)), Model(ret)) ==> Quiet(old(Model(Go)), Model(ret))
      ensures ClientReady(o, old(Model(Go))) ==> ClientStep(o, old(Model(Go)), Model(ret))
    {
      ClientKeeps(o, Model(Go), ch);
      hide ClientReady, ClientStep;
      if !o.certAuth {
        state := CReadServerHelloDone;
        return Go;
      }
      if inbox.None? {
        return ReadMessage;
      }
      if TypeOf(inbox.value) != ServerHelloDone {
        if TypeOf(inbox.value) != CertificateRequest {
          return Error;
        }
        HashAndNext();
        certRequest := true;
      }
      state := CReadServerHelloDone;
      ret := Go;
    }

    /** `do_read_server_hello_done`. */
    method ReadServerHelloDone(ch: Choice) returns (ret: Wait)
      requires state == CReadServerHelloDone
      modifies this
      ensures Model(ret) == DoClient(o, old(Model(Go)), ch)
      ensures ret == Error <==> old(inbox).Some? && TypeOf(old(inbox).value) != ServerHelloDone
      ensures ret == Go <==> Reads(old(Model(Go)), Model(ret))
      ensures ret != Go ==> Quiet(old(Model(Go)), Model(ret))
      ensures ClientReady(o, old(Model(Go))) ==> ClientStep(o, old(Model(Go)), Model(ret))
    {
      ClientKeeps(o, Model(Go), ch);
      hide ClientReady, ClientStep;
      if inbox.None? {
        return ReadMessage;
      }
      if TypeOf(inbox.value) != ServerHelloDone {
        return Error;
      }
      HashAndNext();
      state := CSendCertificate;
      ret := Go;
    }

    /** `do_send_client_certificate`. */
    method SendClientCertificate(ch: Choice) returns (ret: Wait)
      requires state == CSendCertificate
      modifies this
      ensures Model(ret) == DoClient(o, old(Model(Go)), ch)
      ensures ret == Retry <==> certRequest && ch.retry
      ensures if certRequest && ret == Go then SaysOne(old(Model(Go)), Model(ret), Msg(Certificate, if o.clientHasCert then ch.body + 1 else 0)) else Quiet(old(Model(Go)), Model(ret))
      ensures ClientReady(o, old(Model(Go))) ==> ClientStep(o, old(Model(Go)), Model(ret))
    {
      ClientKeeps(o, Model(Go), ch);
      hide ClientReady, ClientStep;
      if certRequest {
        if ch.retry {
          return Retry;
        }
        AddMessage(Msg(Certificate, if o.clientHasCert then ch.body + 1 else 0));
      }
      state := CSendKeyExchange;
      ret := Go;
    }

    /** `do_send_client_key_exchange`. */
    method SendClientKeyExchange(ch: Choice) returns (ret: Wait)
      requires state == CSendKeyExchange
      modifies this
      ensures Model(ret) == DoClient(o, old(Model(Go)), ch)
      ensures ret == Go && SaysOne(old(Model(Go)), Model(ret), Msg(ClientKeyExchange, ch.body))
      ensures ClientReady(o, old(Model(Go))) ==> ClientStep(o, old(Model(Go)), Model(ret))
    {
      ClientKeeps(o, Model(Go), ch);
      hide ClientReady, ClientStep;
      AddMessage(Msg(ClientKeyExchange, ch.body));
      state := CSendCertificateVerify;
      ret := Go;
    }

    /** `do_send_client_certificate_verify`. */
    method SendClientCertificateVerify(ch: Choice) returns (ret: Wait)
      requires state == CSendCertificateVerify
      modifies this
      ensures Model(ret) == DoClient(o, old(Model(Go)), ch)
      ensures ret == Retry <==> certRequest && o.clientHasCert && ch.retry
      ensures if certRequest && o.clientHasCert && ret == Go then SaysOne(old(Model(Go)), Model(ret), Msg(CertificateVerify, ch.body)) else Quiet(old(Model(Go)), Model(ret))
      ensures ClientReady(o, old(Model(Go))) ==> ClientStep(o, old(Model(Go)), Model(ret))
    {
      ClientKeeps(o, Model(Go), ch);
      hide ClientReady, ClientStep;
      if certRequest && o.clientHasCert {
        if ch.retry {
          return Retry;
        }
        AddMessage(Msg(CertificateVerify, ch.body));
      }
      state := CSendFinished;
      ret := Go;
    }

    /** `do_send_client_finished`. */
    method SendClientFinished(ch: Choice) returns (ret: Wait)
      requires state == CSendFinished
      modifies this
      ensures Model(ret) == DoClient(o, old(Model(Go)), ch)
      ensures ret == Retry <==> o.channelId && ch.retry
      ensures ret == Retry ==> Quiet(old(Model(Go)), Model(ret))
      ensures ret != Retry ==> ret == Flush && inbox == old(inbox) && FinishedAfter(false, old(flight), old(transcript), [Ccs],
                (if o.npn then [Msg(NextProto, ch.body)] else []) + (if o.channelId then [Msg(ChannelId, ch.body)] else []),
                [], flight, transcript)
      ensures ClientReady(o, old(Model(Go))) ==> ClientStep(o, old(Model(Go)), Model(ret))
    {
      ClientKeeps(o, Model(Go), ch);
      hide ClientReady, ClientStep;
      if o.channelId && ch.retry {
        return Retry;
      }
      hide DoClient, Wrapped;
      ghost var proto := if o.npn then [Msg(NextProto, ch.body)] else [];
      ghost var id := if o.channelId then [Msg(ChannelId, ch.body)] else [];
      OneWrapped(Msg(NextProto, ch.body));
      OneWrapped(Msg(ChannelId, ch.body));
      WrappedAppend(proto, id);
      ClientFinishes(o, Model(Go), ch);
      AddChangeCipherSpec();
      if o.npn {
        AddMessage(Msg(NextProto, ch.body));
      }
      if o.channelId {
        AddMessage(Msg(ChannelId, ch.body));
      }
      assert transcript == old(transcript) + (proto + id);
      assert flight == old(flight) + [Ccs] + Wrapped(proto + id) + [];
      AddMessage(Finished(false, transcript));
      state := CFinishFlight;
      ret := Flush;
    }

    /** `do_finish_flight`, without False Start. */
    method FinishFlight(ch: Choice) returns (ret: Wait)
      requires state == CFinishFlight
      modifies this
      ensures Model(ret) == DoClient(o, old(Model(Go)), ch)
      ensures ret == Go && Quiet(old(Model(Go)), Model(ret))
      ensures ClientReady(o, old(Model(Go))) ==> ClientStep(o, old(Model(Go)), Model(ret))
    {
      ClientKeeps(o, Model(Go), ch);
      hide ClientReady, ClientStep;
      state := if o.resumed then CFinish else CReadSessionTicket;
      ret := Go;
    }

    /** `do_read_session_ticket`. */
    method ReadSessionTicket(ch: Choice) returns (ret: Wait)
      requires state == CReadSessionTicket
      modifies this
      ensures Model(ret) == DoClient(o, old(Model(Go)), ch)
      ensures ret == Error <==> o.ticket && old(inbox).Some? && TypeOf(old(inbox).value) != NewSessionTicket
      ensures Reads(old(Model(Go)), Model(ret)) <==> ret == ReadCcs && o.ticket
      ensures !Reads(old(Model(Go)), Model(ret)) ==> Quiet(old(Model(Go)), Model(ret))
      ensures ClientReady(o, old(Model(Go))) ==> ClientStep(o, old(Model(Go)), Model(ret))
    {
      ClientKeeps(o, Model(Go), ch);
      hide ClientReady, ClientStep;
      if o.ticket {
        if inbox.None? {
          return ReadMessage;
        }
        if TypeOf(inbox.value) != NewSessionTicket {
          return Error;
        }
        HashAndNext();
      }
      state := CProcessCcs;
      ret := ReadCcs;
    }

    /** `do_process_change_cipher_spec`. */
    method ProcessChangeCipherSpec(ch: Choice) returns (ret: Wait)
      requires state == CProcessCcs
      modifies this
      ensures Model(ret) == DoClient(o, old(Model(Go)), ch)
      ensures ret == Error <==> inbox.Some?
      ensures Quiet(old(Model(Go)), Model(ret))
      ensures ClientReady(o, old(Model(Go))) ==> ClientStep(o, old(Model(Go)), Model(ret))
    {
      ClientKeeps(o, Model(Go), ch);
      hide ClientReady, ClientStep;
      if inbox.Some? {
        return Error;
      }
      state := CReadFinished;
      ret := Go;
    }

    /** `do_read_server_finished`. */
    method ReadServerFinished(ch: Choice) returns (ret: Wait)
      requires state == CReadFinished
      modifies this
      ensures Model(ret) == DoClient(o, old(Model(Go)), ch)
      ensures ret == Error <==> old(inbox).Some? && old(inbox).value != Finished(true, old(transcript))
      ensures ret == Go <==> Reads(old(Model(Go)), Model(ret))
      ensures ret != Go ==> Quiet(old(Model(Go)), Model(ret))
      ensures ClientReady(o, old(Model(Go))) ==> ClientStep(o, old(Model(Go)), Model(ret))
    {
      ClientKeeps(o, Model(Go), ch);
      hide ClientReady, ClientStep;
      if inbox.None? {
        return ReadMessage;
      }
      if TypeOf(inbox.value) != FinishedType || inbox.value != Finished(true, transcript) {
        return Error;
      }
      HashAndNext();
      state := if o.resumed then CSendFinished else CFinish;
      ret := Go;
    }

    /** `do_finish_client_handshake`. */
    method FinishClientHandshake(ch: Choice) returns (ret: Wait)
      requires state == CFinish
      modifies this
      ensures Model(ret) == DoClient(o, old(Model(Go)), ch)
      ensures ret == Go && state == CDone && Quiet(old(Model(Go)), Model(ret))
      ensures ClientReady(o, old(Model(Go))) ==> ClientStep(o, old(Model(Go)), Model(ret))
    {
      ClientKeeps(o, Model(Go), ch);
      hide ClientReady, ClientStep;
      state := CDone;
      ret := Go;
    }

    predicate Early()
      reads this
    {
      state == CStart || state == CEnterEarlyData || state == CReadServerHello || state == CReadServerCertificate
      || state == CReadCertificateStatus || state == CVerifyServerCertificate || state == CReadServerKeyExchange
      || state == CReadCertificateRequest || state == CReadServerHelloDone
    }

    method DispatchEarly(ch: Choice) returns (ret: Wait)
      requires Early()
      modifies this
      ensures Model(ret) == DoClient(o, old(Model(Go)), ch)
      ensures ClientReady(o, old(Model(Go))) ==> ClientStep(o, old(Model(Go)), Model(ret))
    {
      hide DoClient, ClientReady, ClientStep, Reads, SaysOne, Quiet;
      if state == CStart {
        ret := StartConnect(ch);
      } else if state == CEnterEarlyData {
        ret := EnterEarlyData(ch);
      } else if state == CReadServerHello {
        ret := ReadServerHello(ch);
      } else if state == CReadServerCertificate {
        ret := ReadServerCertificate(ch);
      } else if state == CReadCertificateStatus {
        ret := ReadCertificateStatus(ch);
      } else if state == CVerifyServerCertificate {
        ret := VerifyServerCertificate(ch);
      } else if state == CReadServerKeyExchange {
        ret := ReadServerKeyExchange(ch);
      } else if state == CReadCertificateRequest {
        ret := ReadCertificateRequest(ch);
      } else {
        ret := ReadServerHelloDone(ch);
      }
    }

    method DispatchLate(ch: Choice) returns (ret: Wait)
      requires !Early() && state != CDone
      modifies this
      ensures Model(ret) == DoClient(o, old(Model(Go)), ch)
      ensures ClientReady(o, old(Model(Go))) ==> ClientStep(o, old(Model(Go)), Model(ret))
    {
      hide DoClient, ClientReady, ClientStep, Reads, SaysOne, Quiet;
      if state == CSendCertificate {
        ret := SendClientCertificate(ch);
      } else if state == CSendKeyExchange {
        ret := SendClientKeyExchange(ch);
      } else if state == CSendCertificateVerify {
        ret := SendClientCertificateVerify(ch);
      } else if state == CSendFinished {
        ret := SendClientFinished(ch);
      } else if state == CFinishFlight {
        ret := FinishFlight(ch);
      } else if state == CReadSessionTicket {
        ret := ReadSessionTicket(ch);
      } else if state == CProcessCcs {
        ret := ProcessChangeCipherSpec(ch);
      } else if state == CReadFinished {
        ret := ReadServerFinished(ch);
      } else {
        ret := FinishClientHandshake(ch);
      }
    }

    /** `ssl_client_handshake`. */
    method Handshake(ch: CState -> Choice) returns (ret: Wait)
      modifies this
      ensures Model(ret) == Drive(o, old(Model(Go)), ch)
    {
      hide DoClient, NextC, NextS, RankC, RankS, WaitsOrGoesOn;
      while state != CDone
        invariant Drive(o, Model(Go), ch) == Drive(o, old(Model(Go)), ch)
        decreases RankC(o, state)
      {
        ghost var p := Model(Go);
        var here := ch(state);
        Unfolds(o, p, ch);
        if Early() {
          ret := DispatchEarly(here);
        } else {
          ret := DispatchLate(here);
        }
        if ret != Go {
          return;
        }
      }
      ret := Go;
      DoneAlready(o, Model(Go), ch);
    }
  }

  lemma ClientFinishes(o: Options, p: Peer<CState>, ch: Choice)
    requires p.state == CSendFinished && !(o.channelId && ch.retry)
    ensures var p1 := EmitIf(EmitIf(TlsHandshakeModel.EmitCcs(p), o.npn, Msg(NextProto, ch.body)), o.channelId, Msg(ChannelId, ch.body));
            DoClient(o, p, ch) == Waits(To(Emit(p1, Finished(false, p1.transcript)), CFinishFlight), Flush)
  {
  }

  lemma Unfolds(o: Options, p: Peer<CState>, ch: CState -> Choice)
    requires p.wait == Go && p.state != CDone
    ensures var p' := DoClient(o, p, ch(p.state));
            && (p'.wait == Go ==> RankC(o, p'.state) < RankC(o, p.state))
            && Drive(o, p, ch) == if p'.wait != Go then p' else Drive(o, p', ch)
  {
    ClientGoesToNext(o, p, ch(p.state));
    NextCDescends(o, p.state);
    hide DoClient, NextC, NextS, RankC, RankS;
  }

  lemma DoneAlready(o: Options, p: Peer<CState>, ch: CState -> Choice)
    requires p.wait == Go && p.state == CDone
    ensures Drive(o, p, ch) == p
  {
  }

  /** A call of the driver is a run of single steps, so that what holds of every run
      holds of this code. */
  lemma {:induction false} DriveIsARun(o: Options, sys: System, ch: CState -> Choice) returns (events: seq<Event>)
    requires sys.c.wait == Go
    ensures Run(o, sys, events) == sys.(c := Drive(o, sys.c, ch))
    decreases RankC(o, sys.c.state)
  {
    hide DoClient, NextC, NextS, RankC, RankS;
    if sys.c.state == CDone {
      DoneAlready(o, sys.c, ch);
      return [];
    }
    Unfolds(o, sys.c, ch);
    var e := Event(false, ch(sys.c.state));
    var sys' := Step(o, sys, e);
    var rest := [];
    if sys'.c.wait == Go {
      rest := DriveIsARun(o, sys', ch);
    }
    events := [e] + rest;
    assert events[1..] == rest;
  }

  // ---- The loop that resolves what the machine waits for ----

  /** After a call of the driver: done, in error, or waiting further on - or waiting
      where it stood for a message or a retry. */
  lemma {:induction false} DriveDescends(o: Options, p: Peer<CState>, ch: CState -> Choice)
    requires p.wait == Go
    ensures var p' := Drive(o, p, ch);
            || p'.wait == Error || (p'.wait == Go && p'.state == CDone)
            || (p'.wait != Go && RankC(o, p'.state) < RankC(o, p.state))
            || (p'.state == p.state && (p'.wait == ReadMessage || p'.wait == Retry))
    decreases RankC(o, p.state)
  {
    hide DoClient, NextC, NextS, RankC, RankS;
    if p.state == CDone {
      DoneAlready(o, p, ch);
      return;
    }
    Unfolds(o, p, ch);
    ClientGoesToNext(o, p, ch(p.state));
    NextCDescends(o, p.state);
    var p' := DoClient(o, p, ch(p.state));
    if p'.wait == Go { DriveDescends(o, p', ch); }
  }

  class Connection {
    const hs: ClientHandshake
    var wait: Wait
    var incoming: seq<Item>   // records that have arrived
    var outgoing: seq<Item>   // records handed to the transport

    constructor (o: Options)
      ensures fresh(hs) && hs.o == o && hs.Model(wait) == Start().c && incoming == [] && outgoing == []
    {
      hs := new ClientHandshake(o);
      wait, incoming, outgoing := Go, [], [];
    }

    /** The whole system with this side and its channels as they are now. */
    ghost function In(sys: System): System
      reads this, hs
    {
      sys.(c := hs.Model(wait), toClient := incoming, toServer := outgoing)
    }

    /** One case of the switch on `hs->wait`; false when the call has to return. */
    method ResolveWait(ch: Choice, ghost sys: System) returns (go: bool)
      requires wait != Go && wait != Error
      modifies this, hs`inbox, hs`flight
      ensures In(sys) == Step(hs.o, old(In(sys)), Event(false, ch))
      ensures hs.state == old(hs.state)
      ensures go ==> wait == Go && old(wait) != Retry && |incoming| <= |old(incoming)|
      ensures go && (old(wait) == ReadMessage || old(wait) == ReadCcs) ==> |incoming| < |old(incoming)|
      ensures !go ==>
                || (wait == Flush && hs.flight != []) || (Blocked(hs.Model(wait)) && incoming == [])
                || (wait == Go && old(wait) == Retry)
                || wait == Error
      ensures wait == Error <==>
                (old(wait) == ReadMessage || old(wait) == ReadCcs)
                && old(incoming) != [] && (old(incoming)[0].Ccs? <==> old(wait) == ReadMessage)
    {
      if wait == Flush {
        var n := if ch.count < |hs.flight| then ch.count else |hs.flight|;
        outgoing := outgoing + hs.flight[..n];
        if n < |hs.flight| {
          hs.flight := hs.flight[n..];
          return false;
        }
        hs.flight := hs.flight[n..];
        wait := Go;
        return true;
      }
      if wait == Retry {
        wait := Go;
        assert outgoing + [] == outgoing;
        return false;
      }
      assert outgoing + [] == outgoing;
      if incoming == [] {
        return false;
      }
      if incoming[0].Ccs? != (wait == ReadCcs) {
        wait := Error;
        return false;
      }
      if wait == ReadMessage {
        hs.inbox := Some(incoming[0].m);
      }
      incoming := incoming[1..];
      wait := Go;
      go := true;
    }

    /** `ssl_run_handshake`: resolves the wait and runs the machine again, until it is
        done (1), has failed or has to be called again (-1). Whatever the rest of the
        system, the call is a run of single steps of this side. */
    method RunHandshake(ch: CState -> Choice, ghost sys: System) returns (r: int, ghost events: seq<Event>)
      modifies this, hs
      ensures In(sys) == Run(hs.o, old(In(sys)), events)
      ensures r == 1 ==> wait == Go && hs.state == CDone
      ensures r == 1 || r == -1
      // It comes back only for a reason: the transport is full, nothing has arrived, a
      // step asked to be retried, or the handshake failed.
      ensures r == -1 ==>
                || wait == Error || (wait == Flush && hs.flight != []) || (Blocked(hs.Model(wait)) && incoming == [])
                || (wait == Go && events != [] && Run(hs.o, old(In(sys)), events[..|events| - 1]).c.wait == Retry)
    {
      hide Step, Drive, Run, RankC, RankS, Patience;
      events := [];
      ghost var start := In(sys);
      NoEvents(hs.o, start);
      while true
        invariant In(sys) == Run(hs.o, start, events)
        decreases RankC(hs.o, hs.state), |incoming|, Patience(wait)
      {
        if wait == Error {
          return -1, events;
        }
        ghost var before := In(sys);
        if wait != Go {
          var here := ch(hs.state);
          var go := ResolveWait(here, sys);
          OneEvent(hs.o, before, Event(false, here));
          RunAppend(hs.o, start, events, [Event(false, here)]);
          ghost var upToNow := events;
          events := events + [Event(false, here)];
          assert events[..|events| - 1] == upToNow;
          if !go {
            return -1, events;
          }
        }
        ghost var middle := In(sys);
        ghost var p := hs.Model(Go);
        DriveDescends(hs.o, p, ch);
        wait := hs.Handshake(ch);
        ghost var more := DriveIsARun(hs.o, middle, ch);
        RunAppend(hs.o, start, events, more);
        events := events + more;
        if wait == Error {
          return -1, events;
        }
        if wait == Go {
          return 1, events;
        }
        PatienceLeft(wait);
      }
    }
  }
}
