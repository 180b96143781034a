// The server's machine as the source runs it: one method for each state, changing the
// handshake in place, and the driver loop over them.
module TlsServer {
  import opened Basics
  import opened TlsHandshakeModel
  import opened TlsHandshakeScript
  import opened TlsHandshake
  import opened TlsHandshakeRuns

  /** Steps until the machine waits for something or is done. `ch` says what the
      environment decides in each state. */
  function Drive(o: Options, p: Peer<SState>, ch: SState -> Choice): Peer<SState>
    requires p.wait == Go
    decreases RankS(o, p.state)
  {
    if p.state == SDone then p
    else
      ServerGoesToNext(o, p, ch(p.state));
      NextSDescends(o, p.state);
      var p' := DoServer(o, p, ch(p.state));
      if p'.wait != Go then p' else Drive(o, p', ch)
  }

  class ServerHandshake {
    const o: Options
    var state: SState
    var transcript: seq<Msg>
    var inbox: Option<Msg>     // a complete message, not yet consumed
    var flight: seq<Item>      // not yet handed to the transport
    var peerKey: bool          // peer_pubkey is set

    ghost function Model(wait: Wait): Peer<SState>
      reads this
    {
      Peer(state, wait, transcript, inbox, flight, peerKey)
    }

    constructor (o: Options)
      ensures this.o == o && Model(Go) == Start().s
    {
      this.o := o;
      state, transcript, inbox, flight, peerKey := SStart, [], None, [], false;
    }

    /** `ssl_add_message_cbb`. */
    method AddMessage(m: Msg)
      modifies this`transcript, this`flight
      ensures Model(Go) == Emit(old(Model(Go)), m)
    {
      flight := flight + [Hs(m)];
      transcript := transcript + [m];
    }

    method AddChangeCipherSpec()
      modifies this`flight
      ensures Model(Go) == TlsHandshakeModel.EmitCcs(old(Model(Go)))
    {
      flight := flight + [Ccs];
    }

    /** `ssl_hash_message` and `next_message`. */
    method HashAndNext()
      requires inbox.Some?
      modifies this`transcript, this`inbox
      ensures Model(Go) == Consume(old(Model(Go)))
    {
      transcript := transcript + [inbox.value];
      inbox := None;
    }

    /** `do_start_accept`. */
    method StartAccept(ch: Choice) returns (ret: Wait)
      requires state == SStart
      modifies this
      ensures Model(ret) == DoServer(o, old(Model(Go)), ch)
      ensures ret == Go && Quiet(old(Model(Go)), Model(ret))
      ensures ServerReady(o, old(Model(Go))) ==> ServerStep(o, old(Model(Go)), Model(ret))
    {
      ServerKeeps(o, Model(Go), ch);
      hide ServerReady, ServerStep;
      state := SReadClientHello;
      ret := Go;
    }

    /** `do_read_client_hello`. */
    method ReadClientHello(ch: Choice) returns (ret: Wait)
      requires state == SReadClientHello
      modifies this
      ensures Model(ret) == DoServer(o, old(Model(Go)), ch)
      ensures ret == Error <==> inbox.Some? && TypeOf(inbox.value) != ClientHello
      ensures ret == Retry <==> inbox.Some? && TypeOf(inbox.value) == ClientHello && ch.retry
      ensures ret == Go <==> state != old(state)
      ensures Quiet(old(Model(Go)), Model(ret))
      ensures ServerReady(o, old(Model(Go))) ==> ServerStep(o, old(Model(Go)), Model(ret))
    {
      ServerKeeps(o, Model(Go), ch);
      hide ServerReady, ServerStep;
      if inbox.None? {
        return ReadMessage;
      }
      if TypeOf(inbox.value) != ClientHello {
        return Error;
      }
      if ch.retry {
        return Retry;
      }
      state := SSelectCertificate;
      ret := Go;
    }

    /** `do_select_certificate`. */
    method SelectCertificate(ch: Choice) returns (ret: Wait)
      requires state == SSelectCertificate
      modifies this
      ensures Model(ret) == DoServer(o, old(Model(Go)), ch)
      ensures ret == ReadMessage <==> inbox.None?
      ensures ret == Retry <==> inbox.Some? && ch.retry
      ensures ret != Error && Quiet(old(Model(Go)), Model(ret))
      ensures ServerReady(o, old(Model(Go))) ==> ServerStep(o, old(Model(Go)), Model(ret))
    {
      ServerKeeps(o, Model(Go), ch);
      hide ServerReady, ServerStep;
      if inbox.None? {
        return ReadMessage;
      }
      if ch.retry {
        return Retry;
      }
      state := SSelectParameters;
      ret := Go;
    }

    /** `do_select_parameters`. */
    method SelectParameters(ch: Choice) returns (ret: Wait)
      requires state == SSelectParameters
      modifies this
      ensures Model(ret) == DoServer(o, old(Model(Go)), ch)
      ensures ret != Error && (ret == Go <==> old(inbox).Some? && !ch.retry)
      ensures ret == Go <==> Reads(old(Model(Go)), Model(ret))
      ensures ret != Go ==> state == old(state) && Quiet(old(Model(Go)), Model(ret))
      ensures ServerReady(o, old(Model(Go))) ==> ServerStep(o, old(Model(Go)), Model(ret))
    {
      ServerKeeps(o, Model(Go), ch);
      hide ServerReady, ServerStep;
      if inbox.None? {
        return ReadMessage;
      }
      if ch.retry {
        return Retry;
      }
      HashAndNext();
      state := SSendServerHello;
      ret := Go;
    }

    /** `do_send_server_hello`. */
    method SendServerHello(ch: Choice) returns (ret: Wait)
      requires state == SSendServerHello
      modifies this
      ensures Model(ret) == DoServer(o, old(Model(Go)), ch)
      ensures ret == Go && SaysOne(old(Model(Go)), Model(ret), Msg(ServerHello, ch.body))
      ensures ServerReady(o, old(Model(Go))) ==> ServerStep(o, old(Model(Go)), Model(ret))
    {
      ServerKeeps(o, Model(Go), ch);
      hide ServerReady, ServerStep;
      AddMessage(Msg(ServerHello, ch.body));
      state := if o.resumed then SSendFinished else SSendCertificate;
      ret := Go;
    }

    /** `do_send_server_certificate`. */
    method SendServerCertificate(ch: Choice) returns (ret: Wait)
      requires state == SSendCertificate
      modifies this
      ensures Model(ret) == DoServer(o, old(Model(Go)), ch)
      ensures ret == Go && inbox == old(inbox)
      ensures o.certAuth ==> transcript[|old(transcript)|..] == [Msg(Certificate, ch.body + 1)] + (if o.statusSent then [Msg(CertificateStatus, ch.body)] else [])
      ensures o.certAuth ==> |flight| - |old(flight)| == |transcript| - |old(transcript)| && old(flight) <= flight && old(transcript) <= transcript
      ensures !o.certAuth ==> Quiet(old(Model(Go)), Model(ret))
      ensures ServerReady(o, old(Model(Go))) ==> ServerStep(o, old(Model(Go)), Model(ret))
    {
      ServerKeeps(o, Model(Go), ch);
      hide ServerReady, ServerStep;
      if o.certAuth {
        AddMessage(Msg(Certificate, ch.body + 1));
        if o.statusSent {
          AddMessage(Msg(CertificateStatus, ch.body));
        }
      }
      state := SSendKeyExchange;
      ret := Go;
    }

    /** `do_send_server_key_exchange`. */
    method SendServerKeyExchange(ch: Choice) returns (ret: Wait)
      requires state == SSendKeyExchange
      modifies this
      ensures Model(ret) == DoServer(o, old(Model(Go)), ch)
      ensures ret == Retry <==> o.skeSent && o.certAuth && ch.retry
      ensures if o.skeSent && ret == Go then SaysOne(old(Model(Go)), Model(ret), Msg(ServerKeyExchange, ch.body)) else Quiet(old(Model(Go)), Model(ret))
      ensures ServerReady(o, old(Model(Go))) ==> ServerStep(o, old(Model(Go)), Model(ret))
    {
      ServerKeeps(o, Model(Go), ch);
      hide ServerReady, ServerStep;
      if o.skeSent {
        if o.certAuth && ch.retry {
          return Retry;
        }
        AddMessage(Msg(ServerKeyExchange, ch.body));
      }
      state := SSendHelloDone;
      ret := Go;
    }

    /** `do_send_server_hello_done`. */
    method SendServerHelloDone(ch: Choice) returns (ret: Wait)
      requires state == SSendHelloDone
      modifies this
      ensures Model(ret) == DoServer(o, old(Model(Go)), ch)
      ensures ret == Flush && inbox == old(inbox)
      ensures transcript == old(transcript) + (if o.certRequest then [Msg(CertificateRequest, ch.body)] else []) + [Msg(ServerHelloDone, ch.body)]
      ensures ServerReady(o, old(Model(Go))) ==> ServerStep(o, old(Model(Go)), Model(ret))
    {
      ServerKeeps(o, Model(Go), ch);
      hide ServerReady, ServerStep;
      if o.certRequest {
        AddMessage(Msg(CertificateRequest, ch.body));
      }
      AddMessage(Msg(ServerHelloDone, ch.body));
      state := SReadCertificate;
      ret := Flush;
    }

    /** `do_read_client_certificate`. */
    method ReadClientCertificate(ch: Choice) returns (ret: Wait)
      requires state == SReadCertificate
      modifies this
      ensures Model(ret) == DoServer(o, old(Model(Go)), ch)
      ensures ret == Error <==> o.certRequest && old(inbox).Some? && (TypeOf(old(inbox).value) != Certificate || (old(inbox).value == Msg(Certificate, 0) && o.requireClientCert))
      ensures Reads(old(Model(Go)), Model(ret)) <==> ret == Go && o.certRequest
      ensures peerKey == if Reads(old(Model(Go)), Model(ret)) then old(inbox).value != Msg(Certificate, 0) else old(peerKey)
      ensures !Reads(old(Model(Go)), Model(ret)) ==> Quiet(old(Model(Go)), Model(ret))
      ensures ServerReady(o, old(Model(Go))) ==> ServerStep(o, old(Model(Go)), Model(ret))
    {
      ServerKeeps(o, Model(Go), ch);
      hide ServerReady, ServerStep;
      if !o.certRequest {
        state := SVerifyClientCertificate;
        return Go;
      }
      if inbox.None? {
        return ReadMessage;
      }
      if TypeOf(inbox.value) != Certificate || (inbox.value == Msg(Certificate, 0) && o.requireClientCert) {
        return Error;
      }
      peerKey := inbox.value != Msg(Certificate, 0);
      HashAndNext();
      state := SVerifyClientCertificate;
      ret := Go;
    }

    /** `do_verify_client_certificate`. */
    method VerifyClientCertificate(ch: Choice) returns (ret: Wait)
      requires state == SVerifyClientCertificate
      modifies this
      ensures Model(ret) == DoServer(o, old(Model(Go)), ch)
      ensures ret == (if peerKey && ch.retry then Retry else Go) && Quiet(old(Model(Go)), Model(ret))
      ensures ServerReady(o, old(Model(Go))) ==> ServerStep(o, old(Model(Go)), Model(ret))
    {
      ServerKeeps(o, Model(Go), ch);
      hide ServerReady, ServerStep;
      if peerKey && ch.retry {
        return Retry;
      }
      state := SReadKeyExchange;
      ret := Go;
    }

    /** `do_read_client_key_exchange`. */
    method ReadClientKeyExchange(ch: Choice) returns (ret: Wait)
      requires state == SReadKeyExchange
      modifies this
      ensures Model(ret) == DoServer(o, old(Model(Go)), ch)
      ensures ret == Error <==> old(inbox).Some? && TypeOf(old(inbox).value) != ClientKeyExchange
      ensures ret == Retry <==> old(inbox).Some? && TypeOf(old(inbox).value) == ClientKeyExchange && ch.retry
      ensures ret == Go <==> Reads(old(Model(Go)), Model(ret))
      ensures ret != Go ==> state == old(state) && Quiet(old(Model(Go)), Model(ret))
      ensures ServerReady(o, old(Model(Go))) ==> ServerStep(o, old(Model(Go)), Model(ret))
    {
      ServerKeeps(o, Model(Go), ch);
      hide ServerReady, ServerStep;
      if inbox.None? {
        return ReadMessage;
      }
      if TypeOf(inbox.value) != ClientKeyExchange {
        return Error;
      }
      if ch.retry {
        return Retry;
      }
      HashAndNext();
      state := SReadCertificateVerify;
      ret := Go;
    }

    /** `do_read_client_certificate_verify`. */
    method ReadClientCertificateVerify(ch: Choice) returns (ret: Wait)
      requires state == SReadCertificateVerify
      modifies this
      ensures Model(ret) == DoServer(o, old(Model(Go)), ch)
      ensures ret == Error <==> peerKey && old(inbox).Some? && TypeOf(old(inbox).value) != CertificateVerify
      ensures Reads(old(Model(Go)), Model(ret)) <==> ret == Go && peerKey
      ensures !Reads(old(Model(Go)), Model(ret)) ==> Quiet(old(Model(Go)), Model(ret))
      ensures ServerReady(o, old(Model(Go))) ==> ServerStep(o, old(Model(Go)), Model(ret))
    {
      ServerKeeps(o, Model(Go), ch);
      hide ServerReady, ServerStep;
      if peerKey {
        if inbox.None? {
          return ReadMessage;
        }
        if TypeOf(inbox.value) != CertificateVerify {
          return Error;
        }
        HashAndNext();
      }
      state := SReadCcs;
      ret := Go;
    }

    /** `do_read_change_cipher_spec`. */
    method ReadChangeCipherSpec(ch: Choice) returns (ret: Wait)
      requires state == SReadCcs
      modifies this
      ensures Model(ret) == DoServer(o, old(Model(Go)), ch)
      ensures ret == ReadCcs && Quiet(old(Model(Go)), Model(ret))
      ensures ServerReady(o, old(Model(Go))) ==> ServerStep(o, old(Model(Go)), Model(ret))
    {
      ServerKeeps(o, Model(Go), ch);
      hide ServerReady, ServerStep;
      state := SProcessCcs;
      ret := ReadCcs;
    }

    /** `do_process_change_cipher_spec`. */
    method ProcessChangeCipherSpec(ch: Choice) returns (ret: Wait)
      requires state == SProcessCcs
      modifies this
      ensures Model(ret) == DoServer(o, old(Model(Go)), ch)
      ensures ret == Error <==> inbox.Some?
      ensures Quiet(old(Model(Go)), Model(ret))
      ensures ServerReady(o, old(Model(Go))) ==> ServerStep(o, old(Model(Go)), Model(ret))
    {
      ServerKeeps(o, Model(Go), ch);
      hide ServerReady, ServerStep;
      if inbox.Some? {
        return Error;
      }
      state := SReadNextProto;
      ret := Go;
    }

    /** `do_read_next_proto`. */
    method ReadNextProto(ch: Choice) returns (ret: Wait)
      requires state == SReadNextProto
      modifies this
      ensures Model(ret) == DoServer(o, old(Model(Go)), ch)
      ensures ret == Error <==> o.npn && old(inbox).Some? && TypeOf(old(inbox).value) != NextProto
      ensures Reads(old(Model(Go)), Model(ret)) <==> ret == Go && o.npn
      ensures !Reads(old(Model(Go)), Model(ret)) ==> Quiet(old(Model(Go)), Model(ret))
      ensures ServerReady(o, old(Model(Go))) ==> ServerStep(o, old(Model(Go)), Model(ret))
    {
      ServerKeeps(o, Model(Go), ch);
      hide ServerReady, ServerStep;
      if o.npn {
        if inbox.None? {
          return ReadMessage;
        }
        if TypeOf(inbox.value) != NextProto {
          return Error;
        }
        HashAndNext();
      }
      state := SReadChannelId;
      ret := Go;
    }

    /** `do_read_channel_id`. */
    method ReadChannelId(ch: Choice) returns (ret: Wait)
      requires state == SReadChannelId
      modifies this
      ensures Model(ret) == DoServer(o, old(Model(Go)), ch)
      ensures ret == Error <==> o.channelId && old(inbox).Some? && TypeOf(old(inbox).value) != ChannelId
      ensures Reads(old(Model(Go)), Model(ret)) <==> ret == Go && o.channelId
      ensures !Reads(old(Model(Go)), Model(ret)) ==> Quiet(old(Model(Go)), Model(ret))
      ensures ServerReady(o, old(Model(Go))) ==> ServerStep(o, old(Model(Go)), Model(ret))
    {
      ServerKeeps(o, Model(Go), ch);
      hide ServerReady, ServerStep;
      if o.channelId {
        if inbox.None? {
          return ReadMessage;
        }
        if TypeOf(inbox.value) != ChannelId {
          return Error;
        }
        HashAndNext();
      }
      state := SReadFinished;
      ret := Go;
    }

    /** `do_read_client_finished`. */
    method ReadClientFinished(ch: Choice) returns (ret: Wait)
      requires state == SReadFinished
      modifies this
      ensures Model(ret) == DoServer(o, old(Model(Go)), ch)
      ensures ret == Error <==> old(inbox).Some? && old(inbox).value != Finished(false, old(transcript))
      ensures ret == Go <==> Reads(old(Model(Go)), Model(ret))
      ensures ret != Go ==> Quiet(old(Model(Go)), Model(ret))
      ensures ServerReady(o, old(Model(Go))) ==> ServerStep(o, old(Model(Go)), Model(ret))
    {
      ServerKeeps(o, Model(Go), ch);
      hide ServerReady, ServerStep;
      if inbox.None? {
        return ReadMessage;
      }
      if TypeOf(inbox.value) != FinishedType || inbox.value != Finished(false, transcript) {
        return Error;
      }
      HashAndNext();
      state := if o.resumed then SFinish else SSendFinished;
      ret := Go;
    }

    /** `do_send_server_finished`. */
    method SendServerFinished(ch: Choice) returns (ret: Wait)
      requires state == SSendFinished
      modifies this
      ensures Model(ret) == DoServer(o, old(Model(Go)), ch)
      ensures ret == Flush && inbox == old(inbox) && FinishedAfter(true, old(flight), old(transcript), [],
                if o.ticket then [Msg(NewSessionTicket, ch.body)] else [], [Ccs], flight, transcript)
      ensures ServerReady(o, old(Model(Go))) ==> ServerStep(o, old(Model(Go)), Model(ret))
    {
      ServerKeeps(o, Model(Go), ch);
      hide ServerReady, ServerStep;
      hide Wrapped;
      OneWrapped(Msg(NewSessionTicket, ch.body));
      if o.ticket {
        AddMessage(Msg(NewSessionTicket, ch.body));
      }
      AddChangeCipherSpec();
      ghost var ticket := if o.ticket then [Msg(NewSessionTicket, ch.body)] else [];
      assert transcript == old(transcript) + ticket;
      assert flight == old(flight) + [] + Wrapped(ticket) + [Ccs];
      AddMessage(Finished(true, transcript));
      state := if o.resumed then SReadCcs else SFinish;
      ret := Flush;
    }

    /** `do_finish_server_handshake`. */
    method FinishServerHandshake(ch: Choice) returns (ret: Wait)
      requires state == SFinish
      modifies this
      ensures Model(ret) == DoServer(o, old(Model(Go)), ch)
      ensures ret == Go && state == SDone && Quiet(old(Model(Go)), Model(ret))
      ensures ServerReady(o, old(Model(Go))) ==> ServerStep(o, old(Model(Go)), Model(ret))
    {
      ServerKeeps(o, Model(Go), ch);
      hide ServerReady, ServerStep;
      state := SDone;
      ret := Go;
    }

    predicate Early()
      reads this
    {
      state == SStart || state == SReadClientHello || state == SSelectCertificate || state == SSelectParameters
      || state == SSendServerHello || state == SSendCertificate || state == SSendKeyExchange
      || state == SSendHelloDone || state == SReadCertificate
    }

    method DispatchEarly(ch: Choice) returns (ret: Wait)
      requires Early()
      modifies this
      ensures Model(ret) == DoServer(o, old(Model(Go)), ch)
      ensures ServerReady(o, old(Model(Go))) ==> ServerStep(o, old(Model(Go)), Model(ret))
    {
      hide DoServer, ServerReady, ServerStep, Reads, SaysOne, Quiet;
      if state == SStart {
        ret := StartAccept(ch);
      } else if state == SReadClientHello {
        ret := ReadClientHello(ch);
      } else if state == SSelectCertificate {
        ret := SelectCertificate(ch);
      } else if state == SSelectParameters {
        ret := SelectParameters(ch);
      } else if state == SSendServerHello {
        ret := SendServerHello(ch);
      } else if state == SSendCertificate {
        ret := SendServerCertificate(ch);
      } else if state == SSendKeyExchange {
        ret := SendServerKeyExchange(ch);
      } else if state == SSendHelloDone {
        ret := SendServerHelloDone(ch);
      } else {
        ret := ReadClientCertificate(ch);
      }
    }

    method DispatchLate(ch: Choice) returns (ret: Wait)
      requires !Early() && state != SDone
      modifies this
      ensures Model(ret) == DoServer(o, old(Model(Go)), ch)
      ensures ServerReady(o, old(Model(Go))) ==> ServerStep(o, old(Model(Go)), Model(ret))
    {
      hide DoServer, ServerReady, ServerStep, Reads, SaysOne, Quiet;
      if state == SVerifyClientCertificate {
        ret := VerifyClientCertificate(ch);
      } else if state == SReadKeyExchange {
        ret := ReadClientKeyExchange(ch);
      } else if state == SReadCertificateVerify {
        ret := ReadClientCertificateVerify(ch);
      } else if state == SReadCcs {
        ret := ReadChangeCipherSpec(ch);
      } else if state == SProcessCcs {
        ret := ProcessChangeCipherSpec(ch);
      } else if state == SReadNextProto {
        ret := ReadNextProto(ch);
      } else if state == SReadChannelId {
        ret := ReadChannelId(ch);
      } else if state == SReadFinished {
        ret := ReadClientFinished(ch);
      } else if state == SSendFinished {
        ret := SendServerFinished(ch);
      } else {
        ret := FinishServerHandshake(ch);
      }
    }

    /** `ssl_server_handshake`. */
    method Handshake(ch: SState -> Choice) returns (ret: Wait)
      modifies this
      ensures Model(ret) == Drive(o, old(Model(Go)), ch)
    {
      hide DoServer, NextC, NextS, RankC, RankS, WaitsOrGoesOn;
      while state != SDone
        invariant Drive(o, Model(Go), ch) == Drive(o, old(Model(Go)), ch)
        decreases RankS(o, state)
      {
        ghost var p := Model(Go);
        var here := ch(state);
        Unfolds(o, p, ch);
        if Early() {
          ret := DispatchEarly(here);
        } else {
          ret := DispatchLate(here);
        }
        if ret != Go {
          return;
        }
      }
      ret := Go;
      DoneAlready(o, Model(Go), ch);
    }
  }

  lemma Unfolds(o: Options, p: Peer<SState>, ch: SState -> Choice)
    requires p.wait == Go && p.state != SDone
    ensures var p' := DoServer(o, p, ch(p.state));
            && (p'.wait == Go ==> RankS(o, p'.state) < RankS(o, p.state))
            && Drive(o, p, ch) == if p'.wait != Go then p' else Drive(o, p', ch)
  {
    ServerGoesToNext(o, p, ch(p.state));
    NextSDescends(o, p.state);
    hide DoServer, NextC, NextS, RankC, RankS;
  }

  lemma DoneAlready(o: Options, p: Peer<SState>, ch: SState -> Choice)
    requires p.wait == Go && p.state == SDone
    ensures Drive(o, p, ch) == p
  {
  }

  /** A call of the driver is a run of single steps, so that what holds of every run
      holds of this code. */
  lemma {:induction false} DriveIsARun(o: Options, sys: System, ch: SState -> Choice) returns (events: seq<Event>)
    requires sys.s.wait == Go
    ensures Run(o, sys, events) == sys.(s := Drive(o, sys.s, ch))
    decreases RankS(o, sys.s.state)
  {
    hide DoServer, NextC, NextS, RankC, RankS;
    if sys.s.state == SDone {
      DoneAlready(o, sys.s, ch);
      return [];
    }
    Unfolds(o, sys.s, ch);
    var e := Event(true, ch(sys.s.state));
    var sys' := Step(o, sys, e);
    var rest := [];
    if sys'.s.wait == Go {
      rest := DriveIsARun(o, sys', ch);
    }
    events := [e] + rest;
    assert events[1..] == rest;
  }

  // ---- The loop that resolves what the machine waits for ----

  /** After a call of the driver: done, in error, or waiting further on - or waiting
      where it stood for a message or a retry. */
  lemma {:induction false} DriveDescends(o: Options, p: Peer<SState>, ch: SState -> Choice)
    requires p.wait == Go
    ensures var p' := Drive(o, p, ch);
            || p'.wait == Error || (p'.wait == Go && p'.state == SDone)
            || (p'.wait != Go && RankS(o, p'.state) < RankS(o, p.state))
            || (p'.state == p.state && (p'.wait == ReadMessage || p'.wait == Retry))
    decreases RankS(o, p.state)
  {
    hide DoServer, NextC, NextS, RankC, RankS;
    if p.state == SDone {
      DoneAlready(o, p, ch);
      return;
    }
    Unfolds(o, p, ch);
    ServerGoesToNext(o, p, ch(p.state));
    NextSDescends(o, p.state);
    var p' := DoServer(o, p, ch(p.state));
    if p'.wait == Go { DriveDescends(o, p', ch); }
  }

  class Connection {
    const hs: ServerHandshake
    var wait: Wait
    var incoming: seq<Item>   // records that have arrived
    var outgoing: seq<Item>   // records handed to the transport

    constructor (o: Options)
      ensures fresh(hs) && hs.o == o && hs.Model(wait) == Start().s && incoming == [] && outgoing == []
    {
      hs := new ServerHandshake(o);
      wait, incoming, outgoing := Go, [], [];
    }

    /** The whole system with this side and its channels as they are now. */
    ghost function In(sys: System): System
      reads this, hs
    {
      sys.(s := hs.Model(wait), toServer := incoming, toClient := outgoing)
    }

    /** One case of the switch on `hs->wait`; false when the call has to return. */
    method ResolveWait(ch: Choice, ghost sys: System) returns (go: bool)
      requires wait != Go && wait != Error
      modifies this, hs`inbox, hs`flight
      ensures In(sys) == Step(hs.o, old(In(sys)), Event(true, ch))
      ensures hs.state == old(hs.state)
      ensures go ==> wait == Go && old(wait) != Retry && |incoming| <= |old(incoming)|
      ensures go && (old(wait) == ReadMessage || old(wait) == ReadCcs) ==> |incoming| < |old(incoming)|
      ensures !go ==>
                || (wait == Flush && hs.flight != []) || (Blocked(hs.Model(wait)) && incoming == [])
                || (wait == Go && old(wait) == Retry)
                || wait == Error
      ensures wait == Error <==>
                (old(wait) == ReadMessage || old(wait) == ReadCcs)
                && old(incoming) != [] && (old(incoming)[0].Ccs? <==> old(wait) == ReadMessage)
    {
      if wait == Flush {
        var n := if ch.count < |hs.flight| then ch.count else |hs.flight|;
        outgoing := outgoing + hs.flight[..n];
        if n < |hs.flight| {
          hs.flight := hs.flight[n..];
          return false;
        }
        hs.flight := hs.flight[n..];
        wait := Go;
        return true;
      }
      if wait == Retry {
        wait := Go;
        assert outgoing + [] == outgoing;
        return false;
      }
      assert outgoing + [] == outgoing;
      if incoming == [] {
        return false;
      }
      if incoming[0].Ccs? != (wait == ReadCcs) {
        wait := Error;
        return false;
      }
      if wait == ReadMessage {
        hs.inbox := Some(incoming[0].m);
      }
      incoming := incoming[1..];
      wait := Go;
      go := true;
    }

    /** `ssl_run_handshake`: resolves the wait and runs the machine again, until it is
        done (1), has failed or has to be called again (-1). Whatever the rest of the
        system, the call is a run of single steps of this side. */
    method RunHandshake(ch: SState -> Choice, ghost sys: System) returns (r: int, ghost events: seq<Event>)
      modifies this, hs
      ensures In(sys) == Run(hs.o, old(In(sys)), events)
      ensures r == 1 ==> wait == Go && hs.state == SDone
      ensures r == 1 || r == -1
      // It comes back only for a reason: the transport is full, nothing has arrived, a
      // step asked to be retried, or the handshake failed.
      ensures r == -1 ==>
                || wait == Error || (wait == Flush && hs.flight != []) || (Blocked(hs.Model(wait)) && incoming == [])
                || (wait == Go && events != [] && Run(hs.o, old(In(sys)), events[..|events| - 1]).s.wait == Retry)
    {
      hide Step, Drive, Run, RankC, RankS, Patience;
      events := [];
      ghost var start := In(sys);
      NoEvents(hs.o, start);
      while true
        invariant In(sys) == Run(hs.o, start, events)
        decreases RankS(hs.o, hs.state), |incoming|, Patience(wait)
      {
        if wait == Error {
          return -1, events;
        }
        ghost var before := In(sys);
        if wait != Go {
          var here := ch(hs.state);
          var go := ResolveWait(here, sys);
          OneEvent(hs.o, before, Event(true, here));
          RunAppend(hs.o, start, events, [Event(true, here)]);
          ghost var upToNow := events;
          events := events + [Event(true, here)];
          assert events[..|events| - 1] == upToNow;
          if !go {
            return -1, events;
          }
        }
        ghost var middle := In(sys);
        ghost var p := hs.Model(Go);
        DriveDescends(hs.o, p, ch);
        wait := hs.Handshake(ch);
        ghost var more := DriveIsARun(hs.o, middle, ch);
        RunAppend(hs.o, start, events, more);
        events := events + more;
        if wait == Error {
          return -1, events;
        }
        if wait == Go {
          return 1, events;
        }
        PatienceLeft(wait);
      }
    }
  }
}
