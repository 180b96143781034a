// What the TLS output path keeps: bytes leave in sealing order, none lost and none
// twice, and a write retried until it succeeds seals each of its bytes once.
module TlsOutput {
  import opened Basics
  import opened TlsOutputModel

  /** The sealed records in sealing order. */
  function Cat(records: seq<Rec>): seq<byte> {
    if records == [] then [] else Cat(records[..|records| - 1]) + records[|records| - 1].sealed
  }

  /** What has not been handed to the transport, oldest first. */
  function Unsent(st: State): seq<byte>
    requires st.offset <= |Flight(st)|
  {
    st.buffer + Flight(st)[st.offset..]
  }

  ghost predicate Conserved(st: State) {
    && st.offset <= |Flight(st)| && WpendOk(st)
    && (st.offset > 0 ==> st.buffer == [])
    && st.transport + Unsent(st) == Cat(st.records)
  }

  // ---- Each operation conserves ----

  lemma {:induction false} FlushBufferConserves(st: State, net: Net)
    ensures var st' := FlushBuffer(st, net).0; st'.transport + st'.buffer == st.transport + st.buffer
    decreases |st.buffer|
  {
    if st.buffer != [] && Taken(net, |st.buffer|) > 0 {
      var n := Taken(net, |st.buffer|);
      var st1 := st.(transport := st.transport + st.buffer[..n], buffer := st.buffer[n..]);
      assert st1.transport + st1.buffer == st.transport + st.buffer;
      FlushBufferConserves(st1, Later(net));
    }
  }

  lemma {:induction false} WriteFlightConserves(st: State, net: Net)
    requires st.flight.Some? && st.offset <= |st.flight.value|
    ensures var (st', _, done) := WriteFlight(st, net);
            && st' == st.(transport := st'.transport, offset := st'.offset)
            && st'.transport + st'.flight.value[st'.offset..] == st.transport + st.flight.value[st.offset..]
            && (done ==> st'.offset == |st.flight.value|)
    decreases |st.flight.value| - st.offset
  {
    var left := |st.flight.value| - st.offset;
    if left > 0 && Taken(net, left) > 0 {
      var n := Taken(net, left);
      var piece := st.flight.value[st.offset..st.offset + n];
      var st1 := st.(transport := st.transport + piece, offset := st.offset + n);
      assert piece + st.flight.value[st.offset + n..] == st.flight.value[st.offset..];
      assert st1.transport + st1.flight.value[st1.offset..] == st.transport + st.flight.value[st.offset..];
      WriteFlightConserves(st1, Later(net));
    }
  }

  lemma AddRecordConserves(st: State, typ: ContentType, plain: seq<byte>)
    requires Conserved(st) && st.offset == 0
    ensures Conserved(AddRecord(st, typ, plain).0)
  {
    var (st', ok) := AddRecord(st, typ, plain);
    if ok {
      var c := Seal(st, typ, plain, |plain| + st.cipher.overhead).value;
      assert st'.records[..|st'.records| - 1] == st.records;
      assert st.transport + (st.buffer + (Flight(st) + c)) == st.transport + (st.buffer + Flight(st)) + c;
    }
  }

  lemma {:induction false} AddMessageConserves(st: State, msg: seq<byte>, maxFrag: nat)
    requires Conserved(st) && st.offset == 0 && maxFrag > 0
    ensures Conserved(AddMessage(st, msg, maxFrag).0)
    decreases |msg|
  {
    var n := if |msg| < maxFrag then |msg| else maxFrag;
    AddRecordConserves(st, Handshake, msg[..n]);
    var (st', ok) := AddRecord(st, Handshake, msg[..n]);
    if ok && msg[n..] != [] { AddMessageConserves(st', msg[n..], maxFrag); }
  }

  lemma FlushFlightConserves(st: State, net: Net, flushed: bool)
    requires Conserved(st)
    ensures Conserved(FlushFlight(st, net, flushed).0)
  {
    if st.flight.Some? {
      FlushBufferKeeps(st, net);
      FlushBufferConserves(st, net);
      var (st1, net1, ok1) := FlushBuffer(st, net);
      assert st1.transport + (st1.buffer + Flight(st)[st.offset..]) == st1.transport + st1.buffer + Flight(st)[st.offset..];
      assert st.transport + (st.buffer + Flight(st)[st.offset..]) == st.transport + st.buffer + Flight(st)[st.offset..];
      assert Conserved(st1);
      if ok1 {
        WriteFlightConserves(st1, net1);
        var st2 := WriteFlight(st1, net1).0;
        assert st1.buffer == [] && Unsent(st1) == Flight(st1)[st1.offset..] && Unsent(st2) == Flight(st2)[st2.offset..];
      }
    }
  }

  lemma WritePendingConserves(st: State, typ: ContentType, buf: int, len: nat, moving: bool, net: Net)
    requires Conserved(st) && st.wpend.Some?
    ensures Conserved(WritePending(st, typ, buf, len, moving, net).0)
    ensures var (st', _, r) := WritePending(st, typ, buf, len, moving, net);
            st'.records == st.records && (r.Wrote? ==> st'.wpend.None?) && (!r.Wrote? ==> st'.wpend == st.wpend)
  {
    FlushBufferKeeps(st, net);
    FlushBufferConserves(st, net);
    var st1 := FlushBuffer(st, net).0;
    var rest := Flight(st)[st.offset..];
    assert st1.transport + (st1.buffer + rest) == st1.transport + st1.buffer + rest;
    assert st.transport + (st.buffer + rest) == st.transport + st.buffer + rest;
  }

  lemma MovedConserves(st: State)
    requires Conserved(st) && st.buffer == []
    ensures Conserved(Moved(st))
  {
    assert Unsent(st) == Flight(st)[st.offset..] == Unsent(Moved(st));
  }

  lemma SealedConserves(st: State, typ: ContentType, buf: int, plain: seq<byte>, c: seq<byte>)
    requires Conserved(st) && st.flight.None? && plain != []
    ensures Conserved(Sealed(st, typ, buf, plain, c))
  {
    var st' := Sealed(st, typ, buf, plain, c);
    assert st'.records[..|st'.records| - 1] == st.records;
    assert Unsent(st) == st.buffer && Unsent(st') == st.buffer + c;
    assert st.transport + (st.buffer + c) == st.transport + st.buffer + c;
  }

  /** The three ways through `do_ssl3_write`: the pending record is retried, nothing
      was sealed, or one new record was. */
  lemma DoWriteCases(st: State, typ: ContentType, buf: int, plain: seq<byte>, moving: bool, net: Net)
    requires Conserved(st)
    ensures var (st', _, r) := DoWrite(st, typ, buf, plain, moving, net);
            Conserved(st') && if st.wpend.Some? then Retried(st, st', typ, r) else SealedOne(st, st', typ, buf, plain, r)
  {
    hide Conserved, FlushBuffer;
    assert st.offset <= |Flight(st)| by { OffsetInside(st); }
    if st.wpend.Some? {
      WritePendingConserves(st, typ, buf, |plain|, moving, net);
    } else if |plain| <= MAX_PLAIN && st.buffer == [] && plain != []
              && |plain| + st.cipher.overhead + (|Flight(st)| - st.offset) <= MAX_BUFFER {
      MovedConserves(st);
      var c := Seal(Moved(st), typ, plain, |plain| + st.cipher.overhead);
      if c.Some? {
        var st2 := Sealed(Moved(st), typ, buf, plain, c.value);
        SealedConserves(Moved(st), typ, buf, plain, c.value);
        WritePendingConserves(st2, typ, buf, |plain|, moving, net);
        assert st2.records[..|st.records|] == st.records;
      }
    }
  }

  lemma OffsetInside(st: State)
    requires Conserved(st)
    ensures st.offset <= |Flight(st)| && WpendOk(st)
  {
  }

  /** A pending record was there: it is reported once it has been flushed. */
  ghost predicate Retried(st: State, st': State, typ: ContentType, r: Ret)
    requires st.wpend.Some?
  {
    && st'.records == st.records
    && (if r.Wrote? then st'.wpend.None? && typ == st.wpend.value.typ && r.n == st.wpend.value.ret
        else st'.wpend == st.wpend)
  }

  /** No record was pending: nothing was sealed, or one record was. */
  ghost predicate SealedOne(st: State, st': State, typ: ContentType, buf: int, plain: seq<byte>, r: Ret) {
    || (st'.records == st.records && st'.wpend.None? && !r.Wrote?)
    || (&& |st'.records| == |st.records| + 1 && st'.records[..|st.records|] == st.records
        && st'.records[|st.records|].typ == typ && st'.records[|st.records|].plain == plain
        && (if r.Wrote? then st'.wpend.None? && r.n == |plain|
            else st'.wpend == Some(Pending(|plain|, buf, typ, |plain|))))
  }

  // ---- A write retried until it succeeds ----

  /** The application bytes sealed so far. */
  function AppPlain(records: seq<Rec>): seq<byte> {
    if records == [] then []
    else
      var last := records[|records| - 1];
      AppPlain(records[..|records| - 1]) + if last.typ == ApplicationData then last.plain else []
  }

  lemma AppPlainAppend(records: seq<Rec>, rec: Rec)
    ensures AppPlain(records + [rec]) == AppPlain(records) + if rec.typ == ApplicationData then rec.plain else []
  {
    assert (records + [rec])[..|records|] == records;
  }

  /** The bytes of a sealed application record that its write has not been told of. */
  function InFlight(st: State): nat {
    if st.wpend.Some? && st.wpend.value.typ == ApplicationData then st.wpend.value.ret else 0
  }

  /** In the middle of writing `data`, `tot` bytes of which were reported: sealed
      since `before` is exactly that part and the record that is stuck. */
  ghost predicate Midway(st: State, buf: int, data: seq<byte>, before: seq<byte>, tot: nat) {
    && tot + InFlight(st) <= |data|
    && AppPlain(st.records) == before + data[..tot + InFlight(st)]
  }

  /** The outcome of an attempt on the bytes from `tot` on. */
  ghost predicate Attempted(st: State, r: Ret, buf: int, data: seq<byte>, before: seq<byte>, tot: nat) {
    && Conserved(st)
    && if r.Wrote? then st.wpend.None? && tot + r.n <= |data| && Midway(st, buf, data, before, tot + r.n)
       else Midway(st, buf, data, before, tot)
  }

  lemma RetriedMidway(st: State, st': State, buf: int, data: seq<byte>, before: seq<byte>, tot: nat, r: Ret)
    requires Midway(st, buf, data, before, tot) && st.wpend.Some? && Retried(st, st', ApplicationData, r) && Conserved(st')
    ensures Attempted(st', r, buf, data, before, tot)
  {
    hide AppPlain, Conserved;
  }

  lemma SealedMidway(st: State, st': State, buf: int, data: seq<byte>, before: seq<byte>, tot: nat, nw: nat, r: Ret)
    requires Midway(st, buf, data, before, tot) && st.wpend.None? && tot + nw <= |data| && Conserved(st')
    requires SealedOne(st, st', ApplicationData, buf + tot, data[tot..tot + nw], r)
    ensures Attempted(st', r, buf, data, before, tot)
  {
    hide AppPlain, Conserved;
    if st'.records != st.records {
      assert st'.records == st.records + [st'.records[|st.records|]];
      AppPlainAppend(st.records, st'.records[|st.records|]);
      assert before + data[..tot] + data[tot..tot + nw] == before + data[..tot + nw];
    }
  }

  lemma DoWriteMidway(st: State, buf: int, data: seq<byte>, before: seq<byte>, tot: nat, nw: nat, moving: bool, net: Net)
    requires Conserved(st) && Midway(st, buf, data, before, tot) && tot + nw <= |data|
    ensures st.offset <= |Flight(st)|
    ensures var (st', _, r) := DoWrite(st, ApplicationData, buf + tot, data[tot..tot + nw], moving, net);
            Attempted(st', r, buf, data, before, tot)
  {
    OffsetInside(st);
    hide *;
    DoWriteCases(st, ApplicationData, buf + tot, data[tot..tot + nw], moving, net);
    var (st', _, r) := DoWrite(st, ApplicationData, buf + tot, data[tot..tot + nw], moving, net);
    if st.wpend.Some? {
      RetriedMidway(st, st', buf, data, before, tot, r);
    } else {
      SealedMidway(st, st', buf, data, before, tot, nw, r);
    }
  }

  lemma StopsMidway(st: State, buf: int, data: seq<byte>, before: seq<byte>, tot: nat)
    requires Conserved(st) && Midway(st, buf, data, before, tot)
    ensures Conserved(st.(wnum := tot)) && Midway(st.(wnum := tot), buf, data, before, tot)
  {
  }

  lemma DoneMidway(st: State, buf: int, data: seq<byte>, before: seq<byte>, tot: nat, mode: Mode)
    requires Midway(st, buf, data, before, tot) && st.wpend.None? && st.wnum == 0
    requires tot <= |data| && (!mode.partialWrites ==> tot == |data|)
    ensures Reported(st, Wrote(tot), buf, data, before, mode)
  {
  }

  ghost predicate TurnedMidway(t: Turned, buf: int, data: seq<byte>, before: seq<byte>, mode: Mode) {
    match t
    case Stop(st, r) => Conserved(st) && Reported(st, r, buf, data, before, mode)
    case Again(st, tot, net) => Conserved(st) && st.wnum == 0 && Midway(st, buf, data, before, tot)
  }

  lemma AfterWriteMidway(st: State, net: Net, r: Ret, buf: int, data: seq<byte>, before: seq<byte>, tot: nat, mode: Mode)
    requires Attempted(st, r, buf, data, before, tot) && st.wnum == 0
    ensures TurnedMidway(AfterWrite(st, net, r, |data|, tot, mode), buf, data, before, mode)
  {
    hide Conserved, Midway, Reported;
    if !r.Wrote? {
      StopsMidway(st, buf, data, before, tot);
      NotReported(st.(wnum := tot), r, buf, data, before, mode);
    } else if tot + r.n == |data| || mode.partialWrites {
      DoneMidway(st, buf, data, before, tot + r.n, mode);
    }
  }

  lemma TurnMidway(st: State, buf: int, data: seq<byte>, before: seq<byte>, tot: nat, mode: Mode, net: Net)
    requires Conserved(st) && mode.maxFrag > 0 && tot <= |data| && st.wnum == 0
    requires Midway(st, buf, data, before, tot)
    ensures st.offset <= |Flight(st)| && WpendOk(st)
    ensures TurnedMidway(Turn(st, buf, data, tot, mode, net), buf, data, before, mode)
  {
    OffsetInside(st);
    hide DoWrite, Conserved, Midway, Reported, Flight, WpendOk, AfterWrite, TurnedMidway, Attempted;
    var nw := if |data| - tot > mode.maxFrag then mode.maxFrag else |data| - tot;
    DoWriteKeeps(st, ApplicationData, buf + tot, data[tot..tot + nw], mode.moving, net);
    DoWriteMidway(st, buf, data, before, tot, nw, mode.moving, net);
    var (st', net', r) := DoWrite(st, ApplicationData, buf + tot, data[tot..tot + nw], mode.moving, net);
    AfterWriteMidway(st', net', r, buf, data, before, tot, mode);
  }

  /** The loop of one call: it reports just the bytes that were sealed, and when it
      stops early the next call carries on where it stopped. */
  lemma {:induction false} WriteFromMidway(st: State, buf: int, data: seq<byte>, before: seq<byte>, tot: nat, mode: Mode, net: Net)
    requires Conserved(st) && mode.maxFrag > 0 && tot <= |data| && st.wnum == 0
    requires Midway(st, buf, data, before, tot)
    ensures st.offset <= |Flight(st)| && WpendOk(st)
    ensures var (st', r) := WriteFrom(st, buf, data, tot, mode, net);
            Conserved(st') && Reported(st', r, buf, data, before, mode)
    decreases |data| - tot
  {
    OffsetInside(st);
    hide Turn, Conserved, Midway, Reported, Flight, WpendOk;
    TurnMidway(st, buf, data, before, tot, mode, net);
    var t := Turn(st, buf, data, tot, mode, net);
    if t.Again? { WriteFromMidway(t.st, buf, data, before, t.tot, mode, t.net); }
  }

  lemma NotReported(st: State, r: Ret, buf: int, data: seq<byte>, before: seq<byte>, mode: Mode)
    requires !r.Wrote? && Midway(st, buf, data, before, st.wnum)
    ensures Reported(st, r, buf, data, before, mode)
  {
  }

  ghost predicate Reported(st: State, r: Ret, buf: int, data: seq<byte>, before: seq<byte>, mode: Mode) {
    if r.Wrote? then
      && r.n <= |data| && (!mode.partialWrites ==> r.n == |data|)
      && st.wnum == 0 && InFlight(st) == 0
      && AppPlain(st.records) == before + data[..r.n]
    else Midway(st, buf, data, before, st.wnum)
  }

  // ---- Every run ----

  datatype Event =
    | Message(msg: seq<byte>, maxFrag: nat)                   // ssl3_add_message
    | Ccs                                                     // ssl3_add_change_cipher_spec
    | FlightAlert(alert: seq<byte>)                           // ssl3_add_alert
    | Flush(net: Net, flushed: bool)                          // ssl3_flush_flight
    | SendAlert(alert: seq<byte>, buf: int, net: Net)         // ssl3_dispatch_alert
    | Shutdown
    | App(buf: int, data: seq<byte>, mode: Mode, net: Net)    // ssl3_write_app_data

  /** A record joins the flight only while the flight is not being written. */
  function Step(st: State, e: Event): (State, Ret)
    requires st.offset <= |Flight(st)| && WpendOk(st)
  {
    match e
    case Message(msg, maxFrag) => if st.offset == 0 && maxFrag > 0 then (AddMessage(st, msg, maxFrag).0, Nothing) else (st, Nothing)
    case Ccs => if st.offset == 0 then (AddRecord(st, ChangeCipherSpec, [1]).0, Nothing) else (st, Nothing)
    case FlightAlert(alert) => if st.offset == 0 then (AddRecord(st, ContentType.Alert, alert).0, Nothing) else (st, Nothing)
    case Flush(net, flushed) => FlushFlight(st, net, flushed)
    case SendAlert(alert, buf, net) => var r := DoWrite(st, ContentType.Alert, buf, alert, false, net); (r.0, r.2)
    case Shutdown => (st.(shutdown := true), Nothing)
    case App(buf, data, mode, net) => if mode.maxFrag > 0 then WriteAppData(st, buf, data, mode, net) else (st, Nothing)
  }

  lemma AppConserves(st: State, buf: int, data: seq<byte>, mode: Mode, net: Net)
    requires Conserved(st) && mode.maxFrag > 0
    ensures Conserved(WriteAppData(st, buf, data, mode, net).0)
  {
    StopsConserved(st, 0);
    hide WriteFrom, Conserved;
    if !st.shutdown && st.wnum <= |data| { WriteFromConserves(st.(wnum := 0), buf, data, st.wnum, mode, net); }
  }

  lemma StopsConserved(st: State, tot: nat)
    requires Conserved(st)
    ensures Conserved(st.(wnum := tot)) && Conserved(st.(shutdown := true))
  {
  }

  lemma TurnConserves(st: State, buf: int, data: seq<byte>, tot: nat, mode: Mode, net: Net)
    requires Conserved(st) && mode.maxFrag > 0 && tot <= |data|
    ensures Conserved(Turn(st, buf, data, tot, mode, net).st)
  {
    OffsetInside(st);
    hide DoWrite, Conserved, Flight, WpendOk, Cat, Retried, SealedOne, AfterWrite;
    var nw := if |data| - tot > mode.maxFrag then mode.maxFrag else |data| - tot;
    DoWriteCases(st, ApplicationData, buf + tot, data[tot..tot + nw], mode.moving, net);
    var (st', net', r) := DoWrite(st, ApplicationData, buf + tot, data[tot..tot + nw], mode.moving, net);
    AfterWriteConserves(st', net', r, |data|, tot, mode);
  }

  lemma AfterWriteConserves(st: State, net: Net, r: Ret, len: nat, tot: nat, mode: Mode)
    requires Conserved(st)
    ensures Conserved(AfterWrite(st, net, r, len, tot, mode).st)
  {
    StopsConserved(st, tot);
    hide Conserved;
  }

  lemma {:induction false} WriteFromConserves(st: State, buf: int, data: seq<byte>, tot: nat, mode: Mode, net: Net)
    requires Conserved(st) && mode.maxFrag > 0 && tot <= |data|
    ensures st.offset <= |Flight(st)| && WpendOk(st)
    ensures Conserved(WriteFrom(st, buf, data, tot, mode, net).0)
    decreases |data| - tot
  {
    OffsetInside(st);
    hide Turn, Conserved, Flight, WpendOk;
    TurnConserves(st, buf, data, tot, mode, net);
    var t := Turn(st, buf, data, tot, mode, net);
    if t.Again? { WriteFromConserves(t.st, buf, data, t.tot, mode, t.net); }
  }

  lemma StepConserves(st: State, e: Event)
    requires Conserved(st)
    ensures Conserved(Step(st, e).0)
  {
    match e
    case Message(msg, maxFrag) => if st.offset == 0 && maxFrag > 0 { AddMessageConserves(st, msg, maxFrag); }
    case Ccs => if st.offset == 0 { AddRecordConserves(st, ChangeCipherSpec, [1]); }
    case FlightAlert(alert) => if st.offset == 0 { AddRecordConserves(st, ContentType.Alert, alert); }
    case Flush(net, flushed) => FlushFlightConserves(st, net, flushed);
    case SendAlert(alert, buf, net) => DoWriteCases(st, ContentType.Alert, buf, alert, false, net);
    case Shutdown =>
    case App(buf, data, mode, net) => if mode.maxFrag > 0 { AppConserves(st, buf, data, mode, net); }
  }

  function Run(st: State, events: seq<Event>): State
    requires Conserved(st)
    decreases |events|
  {
    if events == [] then st
    else
      StepConserves(st, events[0]);
      Run(Step(st, events[0]).0, events[1..])
  }

  /** The conservation theorem. In every run, whatever the transport takes and
      whatever fails, the bytes it was given, the write buffer and the unsent rest of
      the pending flight are the sealed records in sealing order. */
  lemma {:induction false} TransportKeepsOrder(st: State, events: seq<Event>)
    requires Conserved(st)
    ensures var st' := Run(st, events);
            st'.offset <= |Flight(st')| && st'.transport + Unsent(st') == Cat(st'.records) && st'.transport <= Cat(st'.records)
    decreases |events|
  {
    if events == [] {
      assert st.transport <= st.transport + Unsent(st);
    } else {
      StepConserves(st, events[0]);
      TransportKeepsOrder(Step(st, events[0]).0, events[1..]);
    }
  }

  // ---- How a message is cut ----

  function Plains(records: seq<Rec>): seq<byte> {
    if records == [] then [] else records[0].plain + Plains(records[1..])
  }

  /** Adding a message seals handshake records of at most `maxFrag` bytes whose
      contents, in order, are the message; an empty message takes one record. */
  lemma {:induction false} MessageIsCut(st: State, msg: seq<byte>, maxFrag: nat)
    requires st.offset == 0 && maxFrag > 0
    ensures var (st', ok) := AddMessage(st, msg, maxFrag);
            && st.records <= st'.records
            && (ok ==>
                  var added := st'.records[|st.records|..];
                  && added != [] && Plains(added) == msg
                  && forall k :: 0 <= k < |added| ==> added[k].typ == Handshake && |added[k].plain| <= maxFrag)
    decreases |msg|
  {
    var n := if |msg| < maxFrag then |msg| else maxFrag;
    var (st1, ok) := AddRecord(st, Handshake, msg[..n]);
    RecordIsAdded(st, msg[..n]);
    hide AddRecord;
    assert msg[..n] + msg[n..] == msg;
    if ok && msg[n..] != [] {
      MessageIsCut(st1, msg[n..], maxFrag);
      var (st', ok') := AddMessage(st1, msg[n..], maxFrag);
      if ok' {
        var added := st'.records[|st.records|..];
        assert added[0] == st1.records[|st.records|] && added[1..] == st'.records[|st1.records|..];
      }
    }
  }

  lemma RecordIsAdded(st: State, plain: seq<byte>)
    requires st.offset == 0
    ensures var (st1, ok) := AddRecord(st, Handshake, plain);
            if ok then
              && |st1.records| == |st.records| + 1 && st.records <= st1.records
              && st1.records[|st.records|].typ == Handshake && st1.records[|st.records|].plain == plain
              && Plains(st1.records[|st.records|..]) == plain
            else st1.records == st.records
  {
    var st1 := AddRecord(st, Handshake, plain).0;
    if st1.records != st.records {
      var rec := st1.records[|st.records|];
      assert st1.records[|st.records|..] == [rec];
      assert Plains([rec]) == rec.plain + Plains([]);
    }
  }

  // ---- Retrying ----

  /** A retry with fewer bytes than were already sealed is refused - and the
      progress is forgotten. */
  lemma ShorterRetryForgets(st: State, buf: int, data: seq<byte>, mode: Mode, net: Net)
    requires Conserved(st) && mode.maxFrag > 0 && !st.shutdown
    ensures WriteAppData(st, buf, data, mode, net).1 == Refused(BadLength) <==> |data| < st.wnum
    ensures |data| < st.wnum ==> WriteAppData(st, buf, data, mode, net).0 == st.(wnum := 0)
  {
    if st.wnum <= |data| { NeverBadLength(st.(wnum := 0), buf, data, st.wnum, mode, net); }
  }

  /** A cipher that changes nothing. */
  function Plain(): Cipher {
    Cipher(0, (k, typ, plain) => Some(plain))
  }

  /** One byte written through an empty buffer. */
  lemma WriteByte(st: State, buf: int, b: byte, net: Net)
    requires st.wpend.None? && st.buffer == [] && st.flight.None? && st.offset == 0 && st.cipher == Plain()
    ensures var sealed := st.records + [Rec(ApplicationData, [b], [b])];
            DoWrite(st, ApplicationData, buf, [b], true, net) ==
            if Taken(net, 1) == 1 then (st.(transport := st.transport + [b], records := sealed), Later(net), Wrote(1))
            else (st.(buffer := [b], records := sealed, wpend := Some(Pending(1, buf, ApplicationData, 1))), Later(net), Blocked)
  {
    var st1 := Sealed(Moved(st), ApplicationData, buf, [b], [b]);
    assert Flight(st)[st.offset..] == [] && [] + [b] == [b];
    FlushByte(st1, b, net);
  }

  lemma FlushByte(st: State, b: byte, net: Net)
    requires st.buffer == [b]
    ensures FlushBuffer(st, net) ==
            if Taken(net, 1) == 1 then (st.(transport := st.transport + [b], buffer := []), Later(net), true)
            else (st, Later(net), false)
  {
    assert [b][..1] == [b] && [b][1..] == [];
    var st1 := st.(transport := st.transport + [b], buffer := []);
    assert FlushBuffer(st1, Later(net)) == (st1, Later(net), true);
  }

  /** At an input: a write of two bytes in two records is blocked on the second, a
      shorter retry is refused, and the retry that then succeeds has sealed the second
      byte twice. */
  lemma ForgottenIsSealedAgain(st: State, mode: Mode) returns (st1: State, st2: State, st3: State)
    requires st == State([], [], None, 0, 0, None, false, Plain(), []) && mode == Mode(1, false, true)
    ensures st1.offset <= |Flight(st1)| && WpendOk(st1) && st2.offset <= |Flight(st2)| && WpendOk(st2)
    ensures WriteAppData(st, 0, [1, 2], mode, [1, 0]) == (st1, Blocked)
    ensures WriteAppData(st1, 0, [], mode, []) == (st2, Refused(BadLength))
    ensures WriteAppData(st2, 0, [1, 2], mode, [1, 1]) == (st3, Wrote(2))
    ensures st3.transport == [1, 2, 2]
  {
    hide DoWrite, WriteAppData;
    var one, two := Rec(ApplicationData, [1], [1]), Rec(ApplicationData, [2], [2]);
    var halfway := st.(transport := [1], records := [one]);
    WriteByte(st, 0, 1, [1, 0]);
    assert st.transport + [1] == [1] && st.records + [one] == [one] && Later([1, 0]) == [0];
    WriteByte(halfway, 1, 2, [0]);
    assert halfway.records + [two] == [one, two] && Later([0]) == [];
    st1 := halfway.(buffer := [2], records := [one, two], wpend := Some(Pending(1, 1, ApplicationData, 1)), wnum := 1);
    FirstCall(st, halfway, st1, mode);
    st2 := st1.(wnum := 0);
    Forgets(st1, mode);
    var done := halfway.(transport := [1, 2], records := [one, two]);
    RetryByte(st2, done, 2, [1, 1]);
    assert Later([1, 1]) == [1];
    WriteByte(done, 1, 2, [1]);
    LastCall(st2, done, mode);
    st3 := DoWrite(done, ApplicationData, 1, [2], true, [1]).0;
  }

  lemma Forgets(st: State, mode: Mode)
    requires st.offset <= |Flight(st)| && WpendOk(st) && mode.maxFrag > 0 && st.wnum > 0 && !st.shutdown
    ensures WriteAppData(st, 0, [], mode, []) == (st.(wnum := 0), Refused(BadLength))
  {
  }

  lemma RetryByte(st: State, st': State, b: byte, net: Net)
    requires st.wpend.Some? && st.wpend.value.tot == 1 == st.wpend.value.ret && st.wpend.value.typ == ApplicationData
    requires st.buffer == [b] && st.offset <= |Flight(st)| && Taken(net, 1) == 1
    requires st' == st.(transport := st.transport + [b], buffer := [], wpend := None)
    ensures DoWrite(st, ApplicationData, 0, [1], true, net) == (st', Later(net), Wrote(1))
  {
    FlushByte(st, b, net);
    hide FlushBuffer;
  }

  lemma FirstCall(st: State, halfway: State, stuck: State, mode: Mode)
    requires st.offset == 0 && WpendOk(st) && !st.shutdown && st.wnum == 0 && mode == Mode(1, false, true)
    requires halfway.offset == 0 && WpendOk(halfway) && halfway.wnum == 0
    requires DoWrite(st, ApplicationData, 0, [1], true, [1, 0]) == (halfway, [0], Wrote(1))
    requires DoWrite(halfway, ApplicationData, 1, [2], true, [0]) == (stuck.(wnum := 0), [], Blocked)
    requires stuck.wnum == 1
    ensures WriteAppData(st, 0, [1, 2], mode, [1, 0]) == (stuck, Blocked)
  {
    hide DoWrite;
    var data: seq<byte> := [1, 2];
    assert data[0..1] == [1] && data[1..2] == [2];
    assert st.(wnum := 0) == st;
    assert Turn(st, 0, data, 0, mode, [1, 0]) == Again(halfway, 1, [0]);
    assert Turn(halfway, 0, data, 1, mode, [0]) == Stop(stuck, Blocked);
    assert WriteFrom(halfway, 0, data, 1, mode, [0]) == (stuck, Blocked);
  }

  lemma LastCall(forgot: State, done: State, mode: Mode)
    requires forgot.offset == 0 && WpendOk(forgot) && !forgot.shutdown && forgot.wnum == 0 && mode == Mode(1, false, true)
    requires done.offset == 0 && WpendOk(done) && done.wnum == 0
    requires DoWrite(forgot, ApplicationData, 0, [1], true, [1, 1]) == (done, [1], Wrote(1))
    requires DoWrite(done, ApplicationData, 1, [2], true, [1]).2 == Wrote(1)
    ensures WriteAppData(forgot, 0, [1, 2], mode, [1, 1]) == (DoWrite(done, ApplicationData, 1, [2], true, [1]).0, Wrote(2))
  {
    hide DoWrite;
    var data: seq<byte> := [1, 2];
    assert data[0..1] == [1] && data[1..2] == [2];
    assert forgot.(wnum := 0) == forgot;
    assert Turn(forgot, 0, data, 0, mode, [1, 1]) == Again(done, 1, [1]);
    var st' := DoWrite(done, ApplicationData, 1, [2], true, [1]).0;
    assert Turn(done, 0, data, 1, mode, [1]) == Stop(st', Wrote(2));
    assert WriteFrom(done, 0, data, 1, mode, [1]) == (st', Wrote(2));
  }

  lemma {:induction false} NeverBadLength(st: State, buf: int, data: seq<byte>, tot: nat, mode: Mode, net: Net)
    requires st.offset <= |Flight(st)| && WpendOk(st) && mode.maxFrag > 0 && tot <= |data|
    ensures WriteFrom(st, buf, data, tot, mode, net).1 != Refused(BadLength)
    decreases |data| - tot
  {
    var t := Turn(st, buf, data, tot, mode, net);
    if t.Again? { NeverBadLength(t.st, buf, data, t.tot, mode, t.net); }
  }

  lemma AppMidway(st: State, buf: int, data: seq<byte>, before: seq<byte>, mode: Mode, net: Net)
    requires Conserved(st) && mode.maxFrag > 0 && Midway(st, buf, data, before, st.wnum)
    ensures var (st', r) := WriteAppData(st, buf, data, mode, net);
            Conserved(st') && Reported(st', r, buf, data, before, mode)
  {
    if st.shutdown {
      NotReported(st, Refused(ProtocolIsShutdown), buf, data, before, mode);
    } else {
      StopsConserved(st, 0);
      StopsMidwayAt(st, buf, data, before);
      hide WriteFrom, Conserved, Reported;
      WriteFromMidway(st.(wnum := 0), buf, data, before, st.wnum, mode, net);
    }
  }

  lemma StopsMidwayAt(st: State, buf: int, data: seq<byte>, before: seq<byte>)
    requires Midway(st, buf, data, before, st.wnum)
    ensures st.wnum <= |data| && Midway(st.(wnum := 0), buf, data, before, st.wnum)
  {
  }

  ghost predicate SameApp(st: State, st': State) {
    AppPlain(st'.records) == AppPlain(st.records) && InFlight(st') == InFlight(st) && st'.wnum == st.wnum
  }

  lemma AddRecordKeepsApp(st: State, typ: ContentType, plain: seq<byte>)
    requires st.offset == 0 && typ != ApplicationData
    ensures SameApp(st, AddRecord(st, typ, plain).0)
  {
    hide AppPlain;
    var c := Seal(st, typ, plain, |plain| + st.cipher.overhead);
    if c.Some? { AppPlainAppend(st.records, Rec(typ, plain, c.value)); }
  }

  lemma {:induction false} AddMessageKeepsApp(st: State, msg: seq<byte>, maxFrag: nat)
    requires st.offset == 0 && maxFrag > 0
    ensures SameApp(st, AddMessage(st, msg, maxFrag).0)
    decreases |msg|
  {
    var n := if |msg| < maxFrag then |msg| else maxFrag;
    AddRecordKeepsApp(st, Handshake, msg[..n]);
    var (st', ok) := AddRecord(st, Handshake, msg[..n]);
    if ok && msg[n..] != [] { AddMessageKeepsApp(st', msg[n..], maxFrag); }
  }

  lemma FlushKeepsApp(st: State, net: Net, flushed: bool)
    requires Conserved(st)
    ensures SameApp(st, FlushFlight(st, net, flushed).0)
  {
    FlushBufferKeeps(st, net);
    var (st1, net1, ok1) := FlushBuffer(st, net);
    if st.flight.Some? && ok1 { WriteFlightConserves(st1, net1); }
  }

  lemma AlertKeepsApp(st: State, buf: int, alert: seq<byte>, net: Net)
    requires Conserved(st)
    ensures SameApp(st, DoWrite(st, ContentType.Alert, buf, alert, false, net).0)
  {
    DoWriteCases(st, ContentType.Alert, buf, alert, false, net);
    DoWriteKeeps(st, ContentType.Alert, buf, alert, false, net);
    var (st', _, r) := DoWrite(st, ContentType.Alert, buf, alert, false, net);
    hide DoWrite, Conserved;
    if st'.records != st.records { assert st'.records[..|st'.records| - 1] == st.records; }
  }

  lemma OtherEventsKeepApp(st: State, e: Event)
    requires Conserved(st) && !e.App?
    ensures SameApp(st, Step(st, e).0)
  {
    hide AddMessage, AddRecord, FlushFlight, DoWrite, AppPlain;
    match e
    case Message(msg, maxFrag) => if st.offset == 0 && maxFrag > 0 { AddMessageKeepsApp(st, msg, maxFrag); }
    case Ccs => if st.offset == 0 { AddRecordKeepsApp(st, ChangeCipherSpec, [1]); }
    case FlightAlert(alert) => if st.offset == 0 { AddRecordKeepsApp(st, ContentType.Alert, alert); }
    case Flush(net, flushed) => FlushKeepsApp(st, net, flushed);
    case SendAlert(alert, buf, net) => AlertKeepsApp(st, buf, alert, net);
    case Shutdown =>
  }

  lemma MidwayDepends(st: State, st': State, buf: int, data: seq<byte>, before: seq<byte>)
    requires Midway(st, buf, data, before, st.wnum) && SameApp(st, st')
    ensures Midway(st', buf, data, before, st'.wnum)
  {
  }

  /** Steps until a write of application data reports success. */
  function UntilWritten(st: State, events: seq<Event>): (r: (State, Option<nat>))
    requires Conserved(st)
    decreases |events|
  {
    if events == [] then (st, None)
    else
      StepConserves(st, events[0]);
      var (st', r) := Step(st, events[0]);
      if events[0].App? && r.Wrote? then (st', Some(r.n)) else UntilWritten(st', events[1..])
  }

  /** Retrying a write with the same buffer and length until it succeeds, with
      handshake messages, alerts and flushes in between, seals each byte it reports
      exactly once, in order; without partial writes that is the whole buffer. */
  lemma {:induction false} RetriesSealOnce(st: State, buf: int, data: seq<byte>, before: seq<byte>, mode: Mode, events: seq<Event>)
    requires Conserved(st) && mode.maxFrag > 0 && Midway(st, buf, data, before, st.wnum)
    requires forall k :: 0 <= k < |events| && events[k].App? ==>
               events[k].buf == buf && events[k].data == data && events[k].mode == mode
    ensures var (st', written) := UntilWritten(st, events);
            if written.Some? then
              && AppPlain(st'.records) == before + data[..if written.value <= |data| then written.value else 0]
              && written.value <= |data| && (!mode.partialWrites ==> written.value == |data|)
              && st'.wnum == 0 && InFlight(st') == 0
            else Midway(st', buf, data, before, st'.wnum)
    decreases |events|
  {
    OffsetInside(st);
    hide Conserved, Midway, AppPlain, WriteAppData, WriteFrom;
    if events == [] {
      return;
    }
    var e := events[0];
    var (st', r) := Step(st, e);
    StepConserves(st, e);
    assert forall k :: 0 <= k < |events| - 1 ==> events[1..][k] == events[k + 1];
    if e.App? {
      AppMidway(st, buf, data, before, mode, e.net);
    } else {
      OtherEventsKeepApp(st, e);
      MidwayDepends(st, st', buf, data, before);
    }
    if !(e.App? && r.Wrote?) {
      RetriesSealOnce(st', buf, data, before, mode, events[1..]);
    }
  }
}
