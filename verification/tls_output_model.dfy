// The TLS output path as functions on a value: handshake records wait in a pending
// flight, application records in the write buffer, and a non-blocking transport
// takes bytes from either. Sealing is an abstract function.
module TlsOutputModel {
  import opened Basics

  const MAX_PLAIN := 16384      // SSL3_RT_MAX_PLAIN_LENGTH
  const MAX_BUFFER := 0xffff    // the largest capacity of an SSLBuffer
  const INT_MAX := 0x7fff_ffff

  datatype ContentType = ChangeCipherSpec | Alert | Handshake | ApplicationData

  /** A bound on the expansion of a record, and the sealed form of the `k`-th record. */
  datatype Cipher = Cipher(overhead: nat, seal: (nat, ContentType, seq<byte>) -> Option<seq<byte>>)

  /** History: a record that was sealed. */
  datatype Rec = Rec(typ: ContentType, plain: seq<byte>, sealed: seq<byte>)

  /** wpend_tot, wpend_buf, wpend_type and wpend_ret while wpend_pending is set. */
  datatype Pending = Pending(tot: nat, buf: int, typ: ContentType, ret: nat)

  datatype State = State(
    transport: seq<byte>,          // what the transport has taken
    buffer: seq<byte>,             // write_buffer
    flight: Option<seq<byte>>,     // pending_flight
    offset: nat,                   // pending_flight_offset
    wnum: nat,
    wpend: Option<Pending>,
    shutdown: bool,                // write_shutdown is set
    cipher: Cipher,
    records: seq<Rec>)             // history

  datatype Refusal = BadWriteRetry | BadLength | ProtocolIsShutdown | Internal | SealFailed

  /** `Wrote(n)` for a positive result, `Blocked` when the transport took nothing. */
  datatype Ret = Wrote(n: nat) | Nothing | Blocked | Refused(why: Refusal)

  // ---- The transport ----

  /** The answers of the next calls of BIO_write. */
  type Net = seq<int>

  /** How many of `len` offered bytes are taken; none when `net` says so or is
      exhausted. */
  function Taken(net: Net, len: nat): (n: nat)
    ensures n <= len
  {
    if net == [] || net[0] <= 0 then 0 else if net[0] < len then net[0] else len
  }

  function Later(net: Net): (r: Net) {
    if net == [] then [] else net[1..]
  }

  /** `tls_write_buffer_flush`. */
  function FlushBuffer(st: State, net: Net): (r: (State, Net, bool))
    decreases |st.buffer|
  {
    if st.buffer == [] then (st, net, true)
    else
      var n := Taken(net, |st.buffer|);
      if n == 0 then (st, Later(net), false)
      else FlushBuffer(st.(transport := st.transport + st.buffer[..n], buffer := st.buffer[n..]), Later(net))
  }

  /** The loop of `ssl3_flush_flight` over the flight. */
  function WriteFlight(st: State, net: Net): (r: (State, Net, bool))
    requires st.flight.Some? && st.offset <= |st.flight.value|
    ensures r.0.flight == st.flight && r.0.offset <= |st.flight.value|
    decreases |st.flight.value| - st.offset
  {
    var left := |st.flight.value| - st.offset;
    if left == 0 then (st, net, true)
    else
      var n := Taken(net, left);
      if n == 0 then (st, Later(net), false)
      else
        WriteFlight(st.(transport := st.transport + st.flight.value[st.offset..st.offset + n], offset := st.offset + n), Later(net))
  }

  // ---- Handshake records ----

  /** Seals into at most `max` bytes. */
  function Seal(st: State, typ: ContentType, plain: seq<byte>, max: nat): Option<seq<byte>> {
    var c := st.cipher.seal(|st.records|, typ, plain);
    if c.Some? && |c.value| <= max then c else None
  }

  function Flight(st: State): seq<byte> {
    if st.flight.Some? then st.flight.value else []
  }

  /** `add_record_to_flight`; the source asserts that the flight is not being written. */
  function AddRecord(st: State, typ: ContentType, plain: seq<byte>): (r: (State, bool))
    requires st.offset == 0
    ensures r.0.offset == 0
  {
    var st := st.(flight := Some(Flight(st)));
    var c := Seal(st, typ, plain, |plain| + st.cipher.overhead);
    if c.None? then (st, false)
    else (st.(flight := Some(Flight(st) + c.value), records := st.records + [Rec(typ, plain, c.value)]), true)
  }

  /** `ssl3_add_message`: records of at most `maxFrag` bytes, one at least. */
  function AddMessage(st: State, msg: seq<byte>, maxFrag: nat): (r: (State, bool))
    requires st.offset == 0 && maxFrag > 0
    ensures r.0.offset == 0
    decreases |msg|
  {
    var n := if |msg| < maxFrag then |msg| else maxFrag;
    var (st', ok) := AddRecord(st, Handshake, msg[..n]);
    if !ok then (st', false)
    else if msg[n..] == [] then (st', true)
    else AddMessage(st', msg[n..], maxFrag)
  }

  /** `ssl3_flush_flight`. */
  function FlushFlight(st: State, net: Net, flushed: bool): (r: (State, Ret))
    requires st.offset <= |Flight(st)|
  {
    if st.flight.None? then (st, Wrote(1))
    else if st.shutdown then (st, Refused(ProtocolIsShutdown))
    else if |st.flight.value| > INT_MAX then (st, Refused(Internal))
    else
      var (st1, net1, ok1) := FlushBuffer(st, net);
      if !ok1 then (st1, Blocked)
      else
        FlushBufferKeeps(st, net);
        var (st2, _, ok2) := WriteFlight(st1, net1);
        if !ok2 || !flushed then (st2, Blocked)
        else (st2.(flight := None, offset := 0), Wrote(1))
  }

  lemma {:induction false} FlushBufferKeeps(st: State, net: Net)
    ensures FlushBuffer(st, net).0 ==
            st.(transport := FlushBuffer(st, net).0.transport, buffer := FlushBuffer(st, net).0.buffer)
    ensures FlushBuffer(st, net).2 ==> FlushBuffer(st, net).0.buffer == []
    decreases |st.buffer|
  {
    if st.buffer != [] && Taken(net, |st.buffer|) > 0 {
      var n := Taken(net, |st.buffer|);
      FlushBufferKeeps(st.(transport := st.transport + st.buffer[..n], buffer := st.buffer[n..]), Later(net));
    }
  }

  // ---- Application data and alerts ----

  ghost predicate WpendOk(st: State) {
    st.wpend.Some? ==> 0 < st.wpend.value.ret == st.wpend.value.tot
  }

  /** `ssl3_write_pending`. `moving` is SSL_MODE_ACCEPT_MOVING_WRITE_BUFFER. */
  function WritePending(st: State, typ: ContentType, buf: int, len: nat, moving: bool, net: Net): (r: (State, Net, Ret))
    requires st.wpend.Some?
  {
    var w := st.wpend.value;
    if w.tot > len || (!moving && w.buf != buf) || w.typ != typ then (st, net, Refused(BadWriteRetry))
    else
      var (st', net', ok) := FlushBuffer(st, net);
      if !ok then (st', net', Blocked) else (st'.(wpend := None), net', Wrote(w.ret))
  }

  /** `do_ssl3_write`. */
  function DoWrite(st: State, typ: ContentType, buf: int, plain: seq<byte>, moving: bool, net: Net): (r: (State, Net, Ret))
    requires st.offset <= |Flight(st)|
  {
    if st.wpend.Some? then WritePending(st, typ, buf, |plain|, moving, net)
    else if |plain| > MAX_PLAIN || |st.buffer| > 0 then (st, net, Refused(Internal))
    else if plain == [] then (st, net, Nothing)
    else if |plain| + st.cipher.overhead + (|Flight(st)| - st.offset) > MAX_BUFFER then (st, net, Refused(Internal))
    else
      var st1 := Moved(st);
      var c := Seal(st1, typ, plain, |plain| + st.cipher.overhead);
      if c.None? then (st1, net, Refused(SealFailed))
      else WritePending(Sealed(st1, typ, buf, plain, c.value), typ, buf, |plain|, moving, net)
  }

  /** The unsent rest of the flight becomes the start of the write buffer. */
  function Moved(st: State): State
    requires st.offset <= |Flight(st)|
  {
    st.(buffer := Flight(st)[st.offset..], flight := None, offset := 0)
  }

  /** A record was sealed into the write buffer and is now pending. */
  function Sealed(st: State, typ: ContentType, buf: int, plain: seq<byte>, c: seq<byte>): State {
    st.(buffer := st.buffer + c, records := st.records + [Rec(typ, plain, c)],
        wpend := Some(Pending(|plain|, buf, typ, |plain|)))
  }

  lemma DoWriteKeeps(st: State, typ: ContentType, buf: int, plain: seq<byte>, moving: bool, net: Net)
    requires st.offset <= |Flight(st)| && WpendOk(st)
    ensures var (st', _, r) := DoWrite(st, typ, buf, plain, moving, net);
            && WpendOk(st') && st'.offset <= |Flight(st')| && st'.wnum == st.wnum
            && st'.shutdown == st.shutdown && st'.cipher == st.cipher
            && (r.Wrote? ==> 0 < r.n <= |plain| && st'.wpend.None?)
  {
    hide FlushBuffer;
    if st.wpend.Some? {
      FlushBufferKeeps(st, net);
    } else {
      var st1 := Moved(st);
      var c := Seal(st1, typ, plain, |plain| + st.cipher.overhead);
      if c.Some? { FlushBufferKeeps(Sealed(st1, typ, buf, plain, c.value), net); }
    }
  }

  /** How an application writes: the record size limit and the two SSL_MODE flags. */
  datatype Mode = Mode(maxFrag: nat, partialWrites: bool, moving: bool)

  /** `ssl3_write_app_data` of the bytes `data`, held at address `buf`. */
  function WriteAppData(st: State, buf: int, data: seq<byte>, mode: Mode, net: Net): (r: (State, Ret))
    requires st.offset <= |Flight(st)| && WpendOk(st) && mode.maxFrag > 0
  {
    if st.shutdown then (st, Refused(ProtocolIsShutdown))
    else if |data| < st.wnum then (st.(wnum := 0), Refused(BadLength))
    else WriteFrom(st.(wnum := 0), buf, data, st.wnum, mode, net)
  }

  datatype Turned = Stop(st: State, r: Ret) | Again(st: State, tot: nat, net: Net)

  /** One turn of the loop, with `tot` bytes done. */
  function Turn(st: State, buf: int, data: seq<byte>, tot: nat, mode: Mode, net: Net): (t: Turned)
    requires st.offset <= |Flight(st)| && WpendOk(st) && mode.maxFrag > 0 && tot <= |data|
    ensures t.Again? ==> tot < t.tot <= |data| && t.st.offset <= |Flight(t.st)| && WpendOk(t.st)
  {
    var n := |data| - tot;
    var nw := if n > mode.maxFrag then mode.maxFrag else n;
    DoWriteKeeps(st, ApplicationData, buf + tot, data[tot..tot + nw], mode.moving, net);
    var (st', net', r) := DoWrite(st, ApplicationData, buf + tot, data[tot..tot + nw], mode.moving, net);
    AfterWrite(st', net', r, |data|, tot, mode)
  }

  /** What the loop makes of the outcome of `do_ssl3_write`. */
  function AfterWrite(st: State, net: Net, r: Ret, len: nat, tot: nat, mode: Mode): Turned {
    if !r.Wrote? then Stop(st.(wnum := tot), r)
    else if tot + r.n == len || mode.partialWrites then Stop(st, Wrote(tot + r.n))
    else Again(st, tot + r.n, net)
  }

  function WriteFrom(st: State, buf: int, data: seq<byte>, tot: nat, mode: Mode, net: Net): (State, Ret)
    requires st.offset <= |Flight(st)| && WpendOk(st) && mode.maxFrag > 0 && tot <= |data|
    decreases |data| - tot
  {
    match Turn(st, buf, data, tot, mode, net)
    case Stop(st', r) => (st', r)
    case Again(st', tot', net') => WriteFrom(st', buf, data, tot', mode, net')
  }
}
