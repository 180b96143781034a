// The TLS output path as the source keeps it: a write buffer and a pending flight
// updated in place, and loops over the transport. Every method is proved to be the
// corresponding function of TlsOutputModel as long as records fit the 16-bit buffer.
module TlsWriter {
  import opened Basics
  import opened TlsOutputModel
  import opened TlsOutput
  import opened TlsFlush
  import SslBuffer

  /** If `do_ssl3_write` gets as far as filling the buffer, then the rest of the flight
      and the record fit below 2^16 behind any slack. `RecordConservedExactly` shows
      that nothing less will do. */
  predicate Fits(st: State, typ: ContentType, plain: seq<byte>)
    requires st.offset <= |Flight(st)|
  {
    st.wpend.None? && st.buffer == [] && 0 < |plain| <= MAX_PLAIN
    && |plain| + st.cipher.overhead + (|Flight(st)| - st.offset) < SslBuffer.U16 ==>
      SslBuffer.ALIGN - 1 + (|Flight(st)| - st.offset) + SealedLength(st, typ, plain) <= SslBuffer.U16
  }

  function SealedLength(st: State, typ: ContentType, plain: seq<byte>): nat {
    var c := Seal(st, typ, plain, |plain| + st.cipher.overhead);
    if c.Some? then |c.value| else 0
  }

  /** Every record that this write of application data seals fits. */
  predicate AllFit(st: State, buf: int, data: seq<byte>, tot: nat, mode: Mode, net: Net)
    requires st.offset <= |Flight(st)| && WpendOk(st) && mode.maxFrag > 0 && tot <= |data|
    decreases |data| - tot
  {
    var t := Turn(st, buf, data, tot, mode, net);
    Fits(st, ApplicationData, Piece(data, tot, mode)) && (t.Again? ==> AllFit(t.st, buf, data, t.tot, mode, t.net))
  }

  class Writer {
    const buffer: SslBuffer.SSLBuffer       // write_buffer
    const cipher: Cipher
    var pendingFlight: Option<seq<byte>>
    var pendingFlightOffset: nat
    var wnum: nat
    var wpendPending: bool
    var wpendTot: nat
    var wpendBuf: int
    var wpendType: ContentType
    var wpendRet: nat
    var writeShutdown: bool
    var transport: seq<byte>                // what the peer's side of wbio has
    var sealCount: nat                      // the write sequence number
    ghost var records: seq<Rec>

    ghost predicate Valid()
      reads this, buffer, buffer.buf
    {
      && buffer.Valid() && (buffer.size == 0 ==> buffer.offset < SslBuffer.ALIGN)
      && pendingFlightOffset <= |Flight(Model())| && WpendOk(Model())
      && MAX_PLAIN + cipher.overhead + SslBuffer.ALIGN <= SslBuffer.U16
      && sealCount == |records|
    }

    ghost function Model(): State
      requires buffer.Valid()
      reads this, buffer, buffer.buf
    {
      State(transport, buffer.Contents(), pendingFlight, pendingFlightOffset, wnum,
            if wpendPending then Some(Pending(wpendTot, wpendBuf, wpendType, wpendRet)) else None,
            writeShutdown, cipher, records)
    }

    constructor (cipher: Cipher)
      requires MAX_PLAIN + cipher.overhead + SslBuffer.ALIGN <= SslBuffer.U16
      ensures Valid() && fresh(buffer) && buffer.buf == null
      ensures Model() == State([], [], None, 0, 0, None, false, cipher, [])
    {
      this.cipher := cipher;
      buffer := new SslBuffer.SSLBuffer();
      pendingFlight, pendingFlightOffset, wnum, wpendPending := None, 0, 0, false;
      wpendTot, wpendBuf, wpendType, wpendRet := 0, 0, ApplicationData, 0;
      writeShutdown, transport, sealCount, records := false, [], 0, [];
    }

    /** `BIO_write`: the transport takes what `net` says. */
    method BioWrite(b: seq<byte>, net: Net) returns (n: nat)
      modifies this`transport
      ensures n == Taken(net, |b|) && transport == old(transport) + b[..n]
    {
      n := Taken(net, |b|);
      transport := transport + b[..n];
    }

    /** `tls_write_buffer_flush`. */
    method FlushWriteBuffer(net: Net) returns (later: Net, ok: bool)
      requires Valid()
      modifies this`transport, buffer
      ensures Valid() && (buffer.buf == old(buffer.buf) || buffer.buf == null)
      ensures var f := FlushMemory(old(buffer.Model()), old(transport), net);
              transport == f.1 && later == f.2 && ok == f.3 && (if ok then buffer.size == 0 else buffer.Model() == f.0)
      ensures old(buffer.Whole()) ==> buffer.Whole() && (Model(), later, ok) == FlushBuffer(old(Model()), net)
    {
      hide FlushBuffer, FlushMemory, Taken, SslBuffer.SSLBuffer.Contents, SslBuffer.SSLBuffer.Model;
      ghost var m, st := buffer.Model(), Model();
      later := net;
      while buffer.size != 0
        invariant buffer.Valid() && buffer.buf == old(buffer.buf)
        invariant FlushMemory(buffer.Model(), transport, later) == FlushMemory(m, st.transport, net)
        decreases buffer.size
      {
        var contents := buffer.Data();
        FlushUnfolds(buffer.Model(), transport, later);
        var n := BioWrite(contents, later);
        later := Later(later);
        if n == 0 {
          if m.Whole() { FlushIsWhole(m, st, net); }
          return later, false;
        }
        buffer.Consume(n);
      }
      FlushUnfolds(buffer.Model(), transport, later);
      if m.Whole() { FlushIsWhole(m, st, net); }
      buffer.Clear();
      ok := true;
    }

    /** `tls_seal_record` into at most `max` bytes. */
    method SealRecord(typ: ContentType, plain: seq<byte>, max: nat) returns (c: Option<seq<byte>>)
      requires Valid()
      modifies this`records, this`sealCount
      ensures Valid() && c == Seal(old(Model()), typ, plain, max)
      ensures c.Some? ==> |c.value| <= max
      ensures records == if c.Some? then old(records) + [Rec(typ, plain, c.value)] else old(records)
    {
      c := cipher.seal(sealCount, typ, plain);
      if c.Some? && |c.value| > max {
        c := None;
      }
      if c.Some? {
        sealCount, records := sealCount + 1, records + [Rec(typ, plain, c.value)];
      }
    }

    // ---- Handshake records ----

    /** `add_record_to_flight`. */
    method AddRecordToFlight(typ: ContentType, plain: seq<byte>) returns (ok: bool)
      requires Valid() && pendingFlightOffset == 0
      modifies this`pendingFlight, this`records, this`sealCount
      ensures Valid() && (Model(), ok) == AddRecord(old(Model()), typ, plain)
      ensures if ok then
                && |records| == |old(records)| + 1 && records[..|old(records)|] == old(records)
                && records[|old(records)|].typ == typ && records[|old(records)|].plain == plain
                && pendingFlight == Some(Flight(old(Model())) + records[|old(records)|].sealed)
              else records == old(records) && Flight(Model()) == Flight(old(Model()))
    {
      if pendingFlight.None? {
        pendingFlight := Some([]);
      }
      var c := SealRecord(typ, plain, |plain| + cipher.overhead);
      if c.None? {
        return false;
      }
      pendingFlight := Some(pendingFlight.value + c.value);
      ok := true;
    }

    /** `ssl3_add_message`. */
    method AddHandshakeMessage(msg: seq<byte>, maxFrag: nat) returns (ok: bool)
      requires Valid() && pendingFlightOffset == 0 && maxFrag > 0
      modifies this`pendingFlight, this`records, this`sealCount
      ensures Valid() && (Model(), ok) == AddMessage(old(Model()), msg, maxFrag)
    {
      hide AddRecord;
      var rest := msg;
      var more := true;
      while more
        invariant Valid() && pendingFlightOffset == 0
        invariant more ==> AddMessage(Model(), rest, maxFrag) == AddMessage(old(Model()), msg, maxFrag)
        invariant !more ==> (Model(), true) == AddMessage(old(Model()), msg, maxFrag)
        decreases more, |rest|
      {
        var n := if |rest| < maxFrag then |rest| else maxFrag;
        ok := AddRecordToFlight(Handshake, rest[..n]);
        if !ok {
          return;
        }
        rest := rest[n..];
        more := rest != [];
      }
      ok := true;
    }

    /** `ssl3_add_change_cipher_spec`. */
    method AddChangeCipherSpec() returns (ok: bool)
      requires Valid() && pendingFlightOffset == 0
      modifies this`pendingFlight, this`records, this`sealCount
      ensures Valid() && (Model(), ok) == AddRecord(old(Model()), ChangeCipherSpec, [1])
    {
      ok := AddRecordToFlight(ChangeCipherSpec, [1]);
    }

    /** `ssl3_flush_flight`. */
    method FlushPendingFlight(net: Net, flushed: bool) returns (r: Ret)
      requires Valid()
      modifies this`transport, this`pendingFlight, this`pendingFlightOffset, buffer
      ensures Valid()
      ensures old(buffer.Whole()) ==> buffer.Whole() && (Model(), r) == FlushFlight(old(Model()), net, flushed)
      ensures r.Wrote? ==> pendingFlight.None? && (old(pendingFlight).Some? ==> buffer.size == 0)
    {
      hide FlushBuffer, FlushMemory, WriteFlight, SslBuffer.SSLBuffer.Contents, SslBuffer.SSLBuffer.Model;
      if pendingFlight.None? {
        return Wrote(1);
      }
      if writeShutdown {
        return Refused(ProtocolIsShutdown);
      }
      if |pendingFlight.value| > INT_MAX {
        return Refused(Internal);
      }
      FlushBufferKeeps(Model(), net);
      var later, ok := FlushWriteBuffer(net);
      if !ok {
        return Blocked;
      }
      later, ok := WritePendingFlight(later);
      if !ok || !flushed {
        return Blocked;
      }
      pendingFlight, pendingFlightOffset := None, 0;
      r := Wrote(1);
    }

    method WritePendingFlight(net: Net) returns (later: Net, ok: bool)
      requires Valid() && pendingFlight.Some?
      modifies this`transport, this`pendingFlightOffset
      ensures Valid() && (Model(), later, ok) == WriteFlight(old(Model()), net)
    {
      hide Taken, WriteFlight, SslBuffer.SSLBuffer.Contents;
      later := net;
      while pendingFlightOffset < |pendingFlight.value|
        invariant Valid()
        invariant WriteFlight(Model(), later) == WriteFlight(old(Model()), net)
        decreases |pendingFlight.value| - pendingFlightOffset
      {
        ghost var st := Model();
        WriteFlightUnfolds(st, later);
        var rest := pendingFlight.value[pendingFlightOffset..];
        var n := BioWrite(rest, later);
        later := Later(later);
        if n == 0 {
          assert Model() == st;
          return later, false;
        }
        pendingFlightOffset := pendingFlightOffset + n;
        assert rest[..n] == st.flight.value[st.offset..st.offset + n];
      }
      WriteFlightUnfolds(Model(), later);
      ok := true;
    }

    // ---- Application data and alerts ----

    /** `ssl3_write_pending`. */
    method WritePendingRecord(typ: ContentType, buf: int, len: nat, moving: bool, net: Net) returns (later: Net, r: Ret)
      requires Valid() && wpendPending
      modifies this`transport, this`wpendPending, buffer
      ensures Valid() && (buffer.buf == null || buffer.buf == old(buffer.buf))
      ensures r == Refused(BadWriteRetry) <==> wpendTot > len || (!moving && wpendBuf != buf) || wpendType != typ
      ensures if r.Wrote? then r.n == wpendRet && !wpendPending && buffer.size == 0 else wpendPending
      ensures old(buffer.Whole()) ==>
                buffer.Whole() && (Model(), later, r) == WritePending(old(Model()), typ, buf, len, moving, net)
    {
      hide FlushBuffer, FlushMemory, Taken, SslBuffer.SSLBuffer.Contents, SslBuffer.SSLBuffer.Model;
      if wpendTot > len || (!moving && wpendBuf != buf) || wpendType != typ {
        return net, Refused(BadWriteRetry);
      }
      var ok;
      FlushBufferKeeps(Model(), net);
      later, ok := FlushWriteBuffer(net);
      if !ok {
        return later, Blocked;
      }
      wpendPending := false;
      r := Wrote(wpendRet);
    }

    /** The part of `do_ssl3_write` that moves the unsent flight into the buffer. */
    method MoveFlight()
      requires Valid() && buffer.Contents() == [] && buffer.buf != null
      requires |Flight(Model())| - pendingFlightOffset <= buffer.cap
      modifies this`pendingFlight, this`pendingFlightOffset, buffer`size, buffer.buf
      ensures Valid() && Model() == Moved(old(Model()))
      ensures buffer.size == |Flight(old(Model()))| - old(pendingFlightOffset)
    {
      if pendingFlight.Some? {
        buffer.Append(pendingFlight.value[pendingFlightOffset..]);
        pendingFlight, pendingFlightOffset := None, 0;
      }
    }

    /** Seals a record behind what the buffer holds and makes it the pending one. */
    method SealPending(typ: ContentType, buf: int, plain: seq<byte>) returns (ok: bool)
      requires Valid() && !wpendPending && plain != [] && buffer.buf != null
      requires |plain| + cipher.overhead <= buffer.cap - buffer.size
      modifies this`records, this`sealCount, this`wpendPending, this`wpendTot, this`wpendBuf, this`wpendType, this`wpendRet
      modifies buffer`size, buffer.buf
      ensures Valid()
      ensures wpendPending == ok
      ensures var c := Seal(old(Model()), typ, plain, |plain| + cipher.overhead);
              ok == c.Some? && Model() == if ok then Sealed(old(Model()), typ, buf, plain, c.value) else old(Model())
    {
      ghost var st := Model();
      var c := SealRecord(typ, plain, |plain| + cipher.overhead);
      if c.None? {
        assert Model() == st;
        return false;
      }
      buffer.Append(c.value);
      assert Model() == st.(buffer := st.buffer + c.value, records := st.records + [Rec(typ, plain, c.value)]);
      hide SslBuffer.SSLBuffer.Contents;
      SetPending(typ, buf, |plain|);
      ok := true;
    }

    /** Memorizes the arguments, so that bad retries can be detected. */
    method SetPending(typ: ContentType, buf: int, len: nat)
      requires Valid() && len > 0
      modifies this`wpendPending, this`wpendTot, this`wpendBuf, this`wpendType, this`wpendRet
      ensures Valid() && wpendPending && Model() == old(Model()).(wpend := Some(Pending(len, buf, typ, len)))
    {
      wpendTot, wpendBuf, wpendType, wpendRet, wpendPending := len, buf, typ, len, true;
    }

    /** The middle of `do_ssl3_write`: room for the flight and the record, then both
        of them in the buffer. */
    method PrepareRecord(typ: ContentType, buf: int, plain: seq<byte>) returns (refused: Option<Refusal>)
      requires Valid() && !wpendPending && buffer.size == 0 && plain != []
      modifies this, buffer, buffer.buf
      ensures Valid() && (buffer.buf == old(buffer.buf) || fresh(buffer.buf))
      ensures var st := old(Model());
              var c := Seal(Moved(st), typ, plain, |plain| + st.cipher.overhead);
              if |plain| + st.cipher.overhead + (|Flight(st)| - st.offset) >= SslBuffer.U16
              then refused == Some(Internal) && Model() == st
              else if c.None? then refused == Some(SealFailed) && Model() == Moved(st)
              else refused == None && wpendPending && Model() == Sealed(Moved(st), typ, buf, plain, c.value)
      ensures buffer.offset < SslBuffer.ALIGN
    {
      hide Seal, Sealed, Moved, WpendOk, Fits, SealedLength;
      ghost var st := Model();
      var flightLen := if pendingFlight.Some? then |pendingFlight.value| - pendingFlightOffset else 0;
      var slack: nat :| slack < SslBuffer.ALIGN;   // decided by where the memory lies
      var ok := buffer.EnsureCap(|plain| + cipher.overhead + flightLen, slack);
      if !ok {
        return Some(Internal);
      }
      assert Model() == st;
      hide SslBuffer.SSLBuffer.Contents;
      MoveFlight();
      ok := SealPending(typ, buf, plain);
      refused := if ok then None else Some(SealFailed);
    }

    /** `do_ssl3_write`. */
    method WriteRecord(typ: ContentType, buf: int, plain: seq<byte>, moving: bool, net: Net) returns (later: Net, r: Ret)
      requires Valid()
      modifies this, buffer, buffer.buf
      ensures Valid() && (buffer.buf == null || buffer.buf == old(buffer.buf) || fresh(buffer.buf))
      ensures r.Wrote? ==> 0 < r.n <= |plain| && !wpendPending
      ensures old(buffer.Whole()) && Fits(old(Model()), typ, plain) ==>
                buffer.Whole() && (Model(), later, r) == DoWrite(old(Model()), typ, buf, plain, moving, net)
    {
      hide FlushBuffer, WritePending, Seal, Sealed, Moved, Fits, FlushMemory;
      hide SslBuffer.SSLBuffer.Contents, SslBuffer.SSLBuffer.Model, Taken;
      if wpendPending {
        later, r := WritePendingRecord(typ, buf, |plain|, moving, net);
        return;
      }
      if |plain| > MAX_PLAIN || buffer.size > 0 {
        return net, Refused(Internal);
      }
      if |plain| == 0 {
        return net, Nothing;
      }
      ghost var st := Model();
      PreparedFits(st, typ, buf, plain);
      var refused := PrepareRecord(typ, buf, plain);
      assert buffer.size == |Model().buffer|;
      if refused.Some? {
        return net, Refused(refused.value);
      }
      later, r := WritePendingRecord(typ, buf, |plain|, moving, net);
    }

    /** One turn of the loop of `ssl3_write_app_data`. */
    method WriteTurn(buf: int, data: seq<byte>, tot: nat, mode: Mode, net: Net)
        returns (done: bool, r: Ret, tot': nat, later: Net)
      requires Valid() && mode.maxFrag > 0 && tot <= |data|
      modifies this, buffer, buffer.buf
      ensures Valid() && (buffer.buf == null || buffer.buf == old(buffer.buf) || fresh(buffer.buf))
      ensures old(buffer.Whole()) && Fits(old(Model()), ApplicationData, Piece(data, tot, mode)) ==>
                buffer.Whole()
                && Turn(old(Model()), buf, data, tot, mode, net) == if done then Stop(Model(), r) else Again(Model(), tot', later)
      ensures tot' <= |data| && (!done ==> tot < tot')
    {
      hide DoWrite, Fits, Conserved;
      tot' := tot;
      var n: nat := |data| - tot;
      var plain := Piece(data, tot, mode);
      DoWriteKeeps(Model(), ApplicationData, buf + tot, plain, mode.moving, net);
      later, r := WriteRecord(ApplicationData, buf + tot, plain, mode.moving, net);
      done := true;
      if !r.Wrote? {
        wnum := tot;
      } else if r.n == n || mode.partialWrites {
        r := Wrote(tot + r.n);
      } else {
        tot', done := tot + r.n, false;
      }
    }

    /** `ssl3_write_app_data`. */
    method WriteApplicationData(buf: int, data: seq<byte>, mode: Mode, net: Net) returns (r: Ret)
      requires Valid() && mode.maxFrag > 0
      modifies this, buffer, buffer.buf
      ensures Valid()
      ensures old(buffer.Whole())
              && (old(wnum) <= |data| ==> AllFit(old(Model()).(wnum := 0), buf, data, old(wnum), mode, net)) ==>
                && buffer.Whole()
                && (Model(), r) == WriteAppData(old(Model()), buf, data, mode, net)
    {
      if writeShutdown {
        return Refused(ProtocolIsShutdown);
      }
      var tot: nat := wnum;
      wnum := 0;
      if |data| < tot {
        return Refused(BadLength);
      }
      hide WriteFrom, AllFit, Turn, Fits, SslBuffer.SSLBuffer.Contents, SslBuffer.SSLBuffer.Model;
      ghost var fit := buffer.Whole() && AllFit(Model(), buf, data, tot, mode, net);
      ghost var target := WriteFrom(Model(), buf, data, tot, mode, net);
      var later := net;
      var done := false;
      r := Nothing;
      while !done
        invariant Valid() && tot <= |data|
        invariant buffer.buf == null || buffer.buf == old(buffer.buf) || fresh(buffer.buf)
        invariant fit ==> buffer.Whole()
        invariant fit && !done ==>
          AllFit(Model(), buf, data, tot, mode, later) && WriteFrom(Model(), buf, data, tot, mode, later) == target
        invariant fit && done ==> (Model(), r) == target
        decreases !done, |data| - tot
      {
        WriteFromUnfolds(Model(), buf, data, tot, mode, later);
        AllFitUnfolds(Model(), buf, data, tot, mode, later);
        done, r, tot, later := WriteTurn(buf, data, tot, mode, later);
      }
    }
  }

  /** How full the buffer gets: the rest of the flight, and the record if it is sealed. */
  lemma PreparedFits(st: State, typ: ContentType, buf: int, plain: seq<byte>)
    requires st.offset <= |Flight(st)| && st.wpend.None? && st.buffer == [] && 0 < |plain| <= MAX_PLAIN
    ensures var c := Seal(Moved(st), typ, plain, |plain| + st.cipher.overhead);
            var n := if c.None? then |Moved(st).buffer| else |Sealed(Moved(st), typ, buf, plain, c.value).buffer|;
            |plain| + st.cipher.overhead + (|Flight(st)| - st.offset) < SslBuffer.U16 && Fits(st, typ, plain) ==>
              SslBuffer.ALIGN - 1 + n <= SslBuffer.U16
  {
  }

  /** What `do_ssl3_write` is given next. */
  function Piece(data: seq<byte>, tot: nat, mode: Mode): seq<byte>
    requires tot <= |data|
  {
    data[tot..tot + if |data| - tot > mode.maxFrag then mode.maxFrag else |data| - tot]
  }

  lemma FlightAfter(st: State, buf: int, plain: seq<byte>, moving: bool, net: Net)
    requires st.offset <= |Flight(st)|
    ensures var st' := DoWrite(st, ApplicationData, buf, plain, moving, net).0;
            st'.cipher == st.cipher &&
            ((st'.flight.None? && st'.offset == 0) || (st'.flight == st.flight && st'.offset == st.offset))
  {
    hide FlushBuffer;
    if st.wpend.Some? {
      FlushBufferKeeps(st, net);
    } else {
      var c := Seal(Moved(st), ApplicationData, plain, |plain| + st.cipher.overhead);
      if c.Some? { FlushBufferKeeps(Sealed(Moved(st), ApplicationData, buf, plain, c.value), net); }
    }
  }

  /** Hence a write of application data with no flight waiting always fits. */
  lemma {:induction false} NoFlightAllFit(st: State, buf: int, data: seq<byte>, tot: nat, mode: Mode, net: Net)
    requires st.offset == |Flight(st)| && WpendOk(st) && mode.maxFrag > 0 && tot <= |data|
    requires MAX_PLAIN + st.cipher.overhead + SslBuffer.ALIGN <= SslBuffer.U16
    ensures AllFit(st, buf, data, tot, mode, net)
    decreases |data| - tot
  {
    var plain := Piece(data, tot, mode);
    NoFlightFits(st, ApplicationData, plain);
    FlightAfter(st, buf + tot, plain, mode.moving, net);
    DoWriteKeeps(st, ApplicationData, buf + tot, plain, mode.moving, net);
    hide DoWrite, Fits;
    var t := Turn(st, buf, data, tot, mode, net);
    if t.Again? { NoFlightAllFit(t.st, buf, data, t.tot, mode, t.net); }
  }

  lemma WriteFlightUnfolds(st: State, net: Net)
    requires st.flight.Some? && st.offset <= |st.flight.value|
    ensures var left := |st.flight.value| - st.offset;
            var n := Taken(net, left);
            WriteFlight(st, net) ==
            if left == 0 then (st, net, true)
            else if n == 0 then (st, Later(net), false)
            else
              var piece := st.flight.value[st.offset..st.offset + n];
              WriteFlight(st.(transport := st.transport + piece, offset := st.offset + n), Later(net))
  {
  }

  lemma WriteFromUnfolds(st: State, buf: int, data: seq<byte>, tot: nat, mode: Mode, net: Net)
    requires st.offset <= |Flight(st)| && WpendOk(st) && mode.maxFrag > 0 && tot <= |data|
    ensures var t := Turn(st, buf, data, tot, mode, net);
            WriteFrom(st, buf, data, tot, mode, net) ==
            if t.Stop? then (t.st, t.r) else WriteFrom(t.st, buf, data, t.tot, mode, t.net)
  {
    hide Turn;
  }

  lemma AllFitUnfolds(st: State, buf: int, data: seq<byte>, tot: nat, mode: Mode, net: Net)
    requires st.offset <= |Flight(st)| && WpendOk(st) && mode.maxFrag > 0 && tot <= |data|
    ensures var t := Turn(st, buf, data, tot, mode, net);
            AllFit(st, buf, data, tot, mode, net)
            <==> Fits(st, ApplicationData, Piece(data, tot, mode)) && (t.Again? ==> AllFit(t.st, buf, data, t.tot, mode, t.net))
  {
    hide Turn, Fits;
  }

  /** Without a flight that waits, every record fits, given the bound on the cipher's
      expansion that the source asserts; only a flight put in front of a record can
      make it too large. */
  lemma NoFlightFits(st: State, typ: ContentType, plain: seq<byte>)
    requires st.offset == |Flight(st)| && MAX_PLAIN + st.cipher.overhead + SslBuffer.ALIGN <= SslBuffer.U16
    ensures Fits(st, typ, plain)
  {
  }

  lemma FlushIsWhole(m: SslBuffer.Memory, st: State, net: Net)
    requires m.Valid() && m.Whole() && st.buffer == m.Contents()
    ensures var (m', transport, later, ok) := FlushMemory(m, st.transport, net);
            m'.Whole() && (ok ==> m'.Contents() == []) &&
            (st.(transport := transport, buffer := m'.Contents()), later, ok) == FlushBuffer(st, net)
  {
    WholeFlushes(m, st, net);
    FlushBufferKeeps(st, net);
  }

  /** One turn of the loop of `tls_write_buffer_flush`. */
  lemma FlushUnfolds(m: SslBuffer.Memory, transport: seq<byte>, net: Net)
    requires m.Valid()
    ensures FlushMemory(m, transport, net) ==
            if m.size == 0 then (m, transport, net, true)
            else
              var n := Taken(net, m.size);
              if n == 0 then (m, transport, Later(net), false)
              else FlushMemory(m.Consumed(n), transport + m.Contents()[..n], Later(net))
  {
  }
}
