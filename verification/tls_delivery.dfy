// How much of the output reaches the transport: exactly what its answers allow, said
// in sums of the answers, and an error or a blocked write only for the reasons the
// source names.
module TlsDelivery {
  import opened Basics
  import opened TlsOutputModel
  import opened TlsOutput

  // ---- The answers of the transport ----

  /** The sum of the answers before the first refusal. */
  function Offered(net: Net): nat {
    if net == [] || net[0] <= 0 then 0 else net[0] + Offered(net[1..])
  }

  /** The number of answers before the first refusal. */
  function Lead(net: Net): nat {
    if net == [] || net[0] <= 0 then 0 else 1 + Lead(net[1..])
  }

  /** The answers left when the first ones have taken `n` bytes; what the last of
      those offers beyond that is lost. */
  function After(net: Net, n: nat): Net
    requires n <= Offered(net)
    decreases |net|
  {
    if n == 0 then net
    else if net[0] >= n then net[1..]
    else After(net[1..], n - net[0])
  }

  function Min(a: nat, b: nat): (m: nat)
    ensures m <= a && m <= b && (m == a || m == b)
  {
    if a < b then a else b
  }

  lemma {:induction false} LeadAfter(net: Net, n: nat)
    requires n <= Offered(net)
    ensures Lead(net) <= Lead(After(net, n)) + n
    decreases |net|
  {
    if n > 0 && net[0] < n { LeadAfter(net[1..], n - net[0]); }
  }

  lemma {:induction false} LeadOffers(net: Net)
    ensures Lead(net) <= Offered(net)
    decreases |net|
  {
    if net != [] && net[0] > 0 { LeadOffers(net[1..]); }
  }

  // ---- The two loops ----

  lemma CutTwice(t: seq<byte>, s: seq<byte>, k: nat, n: nat)
    requires k + n <= |s|
    ensures t + s[..k] + s[k..][..n] == t + s[..k + n] && s[k..][n..] == s[k + n..]
  {
    assert s[..k] + s[k..][..n] == s[..k + n];
  }

  lemma CutNothing(t: seq<byte>, s: seq<byte>)
    ensures t + s[..0] == t && s[0..] == s
  {
  }

  /** One positive answer to an offer of `len` bytes. */
  lemma OneAnswer(net: Net, len: nat)
    requires len > 0
    ensures Taken(net, len) == 0 <==> Offered(net) == 0
    ensures var k := Taken(net, len);
            k > 0 ==>
              && net != []
              && Min(len, Offered(net)) == k + Min(len - k, Offered(net[1..])) && Later(net) == net[1..]
              && (Offered(net) >= len <==> Offered(net[1..]) >= len - k)
              && (Offered(net) >= len ==> After(net, len) == After(net[1..], len - k))
  {
  }

  lemma {:induction false} BufferTakes(st: State, net: Net)
    ensures var (st', later, ok) := FlushBuffer(st, net);
            var n := Min(|st.buffer|, Offered(net));
            && st' == st.(transport := st.transport + st.buffer[..n], buffer := st.buffer[n..])
            && (ok <==> n == |st.buffer|)
            && (ok ==> later == After(net, |st.buffer|))
    decreases |st.buffer|
  {
    hide *;
    CutNothing(st.transport, st.buffer);
    BufferUnfolds(st, net);
    if st.buffer != [] {
      OneAnswer(net, |st.buffer|);
      var k := Taken(net, |st.buffer|);
      if k > 0 {
        BufferTakes(st.(transport := st.transport + st.buffer[..k], buffer := st.buffer[k..]), net[1..]);
        CutTwice(st.transport, st.buffer, k, Min(|st.buffer| - k, Offered(net[1..])));
      }
    }
  }

  /** One turn of the loop of `tls_write_buffer_flush`. */
  lemma BufferUnfolds(st: State, net: Net)
    ensures FlushBuffer(st, net) ==
            if st.buffer == [] then (st, net, true)
            else
              var n := Taken(net, |st.buffer|);
              if n == 0 then (st, Later(net), false)
              else FlushBuffer(st.(transport := st.transport + st.buffer[..n], buffer := st.buffer[n..]), Later(net))
    ensures st.buffer == [] ==> After(net, 0) == net
  {
  }

  /** The longest front of the rest of the flight that the answers allow was taken. */
  ghost predicate FlightTaken(st: State, net: Net, st': State, ok: bool)
    requires st.flight.Some? && st.offset <= |st.flight.value|
  {
    var rest := st.flight.value[st.offset..];
    var n := Min(|rest|, Offered(net));
    st' == st.(transport := st.transport + rest[..n], offset := st.offset + n) && (ok <==> n == |rest|)
  }

  lemma {:induction false} FlightTakes(st: State, net: Net)
    requires st.flight.Some? && st.offset <= |st.flight.value|
    ensures FlightTaken(st, net, WriteFlight(st, net).0, WriteFlight(st, net).2)
    decreases |st.flight.value| - st.offset
  {
    var rest := st.flight.value[st.offset..];
    var k := Taken(net, |rest|);
    FlightUnfolds(st, net);
    if rest == [] || k == 0 {
      CutNothing(st.transport, rest);
      assert Min(|rest|, Offered(net)) == 0;
      hide WriteFlight;
    } else {
      hide *;
      var st1 := st.(transport := st.transport + rest[..k], offset := st.offset + k);
      FlightTakes(st1, Later(net));
      FlightTakesMore(st, net, k, WriteFlight(st1, Later(net)).0, WriteFlight(st1, Later(net)).2);
    }
  }

  lemma FlightTakesMore(st: State, net: Net, k: nat, st': State, ok: bool)
    requires st.flight.Some? && st.offset < |st.flight.value| && 0 < k == Taken(net, |st.flight.value| - st.offset)
    requires var rest := st.flight.value[st.offset..];
             FlightTaken(st.(transport := st.transport + rest[..k], offset := st.offset + k), Later(net), st', ok)
    ensures FlightTaken(st, net, st', ok)
  {
    var rest := st.flight.value[st.offset..];
    hide Offered, Taken, Min;
    OneAnswer(net, |rest|);
    assert st.flight.value[st.offset + k..] == rest[k..];
    CutTwice(st.transport, rest, k, Min(|rest| - k, Offered(net[1..])));
  }

  /** One turn of the loop of `ssl3_flush_flight`. */
  lemma FlightUnfolds(st: State, net: Net)
    requires st.flight.Some? && st.offset <= |st.flight.value|
    ensures var rest := st.flight.value[st.offset..];
            var n := Taken(net, |rest|);
            WriteFlight(st, net) ==
            if rest == [] then (st, net, true)
            else if n == 0 then (st, Later(net), false)
            else WriteFlight(st.(transport := st.transport + rest[..n], offset := st.offset + n), Later(net))
  {
    var rest := st.flight.value[st.offset..];
    var n := Taken(net, |rest|);
    assert st.flight.value[st.offset..st.offset + n] == rest[..n];
  }

  // ---- Flushing a flight ----

  /** How many bytes the answers allow of a buffer and then of a flight, written in
      separate calls. */
  function Allowed(net: Net, buffered: nat, waiting: nat): nat {
    if Offered(net) < buffered then Offered(net)
    else buffered + Min(waiting, Offered(After(net, buffered)))
  }

  /** A flush hands over exactly the longest front of what is unsent that the answers
      allow, and reports success iff that was all and the transport could be flushed. */
  lemma FlushDelivers(st: State, net: Net, flushed: bool)
    requires st.offset <= |Flight(st)| && st.flight.Some? && !st.shutdown && |Flight(st)| <= 0x7fff_ffff
    ensures var (st', r) := FlushFlight(st, net, flushed);
            var n := Allowed(net, |st.buffer|, |Flight(st)| - st.offset);
            && n <= |Unsent(st)| && st'.offset <= |Flight(st')|
            && st'.transport == st.transport + Unsent(st)[..n]
            && Unsent(st') == Unsent(st)[n..]
            && r == (if n == |Unsent(st)| && flushed then Wrote(1) else Blocked)
            && (r.Wrote? ==> st'.flight.None? && st'.buffer == [])
  {
    hide FlushBuffer, WriteFlight, Offered, After;
    BufferTakes(st, net);
    var (st1, net1, ok1) := FlushBuffer(st, net);
    var rest := Flight(st)[st.offset..];
    if !ok1 {
      FrontOfBoth(st.transport, st.buffer, rest, Offered(net), 0);
    } else {
      FlightTakes(st1, net1);
      var n := Min(|rest|, Offered(net1));
      FrontOfBoth(st.transport, st.buffer, rest, |st.buffer|, n);
      assert Flight(st)[st.offset + n..] == rest[n..];
    }
  }

  lemma FrontOfBoth(t: seq<byte>, a: seq<byte>, b: seq<byte>, m: nat, n: nat)
    requires m <= |a| && n <= |b| && (m == |a| || n == 0)
    ensures t + (a + b)[..m + n] == t + a[..m] + b[..n] && (a + b)[m + n..] == a[m..] + b[n..]
    ensures n == 0 ==> t + a[..m] + b[..n] == t + a[..m] && b[n..] == b
  {
    assert (a + b)[..m + n] == a[..m] + b[..n];
  }

  /** A record that is too long, or too long for the buffer with the flight in front,
      is refused and changes nothing; so is any while the buffer is in use. */
  lemma OtherWritesRefused(st: State, typ: ContentType, buf: int, plain: seq<byte>, moving: bool, net: Net)
    requires st.offset <= |Flight(st)| && st.wpend.None?
    ensures |plain| > 16384 || st.buffer != [] ==> DoWrite(st, typ, buf, plain, moving, net) == (st, net, Refused(Internal))
    ensures plain != [] && |plain| + st.cipher.overhead + RestLen(st) > 0xffff ==>
              DoWrite(st, typ, buf, plain, moving, net) == (st, net, Refused(Internal))
    ensures plain == [] && st.buffer == [] ==> DoWrite(st, typ, buf, plain, moving, net) == (st, net, Nothing)
  {
  }

  /** Without a flight there is nothing to do, and after a shutdown it is refused. */
  lemma FlushElse(st: State, net: Net, flushed: bool)
    requires st.offset <= |Flight(st)|
    ensures st.flight.None? ==> FlushFlight(st, net, flushed) == (st, Wrote(1))
    ensures st.flight.Some? && st.shutdown ==> FlushFlight(st, net, flushed) == (st, Refused(ProtocolIsShutdown))
    ensures st.flight.Some? && !st.shutdown && |Flight(st)| > 0x7fff_ffff ==> FlushFlight(st, net, flushed) == (st, Refused(Internal))
  {
  }

  // ---- Writing one record ----

  /** A cipher that never fails and keeps to its bound. */
  ghost predicate Seals(c: Cipher) {
    forall k, typ, plain :: c.seal(k, typ, plain).Some? && |c.seal(k, typ, plain).value| <= |plain| + c.overhead
  }

  function RestLen(st: State): nat
    requires st.offset <= |Flight(st)|
  {
    |Flight(st)| - st.offset
  }

  /** Nothing is pending, or it is the record at the start of this data. */
  predicate Expects(st: State, typ: ContentType, buf: int, len: nat, moving: bool) {
    if st.wpend.None? then st.buffer == []
    else
      var w := st.wpend.value;
      0 < w.ret == w.tot <= len && w.typ == typ && (moving || w.buf == buf)
  }

  /** What is about to be flushed: the pending record, or the rest of the flight and
      the new one. */
  function Outgoing(st: State, typ: ContentType, plain: seq<byte>): seq<byte>
    requires st.offset <= |Flight(st)|
  {
    if st.wpend.Some? then st.buffer
    else
      var c := Seal(st, typ, plain, |plain| + st.cipher.overhead);
      Flight(st)[st.offset..] + if c.Some? then c.value else []
  }

  ghost predicate Prepared(st: State, typ: ContentType, buf: int, plain: seq<byte>, moving: bool) {
    && st.offset <= |Flight(st)| && Seals(st.cipher)
    && 0 < |plain| <= 16384 && |plain| + st.cipher.overhead + RestLen(st) <= 0xffff
    && Expects(st, typ, buf, |plain|, moving)
  }

  /** An attempt hands over the longest front of what is going out that the answers
      allow, and reports the record iff that was all of it. */
  lemma WriteDelivers(st: State, typ: ContentType, buf: int, plain: seq<byte>, moving: bool, net: Net)
    requires Prepared(st, typ, buf, plain, moving)
    ensures var (st', later, r) := DoWrite(st, typ, buf, plain, moving, net);
            var out := Outgoing(st, typ, plain);
            var n := Min(|out|, Offered(net));
            && st'.transport == st.transport + out[..n] && st'.buffer == out[n..]
            && r == (if n == |out| then Wrote(if st.wpend.Some? then st.wpend.value.ret else |plain|) else Blocked)
            && (r.Wrote? ==> st'.wpend.None? && later == After(net, |out|))
            && st'.cipher == st.cipher && st'.wnum == st.wnum && st'.shutdown == st.shutdown
            && st'.offset <= |Flight(st')| && RestLen(st') <= RestLen(st)
  {
    if st.wpend.Some? {
      BufferTakes(st, net);
    } else {
      var c := Seal(Moved(st), typ, plain, |plain| + st.cipher.overhead);
      assert c == Seal(st, typ, plain, |plain| + st.cipher.overhead) && c.Some?;
      BufferTakes(Sealed(Moved(st), typ, buf, plain, c.value), net);
    }
    hide FlushBuffer, Seal;
  }

  // ---- Writing application data ----

  /** The state in which a write of application data, or a retry of it, has `tot`
      bytes done. */
  ghost predicate Midwrite(st: State, buf: int, data: seq<byte>, tot: nat, mode: Mode) {
    && st.offset <= |Flight(st)| && WpendOk(st) && Seals(st.cipher)
    && 0 < mode.maxFrag <= 16384 && mode.maxFrag + st.cipher.overhead + RestLen(st) <= 0xffff
    && tot < |data| && Expects(st, ApplicationData, buf + tot, Min(mode.maxFrag, |data| - tot), mode.moving)
  }

  /** The bytes that one turn of the loop reports. */
  function Reported(st: State, data: seq<byte>, tot: nat, mode: Mode): nat
    requires tot <= |data|
  {
    if st.wpend.Some? then st.wpend.value.ret else Min(mode.maxFrag, |data| - tot)
  }

  lemma TurnDelivers(st: State, buf: int, data: seq<byte>, tot: nat, mode: Mode, net: Net)
    requires Midwrite(st, buf, data, tot, mode)
    ensures var t := Turn(st, buf, data, tot, mode, net);
            var tot' := tot + Reported(st, data, tot, mode);
            && tot < tot' <= |data| && |t.st.transport| >= |st.transport|
            && (t.Stop? ==>
                  if t.r.Wrote? then t.r.n == tot' && (mode.partialWrites || tot' == |data|)
                  else t.r == Blocked && Lead(net) <= |t.st.transport| - |st.transport|)
            && (t.Again? ==>
                  && t.tot == tot' && !mode.partialWrites && Midwrite(t.st, buf, data, tot', mode)
                  && Lead(net) <= Lead(t.net) + |t.st.transport| - |st.transport|)
  {
    var (st', later, r) := DoWrite(st, ApplicationData, buf + tot, Chunk(data, tot, mode), mode.moving, net);
    ChunkDelivers(st, buf, data, tot, mode, net);
    AfterWriteKeeps(st', buf, data, tot, tot, mode);
    hide DoWrite, Lead, Midwrite, Seals;
  }

  /** What one turn of the loop tries to write. */
  function Chunk(data: seq<byte>, tot: nat, mode: Mode): seq<byte>
    requires tot <= |data|
  {
    data[tot..tot + Min(mode.maxFrag, |data| - tot)]
  }

  lemma AfterWriteKeeps(st: State, buf: int, data: seq<byte>, tot: nat, tot': nat, mode: Mode)
    ensures Midwrite(st, buf, data, tot', mode) ==> Midwrite(st.(wnum := tot), buf, data, tot', mode)
  {
    hide Seals;
  }

  lemma ChunkDelivers(st: State, buf: int, data: seq<byte>, tot: nat, mode: Mode, net: Net)
    requires Midwrite(st, buf, data, tot, mode)
    ensures var (st', later, r) := DoWrite(st, ApplicationData, buf + tot, Chunk(data, tot, mode), mode.moving, net);
            var tot' := tot + Reported(st, data, tot, mode);
            && tot < tot' <= |data| && |st'.transport| >= |st.transport|
            && (if r.Wrote? then
                  && r.n == tot' - tot && Lead(net) <= Lead(later) + |st'.transport| - |st.transport|
                  && (tot' < |data| ==> Midwrite(st', buf, data, tot', mode))
                else r == Blocked && Lead(net) <= |st'.transport| - |st.transport|)
  {
    var plain := Chunk(data, tot, mode);
    WriteDelivers(st, ApplicationData, buf + tot, plain, mode.moving, net);
    DoWriteKeeps(st, ApplicationData, buf + tot, plain, mode.moving, net);
    var out := Outgoing(st, ApplicationData, plain);
    if |out| <= Offered(net) { LeadAfter(net, |out|); }
    LeadOffers(net);
    hide DoWrite, Offered, After, Lead, Outgoing, Seals, Flight;
  }

  lemma {:induction false} WriteFromFinishes(st: State, buf: int, data: seq<byte>, tot: nat, mode: Mode, net: Net)
    requires Midwrite(st, buf, data, tot, mode)
    ensures var (st', r) := WriteFrom(st, buf, data, tot, mode, net);
            && |st'.transport| >= |st.transport|
            && if r.Wrote? then r.n == if mode.partialWrites then tot + Reported(st, data, tot, mode) else |data|
               else r == Blocked && Lead(net) <= |st'.transport| - |st.transport|
    decreases |data| - tot
  {
    TurnDelivers(st, buf, data, tot, mode, net);
    var t := Turn(st, buf, data, tot, mode, net);
    hide Turn, Seals, Expects, Lead;
    if t.Again? { WriteFromFinishes(t.st, buf, data, t.tot, mode, t.net); }
  }

  /** A write, or the retry of one, finishes unless the transport refuses: it reports
      the whole buffer - with partial writes the first record - or it is blocked, and
      then every answer before the refusal took at least a byte. So a transport that
      takes something often enough lets every write finish. */
  lemma AppWriteFinishes(st: State, buf: int, data: seq<byte>, mode: Mode, net: Net)
    requires Midwrite(st, buf, data, st.wnum, mode) && !st.shutdown
    ensures var (st', r) := WriteAppData(st, buf, data, mode, net);
            if r.Wrote? then r.n == if mode.partialWrites then st.wnum + Reported(st, data, st.wnum, mode) else |data|
            else r == Blocked && Lead(net) <= |st'.transport| - |st.transport|
  {
    var st1 := st.(wnum := 0);
    assert Midwrite(st1, buf, data, st.wnum, mode) by { hide Seals; }
    WriteFromFinishes(st1, buf, data, st.wnum, mode, net);
    hide WriteFrom, Seals, Lead;
  }

  /** After a shutdown nothing is written. */
  lemma NothingAfterShutdown(st: State, buf: int, data: seq<byte>, mode: Mode, net: Net)
    requires st.offset <= |Flight(st)| && WpendOk(st) && mode.maxFrag > 0 && st.shutdown
    ensures WriteAppData(st, buf, data, mode, net) == (st, Refused(ProtocolIsShutdown))
  {
  }

  /** Handshake messages always join the flight, with a cipher that does not fail. */
  lemma {:induction false} MessagesJoin(st: State, msg: seq<byte>, maxFrag: nat)
    requires st.offset == 0 && maxFrag > 0 && Seals(st.cipher)
    ensures var (st', ok) := AddMessage(st, msg, maxFrag);
            ok && st'.flight.Some? && Flight(st) <= Flight(st') && st'.buffer == st.buffer && st'.transport == st.transport
    decreases |msg|
  {
    var n := if |msg| < maxFrag then |msg| else maxFrag;
    var (st1, ok) := AddRecord(st, Handshake, msg[..n]);
    if msg[n..] != [] { MessagesJoin(st1, msg[n..], maxFrag); }
  }
}
