// Flushing an SSLBuffer whose offset has 16 bits: exactly when the bytes of a record
// reach the transport unharmed.
module TlsFlush {
  import opened Basics
  import opened SslBuffer
  import opened TlsOutputModel

  /** `tls_write_buffer_flush` on the memory of the buffer: the memory afterwards,
      what the transport then has, its later answers, and whether all was taken. */
  function FlushMemory(m: Memory, transport: seq<byte>, net: Net): (r: (Memory, seq<byte>, Net, bool))
    requires m.Valid()
    ensures r.0.Valid()
    decreases m.size
  {
    if m.size == 0 then (m, transport, net, true)
    else
      var n := Taken(net, m.size);
      if n == 0 then (m, transport, Later(net), false)
      else FlushMemory(m.Consumed(n), transport + m.Contents()[..n], Later(net))
  }

  /** While the window ends within 16 bits, the buffer is the sequence of its bytes. */
  lemma {:induction false} WholeFlushes(m: Memory, st: State, net: Net)
    requires m.Valid() && m.Whole() && st.buffer == m.Contents()
    ensures var (m', transport, later, ok) := FlushMemory(m, st.transport, net);
            var (st', later', ok') := FlushBuffer(st, net);
            && transport == st'.transport && later == later' && ok == ok'
            && m'.Contents() == st'.buffer && m'.Whole()
    decreases m.size
  {
    if m.size > 0 && Taken(net, m.size) > 0 {
      var n := Taken(net, m.size);
      assert m.Consumed(n).Contents() == st.buffer[n..];
      WholeFlushes(m.Consumed(n), st.(transport := st.transport + st.buffer[..n], buffer := st.buffer[n..]), Later(net));
    }
  }

  /** What the transport has and what the buffer still holds are together what they
      were. */
  ghost predicate Conserves(m: Memory, transport: seq<byte>, net: Net)
    requires m.Valid()
  {
    var (m', transport', _, _) := FlushMemory(m, transport, net);
    transport' + m'.Contents() == transport + m.Contents()
  }

  lemma {:induction false} WholeConserves(m: Memory, transport: seq<byte>, net: Net)
    requires m.Valid() && m.Whole()
    ensures Conserves(m, transport, net)
    decreases m.size
  {
    if m.size > 0 && Taken(net, m.size) > 0 {
      var n := Taken(net, m.size);
      var rest := m.Contents()[n..];
      assert m.Consumed(n).Contents() == rest;
      WholeConserves(m.Consumed(n), transport + m.Contents()[..n], Later(net));
      assert transport + m.Contents()[..n] + rest == transport + m.Contents();
    }
  }

  /** The transport takes all but the last byte, and then one byte. */
  lemma LastByte(m: Memory, transport: seq<byte>)
    requires m.Valid() && m.size >= 2
    ensures var last := (m.offset + m.size - 1) % U16;
            FlushMemory(m, transport, [m.size - 1, 1]).0.size == 0
            && FlushMemory(m, transport, [m.size - 1, 1]).1 == transport + m.Contents()[..m.size - 1] + [m.bytes[last]]
  {
    var m1 := m.Consumed(m.size - 1);
    var t1 := transport + m.Contents()[..m.size - 1];
    assert Later([m.size - 1, 1]) == [1];
    assert m1.Contents()[..1] == [m.bytes[m1.offset]];
    assert FlushMemory(m1.Consumed(1), t1 + m1.Contents()[..1], Later([1])).1 == t1 + m1.Contents()[..1];
  }

  lemma CutConserves(m: Memory, transport: seq<byte>)
    requires m.Valid() && m.size >= 2 && Conserves(m, transport, [m.size - 1, 1])
    ensures m.bytes[(m.offset + m.size - 1) % U16] == m.bytes[m.offset + m.size - 1]
  {
    LastByte(m, transport);
    var sent := FlushMemory(m, transport, [m.size - 1, 1]).1;
    var all := transport + m.Contents();
    assert sent + [] == sent;
    assert sent[|all| - 1] == all[|all| - 1];
  }

  // ---- A record behind the rest of a flight ----

  /** The memory after `do_ssl3_write` has put the rest of the flight and the sealed
      record into it: `slack` bytes that nobody wrote, then the contents. */
  function Laid(slack: seq<byte>, rest: seq<byte>, sealed: seq<byte>): (m: Memory)
    requires |slack| < ALIGN && |rest| + |sealed| < U16
    ensures m.Valid() && m.Contents() == rest + sealed
  {
    Memory(slack + (rest + sealed), |slack|, |rest| + |sealed|)
  }

  /** The exact condition. A record of `length` sealed bytes behind the rest of a
      flight reaches the transport unharmed - whatever is in it, whatever the slack
      holds, and however the transport takes it - iff slack, rest and record together
      are at most 2^16 bytes. */
  lemma RecordConservedExactly(slackLen: nat, rest: seq<byte>, length: nat, transport: seq<byte>)
    requires slackLen < ALIGN && length > 0 && |rest| + length < U16
    ensures (forall slack: seq<byte>, sealed: seq<byte>, net |
               |slack| == slackLen && |sealed| == length :: Conserves(Laid(slack, rest, sealed), transport, net))
            <==> slackLen + |rest| + length <= U16
  {
    if slackLen + |rest| + length <= U16 {
      forall slack: seq<byte>, sealed: seq<byte>, net | |slack| == slackLen && |sealed| == length
        ensures Conserves(Laid(slack, rest, sealed), transport, net)
      {
        WholeConserves(Laid(slack, rest, sealed), transport, net);
      }
    } else {
      var slack: seq<byte>, sealed: seq<byte> := seq(slackLen, _ => 0), seq(length, _ => 1);
      var m := Laid(slack, rest, sealed);
      var last := m.offset + m.size - 1;
      assert last % U16 == last - U16 < slackLen;
      assert m.bytes[last] == 1 && m.bytes[last % U16] == 0;
      if Conserves(m, transport, [m.size - 1, 1]) {
        CutConserves(m, transport);
      }
    }
  }

  /** At an input: seven bytes of slack and 0xffff bytes of contents, of which the
      transport takes 0xfffe and then one. The byte it is given last is byte 5 of the
      slack. */
  lemma SlackIsSent(slack: seq<byte>, contents: seq<byte>)
    requires |slack| == 7 && |contents| == 0xffff
    ensures FlushMemory(Laid(slack, [], contents), [], [0xfffe, 1]).1 == contents[..0xfffe] + [slack[5]]
    ensures Conserves(Laid(slack, [], contents), [], [0xfffe, 1]) <==> slack[5] == contents[0xfffe]
  {
    var m := Laid(slack, [], contents);
    assert [] + contents == contents;
    LastByte(m, []);
    assert m.Contents() == contents && (7 + 0xffff - 1) % U16 == 5;
    var sent := FlushMemory(m, [], [0xfffe, 1]).1;
    assert sent == contents[..0xfffe] + [slack[5]];
    assert [] + m.Contents() == contents == contents[..0xfffe] + [contents[0xfffe]];
    assert sent + FlushMemory(m, [], [0xfffe, 1]).0.Contents() == sent;
    if slack[5] != contents[0xfffe] { assert sent[0xfffe] != contents[0xfffe]; }
  }
}
