// nanopb's encoder over an output stream that either writes a buffer or only
// counts: the sizing pass and the writing pass agree at every depth.
module PbOutput {
  import opened Basics
  import opened PbWire
  import opened PbEncodeModel

  datatype StreamError = StreamFull | SizeChanged | InField(error: EncError)

  datatype Status = Done | Error(e: StreamError)

  // ---- What an encoding step does to a stream, as a relation on values ----

  /** `sizing` is the null callback of PB_OSTREAM_SIZING. */
  datatype StreamState = StreamState(sizing: bool, image: seq<byte>, pos: nat, max: nat, written: nat) {
    predicate Valid() {
      !sizing ==> written <= max && pos + (max - written) <= |image|
    }

    predicate Room(n: nat) {
      sizing || written + n <= max
    }

    /** The first position past what this stream may write. */
    function End(): int {
      pos + max - written
    }

    function Advance(b: seq<byte>): StreamState
      requires Valid() && Room(|b|)
    {
      if sizing then this.(written := written + |b|)
      else this.(image := Put(image, pos, b), pos := pos + |b|, written := written + |b|)
    }
  }

  /** `image` with `b` written at `at`. */
  function Put(image: seq<byte>, at: nat, b: seq<byte>): (r: seq<byte>)
    requires at + |b| <= |image|
    ensures |r| == |image|
  {
    image[..at] + b + image[at + |b|..]
  }

  lemma PutPut(image: seq<byte>, at: nat, a: seq<byte>, b: seq<byte>)
    requires at + |a| + |b| <= |image|
    ensures Put(Put(image, at, a), at + |a|, b) == Put(image, at, a + b)
  {
    var one := Put(image, at, a);
    assert one[..at + |a|] == image[..at] + a;
    assert one[at + |a| + |b|..] == image[at + |a| + |b|..];
  }

  /** Same stream, and nothing outside its own region of the buffer changed. */
  predicate Within(s: StreamState, s': StreamState) {
    && s'.Valid() && s'.sizing == s.sizing && s'.max == s.max
    && |s'.image| == |s.image|
    && (!s.sizing ==>
          && s'.End() == s.End() && s.pos <= s'.pos
          && s'.image[..s.pos] == s.image[..s.pos] && s'.image[s.End()..] == s.image[s.End()..])
  }

  /** From `s`, an attempt to output `e` ended with status `r` in `s'`: it succeeds
      exactly when `e` is bytes that fit, and then it has written just those. */
  predicate Outputs(s: StreamState, s': StreamState, e: Result<seq<byte>>, r: Status)
    requires s.Valid()
  {
    && Within(s, s')
    && (r.Done? <==> e.Ok? && s.Room(|e.value|))
    && (r.Done? ==> s' == s.Advance(e.value))
    && (r.Error? ==> r.e == StreamFull || (e.Err? && r.e == InField(e.error)))
    && (r.Error? && s.sizing ==> e.Err? && r.e == InField(e.error))
  }

  lemma WithinTwice(s: StreamState, s1: StreamState, s2: StreamState)
    requires s.Valid() && Within(s, s1) && Within(s1, s2)
    ensures Within(s, s2)
  {
    if !s.sizing {
      assert s2.image[..s.pos] == s2.image[..s1.pos][..s.pos];
      assert s1.image[..s.pos] == s1.image[..s1.pos][..s.pos];
    }
  }

  lemma AdvanceTwice(s: StreamState, a: seq<byte>, b: seq<byte>)
    requires s.Valid() && s.Room(|a + b|)
    ensures s.Room(|a|) && s.Advance(a).Valid() && s.Advance(a).Room(|b|)
    ensures s.Advance(a).Advance(b) == s.Advance(a + b)
  {
    if !s.sizing { PutPut(s.image, s.pos, a, b); }
  }

  /** Two steps in a row output the two results in a row. */
  lemma OutputsThen(s: StreamState, s1: StreamState, s2: StreamState, a: Result<seq<byte>>, b: Result<seq<byte>>, r: Status)
    requires s.Valid() && Outputs(s, s1, a, Done) && Outputs(s1, s2, b, r)
    ensures Outputs(s, s2, Then(a, b), r)
  {
    WithinTwice(s, s1, s2);
    if b.Ok? && s.Room(|a.value| + |b.value|) { AdvanceTwice(s, a.value, b.value); }
    hide Within, Put;
  }

  /** A step that failed fails whatever was to follow. */
  lemma OutputsFailed(s: StreamState, s1: StreamState, a: Result<seq<byte>>, b: Result<seq<byte>>, r: Status)
    requires s.Valid() && Outputs(s, s1, a, r) && r.Error?
    ensures Outputs(s, s1, Then(a, b), r)
  {
  }

  lemma OutputsNothing(s: StreamState)
    requires s.Valid()
    ensures Outputs(s, s, Ok([]), Done)
  {
    if !s.sizing { assert Put(s.image, s.pos, []) == s.image; }
  }

  // ---- Streams ----

  class OStream {
    const buf: array?<byte>    // null when only sizing
    const maxSize: nat
    var pos: nat               // `state`, as an index into the buffer
    var bytesWritten: nat

    ghost function State(): StreamState
      reads this, buf
    {
      StreamState(buf == null, if buf == null then [] else buf[..], pos, maxSize, bytesWritten)
    }

    ghost predicate Valid()
      reads this, buf
    {
      State().Valid()
    }

    constructor (buf: array?<byte>, pos: nat, maxSize: nat)
      requires buf != null ==> pos + maxSize <= buf.Length
      ensures this.buf == buf && Valid()
      ensures State() == StreamState(buf == null, if buf == null then [] else buf[..], pos, maxSize, 0)
    {
      this.buf, this.pos, this.maxSize, this.bytesWritten := buf, pos, maxSize, 0;
    }

    /** `pb_write`, and the loop of `buf_write`. */
    method Write(b: seq<byte>) returns (r: Status)
      requires Valid()
      modifies this`pos, this`bytesWritten, buf
      ensures Outputs(old(State()), State(), Ok(b), r)
    {
      if buf != null {
        if bytesWritten + |b| > maxSize {
          return Error(StreamFull);
        }
        for i := 0 to |b|
          invariant pos == old(pos) && bytesWritten == old(bytesWritten)
          invariant forall k :: 0 <= k < buf.Length ==>
                      buf[k] == if pos <= k < pos + i then b[k - pos] else old(buf[k])
        {
          buf[pos + i] := b[i];
        }
        assert buf[..] == Put(old(buf[..]), pos, b);
        pos := pos + |b|;
      }
      bytesWritten := bytesWritten + |b|;
      r := Done;
    }

    /** `pb_write(stream, NULL, n)` on a sizing stream. */
    method Count(n: nat)
      requires Valid() && buf == null
      modifies this`bytesWritten
      ensures State() == old(State()).(written := old(bytesWritten) + n)
    {
      bytesWritten := bytesWritten + n;
    }

    /** The loop of `pb_encode_varint`: ten bytes are enough for the longest. */
    static method VarintGroups(value: nat) returns (buffer: array<byte>, i: nat)
      requires 0x7F < value < U64
      ensures fresh(buffer) && i <= buffer.Length && buffer[..i] == VarintBytes(value)
    {
      buffer := new byte[10];
      i := 0;
      var v: nat := value;
      TenGroupsSuffice(value);
      while v != 0
        invariant i <= 10
        invariant v > 0 ==> i + |VarintBytes(v)| <= 10 && VarintBytes(value) == buffer[..i] + VarintBytes(v)
        invariant v == 0 ==> i > 0 && buffer[i - 1] >= 128
                             && VarintBytes(value) == buffer[..i - 1] + [buffer[i - 1] - 128]
        decreases v
      {
        ghost var before := buffer[..i];
        buffer[i] := v % 128 + 128;
        assert buffer[..i] == before && buffer[..i + 1] == before + [buffer[i]];
        v := v / 128;
        i := i + 1;
      }
      ghost var before := buffer[..i - 1];
      buffer[i - 1] := buffer[i - 1] - 128;
      assert buffer[..i] == before + [buffer[i - 1]];
    }

    /** `pb_encode_varint`. */
    method EncodeVarint(value: nat) returns (r: Status)
      requires Valid() && value < U64
      modifies this`pos, this`bytesWritten, buf
      ensures Valid() && Outputs(old(State()), State(), Ok(VarintBytes(value)), r)
    {
      if value <= 0x7F {
        r := Write([value]);
        return;
      }
      var buffer, i := VarintGroups(value);
      r := Write(buffer[..i]);
    }

    /** `pb_encode_string`. */
    method EncodeString(s: seq<byte>) returns (r: Status)
      requires Valid()
      modifies this`pos, this`bytesWritten, buf
      ensures Outputs(old(State()), State(), Ok(CountedBytes(s)), r)
    {
      ghost var s0 := State();
      r := EncodeVarint(ToU64(|s|));
      if r.Error? {
        return;
      }
      ghost var s1 := State();
      r := Write(s);
      OutputsThen(s0, s1, State(), Ok(VarintBytes(ToU64(|s|))), Ok(s), r);
    }
  }
}
