// nanopb's input stream over a buffer, with its varint loops and substreams.
module PbInput {
  import opened Basics
  import opened PbWire
  import opened PbEncodeModel
  import opened PbDecodeModel

  // ---- Varints read with a shifting accumulator ----

  /** `r` with `low` below its groups: what remains to be read, put above what has
      been. */
  function Above(low: nat, scale: nat, r: Read<nat>): Read<nat> {
    if r.Got? then Got(low + scale * r.value, r.rest) else r
  }

  lemma GroupAbove(low: nat, scale: nat, r: seq<byte>, limit: nat)
    requires limit > 0 && r != []
    ensures var x := r[0] % 128;
            Above(low, scale, Groups(r, limit)) ==
            if r[0] < 128 then Got(low + scale * x, r[1..])
            else Above(low + scale * x, 128 * scale, Groups(r[1..], limit - 1))
  {
    if r[0] >= 128 && Groups(r[1..], limit - 1).Got? {
      var n := Groups(r[1..], limit - 1).value;
      var low7: int := r[0] - 128;
      assert scale * (low7 + 128 * n) == scale * low7 + (128 * scale) * n;
    }
  }

  /** `x << 7 * k` in a word of the given size. */
  function Shifted(x: nat, k: nat, word: nat): nat
    requires word > 0
  {
    Pow128(k) * x % word
  }

  /** A group shifted into place has no bit in common with the `k` groups already
      there, so `|` adds; what a 32- or 64-bit word has no room for is dropped. */
  lemma AddGroup(low: nat, x: nat, k: nat, word: nat)
    requires (word == U32 && k <= 4) || (word == U64 && k <= 9)
    requires low < Pow128(k) && x < 128
    ensures low + Shifted(x, k, word) == (low + Pow128(k) * x) % word
    ensures low + Pow128(k) * x < Pow128(k + 1)
  {
    SmallPowers();
    PowersOf128();
    hide Pow128;
    if word == U64 && k == 9 {
      assert x % 2 == 0 || x % 2 == 1;
    }
  }

  /** After `k` groups: the word holds their sum, and `all`, the outcome of reading
      up to `limit` groups, is what remains put above it. */
  ghost predicate Partial(all: Read<nat>, exact: nat, n: nat, k: nat, limit: nat, rest: seq<byte>, word: nat) {
    && k <= limit && word > 0 && exact < Pow128(k) && n == exact % word
    && all == Above(exact, Pow128(k), Groups(rest, limit - k))
  }

  lemma PartialStart(rest: seq<byte>, limit: nat, word: nat)
    requires word > 0
    ensures Partial(Groups(rest, limit), 0, 0, 0, limit, rest, word)
  {
  }

  lemma PartialEnds(all: Read<nat>, exact: nat, n: nat, k: nat, limit: nat, rest: seq<byte>, word: nat)
    requires Partial(all, exact, n, k, limit, rest, word)
    ensures k == limit || rest == [] ==> all == Bad(rest)
  {
  }

  lemma PartialStep(all: Read<nat>, exact: nat, n: nat, k: nat, limit: nat, rest: seq<byte>, word: nat) returns (exact': nat)
    requires Partial(all, exact, n, k, limit, rest, word) && rest != [] && k < limit
    requires (word == U32 && limit == 5) || (word == U64 && limit == 10)
    ensures var n' := n + Shifted(rest[0] % 128, k, word);
            if rest[0] < 128 then all == Got(exact', rest[1..]) && n' == exact' % word
            else Partial(all, exact', n', k + 1, limit, rest[1..], word)
  {
    hide Groups, Above, Shifted, Pow128;
    var x := rest[0] % 128;
    exact' := exact + Pow128(k) * x;
    FewGroupsFit(exact, k, word);
    GroupAbove(exact, Pow128(k), rest, limit - k);
    AddGroup(exact, x, k, word);
    NextPower(k);
  }

  lemma NextPower(k: nat)
    ensures Pow128(k + 1) == 128 * Pow128(k)
  {
  }

  lemma FewGroupsFit(exact: nat, k: nat, word: nat)
    requires (word == U32 && k <= 4) || (word == U64 && k <= 9)
    requires exact < Pow128(k)
    ensures exact % word == exact
  {
    SmallPowers();
    PowersOf128();
  }

  lemma SmallPowers()
    ensures Pow128(0) == 1 && Pow128(1) == 0x80 && Pow128(2) == 0x4000 && Pow128(3) == 0x20_0000
    ensures Pow128(4) == 0x1000_0000 && Pow128(5) == 0x8_0000_0000 && Pow128(6) == 0x400_0000_0000
    ensures Pow128(7) == 0x2_0000_0000_0000 && Pow128(8) == 0x100_0000_0000_0000
  {
  }

  class IStream {
    const buf: seq<byte>
    var pos: nat          // `state`, as an index into the buffer
    var bytesLeft: nat

    ghost predicate Valid()
      reads this
    {
      pos + bytesLeft <= |buf|
    }

    ghost function End(): nat
      reads this
    {
      pos + bytesLeft
    }

    /** The bytes still to be read. */
    ghost function Remaining(): (r: seq<byte>)
      requires Valid()
      reads this
      ensures |r| == bytesLeft
    {
      buf[pos..pos + bytesLeft]
    }

    constructor (buf: seq<byte>)
      ensures Valid() && Remaining() == buf && this.buf == buf
    {
      this.buf, pos, bytesLeft := buf, 0, |buf|;
    }

    constructor Sub(parent: IStream, size: nat)
      requires parent.Valid() && size <= parent.bytesLeft
      ensures Valid() && buf == parent.buf && pos == parent.pos && bytesLeft == size
      ensures Remaining() == parent.Remaining()[..size]
    {
      this.buf, pos, bytesLeft := parent.buf, parent.pos, size;
    }

    /** `pb_readbyte`. */
    method ReadByte() returns (ok: bool, b: byte)
      requires Valid()
      modifies this
      ensures Valid() && End() == old(End())
      ensures ok <==> old(Remaining()) != []
      ensures if ok then b == old(Remaining())[0] && Remaining() == old(Remaining())[1..] else Remaining() == old(Remaining())
    {
      if bytesLeft == 0 {
        return false, 0;
      }
      ok, b := true, buf[pos];
      pos, bytesLeft := pos + 1, bytesLeft - 1;
    }

    /** `pb_read` with the copy loop of `buf_read`. */
    method Read(count: nat) returns (ok: bool, bytes: seq<byte>)
      requires Valid()
      modifies this
      ensures Valid() && End() == old(End())
      ensures match Take(old(Remaining()), count)
              case Got(s, rest) => ok && bytes == s && Remaining() == rest
              case Bad(_) => !ok && Remaining() == old(Remaining())
    {
      bytes := [];
      if bytesLeft < count {
        return false, [];
      }
      for i := 0 to count
        invariant bytes == buf[pos..pos + i]
      {
        bytes := bytes + [buf[pos + i]];
      }
      pos, bytesLeft := pos + count, bytesLeft - count;
      ok := true;
      assert Remaining() == old(Remaining())[count..];
    }

    /** `pb_decode_varint32`. */
    method DecodeVarint32() returns (ok: bool, n: nat)
      requires Valid()
      modifies this
      ensures Valid() && End() == old(End())
      ensures match Varint32(old(Remaining()))
              case Got(v, rest) => ok && n == v && Remaining() == rest
              case Bad(rest) => !ok && Remaining() == rest
    {
      hide Groups, Above, Pow128, Shifted, Partial;
      var k: nat, more := 0, true;   // bitpos is 7 * k
      n := 0;
      ghost var all, exact: nat := Groups(Remaining(), 5), 0;
      PartialStart(Remaining(), 5, U32);
      while more
        invariant Valid() && End() == old(End())
        invariant k <= 5
        invariant more ==> Partial(all, exact, n, k, 5, Remaining(), U32)
        invariant !more ==> all == Got(exact, Remaining()) && n == exact % U32
        decreases more, 5 - k
      {
        PartialEnds(all, exact, n, k, 5, Remaining(), U32);
        if k == 5 {
          return false, 0;
        }
        ghost var before := Remaining();
        var got, b := ReadByte();
        if !got {
          return false, 0;
        }
        exact := PartialStep(all, exact, n, k, 5, before, U32);
        n := n + Shifted(b % 128, k, U32);
        k := k + 1;
        more := b >= 128;
      }
      ok := true;
    }

    /** `pb_decode_varint`. */
    method DecodeVarint() returns (ok: bool, n: nat)
      requires Valid()
      modifies this
      ensures Valid() && End() == old(End())
      ensures match Varint64(old(Remaining()))
              case Got(v, rest) => ok && n == v && Remaining() == rest
              case Bad(rest) => !ok && Remaining() == rest
    {
      hide Groups, Above, Pow128, Shifted, Partial;
      var k: nat, more := 0, true;   // bitpos is 7 * k
      n := 0;
      ghost var all, exact: nat := Groups(Remaining(), 10), 0;
      PartialStart(Remaining(), 10, U64);
      while more
        invariant Valid() && End() == old(End())
        invariant k <= 10
        invariant more ==> Partial(all, exact, n, k, 10, Remaining(), U64)
        invariant !more ==> all == Got(exact, Remaining()) && n == exact % U64
        decreases more, 10 - k
      {
        PartialEnds(all, exact, n, k, 10, Remaining(), U64);
        if k == 10 {
          return false, 0;
        }
        ghost var before := Remaining();
        var got, b := ReadByte();
        if !got {
          return false, 0;
        }
        exact := PartialStep(all, exact, n, k, 10, before, U64);
        n := n + Shifted(b % 128, k, U64);
        k := k + 1;
        more := b >= 128;
      }
      ok := true;
    }

    /** `pb_skip_varint`. */
    method SkipVarint() returns (ok: bool)
      requires Valid()
      modifies this
      ensures Valid() && End() == old(End())
      ensures Skipped(old(Remaining()), Remaining(), PbWire.SkipVarint(old(Remaining())), ok)
    {
      var more := true;
      while more
        invariant Valid() && End() == old(End())
        invariant more ==> PbWire.SkipVarint(old(Remaining())) == PbWire.SkipVarint(Remaining())
        invariant !more ==> PbWire.SkipVarint(old(Remaining())) == Some(Remaining())
        decreases more, bytesLeft
      {
        var got, b := ReadByte();
        if !got {
          return false;
        }
        more := b >= 128;
      }
      ok := true;
    }

    /** `pb_skip_string`. */
    method SkipString() returns (ok: bool)
      requires Valid()
      modifies this
      ensures Valid() && End() == old(End())
      ensures Skipped(old(Remaining()), Remaining(), Rest(Counted(old(Remaining()))), ok)
    {
      hide Groups;
      var len: nat;
      ok, len := DecodeVarint32();
      if !ok {
        return;
      }
      var skipped, _ := Read(len);
      ok := skipped;
    }

    /** `pb_decode_tag`. */
    method DecodeTag() returns (ok: bool, wireType: nat, tag: nat, eof: bool)
      requires Valid()
      modifies this
      ensures Valid() && End() == old(End())
      ensures match ReadTag(old(Remaining()))
              case Tag(number, wt, rest) => ok && tag == number && wireType == wt && Remaining() == rest
              case EndOfMessage => !ok && eof
              case BadTag => !ok && !eof
    {
      hide Groups;
      eof, wireType, tag := false, 0, 0;
      var temp: nat;
      ok, temp := DecodeVarint32();
      if !ok {
        if bytesLeft == 0 {
          eof := true;
        }
        return;
      }
      if temp == 0 {
        eof := true;
        return false, wireType, tag, eof;
      }
      tag := temp / 8;
      wireType := temp % 8;
    }

    /** `pb_skip_field`. */
    method SkipField(wireType: nat) returns (ok: bool)
      requires Valid()
      modifies this
      ensures Valid() && End() == old(End())
      ensures Skipped(old(Remaining()), Remaining(), Skip(wireType, old(Remaining())), ok)
    {
      hide Counted;
      if wireType == WT_VARINT {
        ok := SkipVarint();
      } else if wireType == WT_64BIT {
        var skipped, _ := Read(8);
        ok := skipped;
      } else if wireType == WT_STRING {
        ok := SkipString();
      } else if wireType == WT_32BIT {
        var skipped, _ := Read(4);
        ok := skipped;
      } else {
        ok := false;
      }
    }

    /** `pb_make_string_substream`. On success this stream's count is already that
        of the bytes after the string, while its position is still before it. */
    method MakeStringSubstream() returns (sub: IStream?)
      requires Valid()
      modifies this
      ensures match Counted(old(Remaining()))
              case Got(s, rest) =>
                && sub != null && fresh(sub) && sub.buf == buf && sub.Valid()
                && sub.Remaining() == s && sub.End() + bytesLeft == old(End())
                && buf[sub.End()..old(End())] == rest
              case Bad(_) => sub == null && Valid() && End() == old(End())
    {
      hide Groups;
      var ok, size := DecodeVarint32();
      if !ok {
        return null;
      }
      if bytesLeft < size {
        return null;
      }
      sub := new IStream.Sub(this, size);
      bytesLeft := bytesLeft - size;
    }

    /** `pb_close_string_substream`: skips what the substream has left. */
    method CloseStringSubstream(sub: IStream)
      requires sub != this && sub.Valid() && sub.buf == buf && sub.End() + bytesLeft <= |buf|
      modifies this, sub
      ensures Valid() && bytesLeft == old(bytesLeft) && pos == old(sub.End())
    {
      if sub.bytesLeft != 0 {
        var _, _ := sub.Read(sub.bytesLeft);
      }
      pos := sub.pos;
    }
  }

  /** Skipping either leaves the bytes after the field, or fails. */
  predicate Skipped(before: seq<byte>, after: seq<byte>, spec: Option<seq<byte>>, ok: bool) {
    ok == spec.Some? && (ok ==> after == spec.value)
  }
}
