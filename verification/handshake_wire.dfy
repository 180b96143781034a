// Handshake fragments on the wire (section 4.2.2 of RFC 6347): a 12-byte header
// and the fragment body.
module HandshakeWire {
  import opened Basics
  import opened Reassembly

  const U16 := 0x1_0000
  const U24 := 0x100_0000

  /** One fragment; its `frag_len` field is `|body|`. */
  datatype Frag = Frag(typ: byte, msgLen: nat, seqNum: nat, off: nat, body: seq<byte>) {
    predicate Encodable() {
      msgLen < U24 && seqNum < U16 && off < U24 && |body| < U24
    }
  }

  function U16Bytes(n: nat): (b: seq<byte>)
    requires n < U16
    ensures |b| == 2
  {
    [n / 256, n % 256]
  }

  function U24Bytes(n: nat): (b: seq<byte>)
    requires n < U24
    ensures |b| == 3
  {
    [n / 0x1_0000, n / 256 % 256, n % 256]
  }

  function FromU16(b: seq<byte>): (n: nat)
    requires |b| == 2
    ensures n < U16
  {
    var hi: int, lo: int := b[0], b[1];
    256 * hi + lo
  }

  function FromU24(b: seq<byte>): (n: nat)
    requires |b| == 3
    ensures n < U24
  {
    var hi: int, mid: int, lo: int := b[0], b[1], b[2];
    0x1_0000 * hi + 256 * mid + lo
  }

  /** The header that `seal_next_message` assembles in front of a fragment body. */
  function Header(typ: byte, msgLen: nat, seqNum: nat, off: nat, fragLen: nat): (b: seq<byte>)
    requires msgLen < U24 && seqNum < U16 && off < U24 && fragLen < U24
    ensures |b| == HEADER_LENGTH
  {
    [typ] + U24Bytes(msgLen) + U16Bytes(seqNum) + U24Bytes(off) + U24Bytes(fragLen)
  }

  function Serialize(f: Frag): (b: seq<byte>)
    requires f.Encodable()
    ensures |b| == HEADER_LENGTH + |f.body|
  {
    Header(f.typ, f.msgLen, f.seqNum, f.off, |f.body|) + f.body
  }

  /** `dtls1_parse_fragment`: the first fragment of `b` and the bytes after it. */
  function Parse(b: seq<byte>): (r: Option<(Frag, seq<byte>)>)
    ensures r.Some? ==> |r.value.1| < |b| && r.value.0.Encodable()
  {
    if |b| < HEADER_LENGTH then None
    else
      var fragLen := FromU24(b[9..12]);
      if |b| - HEADER_LENGTH < fragLen then None
      else
        var end := HEADER_LENGTH + fragLen;
        Some((Frag(b[0], FromU24(b[1..4]), FromU16(b[4..6]), FromU24(b[6..9]), b[HEADER_LENGTH..end]), b[end..]))
  }

  lemma ParseSerialized(f: Frag, rest: seq<byte>)
    requires f.Encodable()
    ensures Parse(Serialize(f) + rest) == Some((f, rest))
  {
    var b := Serialize(f) + rest;
    assert b[1..4] == U24Bytes(f.msgLen);
    assert b[4..6] == U16Bytes(f.seqNum);
    assert b[6..9] == U24Bytes(f.off);
    assert b[9..12] == U24Bytes(|f.body|);
    assert b[HEADER_LENGTH..HEADER_LENGTH + |f.body|] == f.body;
    assert b[HEADER_LENGTH + |f.body|..] == rest;
  }

  /** The twelve header bytes in numbers, high byte first, and then the body. */
  lemma HeaderBytes(f: Frag)
    requires f.Encodable()
    ensures Serialize(f)[..12] ==
            [f.typ,
             f.msgLen / 65536, f.msgLen / 256 % 256, f.msgLen % 256,
             f.seqNum / 256, f.seqNum % 256,
             f.off / 65536, f.off / 256 % 256, f.off % 256,
             |f.body| / 65536, |f.body| / 256 % 256, |f.body| % 256]
    ensures Serialize(f)[12..] == f.body
  {
  }

  /** Nothing else parses: what is read is a serialized fragment and what follows. */
  lemma ParsedIsSerialized(b: seq<byte>)
    ensures Parse(b).None? <==> |b| < 12 || |b| - 12 < FromU24(b[9..12])
    ensures Parse(b).Some? ==> b == Serialize(Parse(b).value.0) + Parse(b).value.1
  {
    if Parse(b).Some? {
      var (f, rest) := Parse(b).value;
      BytesOfNumbers(b[1..4], b[4..6]);
      BytesOfNumbers(b[6..9], b[4..6]);
      BytesOfNumbers(b[9..12], b[4..6]);
      assert b[..12] == [b[0]] + b[1..4] + b[4..6] + b[6..9] + b[9..12];
      assert Serialize(f) == b[..12] + f.body;
      assert b == b[..12] + f.body + rest;
    }
  }

  lemma BytesOfNumbers(three: seq<byte>, two: seq<byte>)
    requires |three| == 3 && |two| == 2
    ensures U24Bytes(FromU24(three)) == three && U16Bytes(FromU16(two)) == two
  {
  }
}
