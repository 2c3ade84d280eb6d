// Project2_client's codec.h: messages behind a 4-byte big-endian length.

module LengthCodec {
  import opened Buffers
  import opened Framing

  newtype byte = b: int | 0 <= b < 256

  const HEADER_LEN: nat := 4
  const MAX_LEN: nat := 65536

  /** 32 bits read as a two's complement number. */
  function AsSigned(u: nat): (i: int)
    requires u < 0x1_0000_0000
    ensures -0x8000_0000 <= i < 0x8000_0000
    ensures i == u || i == u - 0x1_0000_0000
  {
    if u >= 0x8000_0000 then u - 0x1_0000_0000 else u
  }

  /** An `int32_t` holding the low 32 bits of n: `static_cast<int32_t>` of a size. */
  function ToInt32(n: int): (i: int)
    ensures -0x8000_0000 <= i < 0x8000_0000
    ensures (n - i) % 0x1_0000_0000 == 0
  {
    AsSigned(n % 0x1_0000_0000)
  }

  lemma SmallInt32(n: int)
    requires 0 <= n <= MAX_LEN
    ensures ToInt32(n) == n
  {
  }

  /** The n low bytes of u, most significant first. */
  function ToBytes(u: nat, n: nat): (bytes: seq<byte>)
    ensures |bytes| == n
  {
    if n == 0 then [] else ToBytes(u / 0x100, n - 1) + [(u % 0x100) as byte]
  }

  function FromBytes(bytes: seq<byte>): nat {
    if bytes == [] then 0 else FromBytes(bytes[..|bytes| - 1]) * 0x100 + bytes[|bytes| - 1] as nat
  }

  /** `hostToNetwork32`: the 32 bits of len in network byte order. */
  function Encode(len: int): (header: seq<byte>)
    requires -0x8000_0000 <= len < 0x8000_0000
    ensures |header| == HEADER_LEN
  {
    ToBytes(len % 0x1_0000_0000, HEADER_LEN)
  }

  /** 256 to the n */
  function Range(n: nat): nat {
    if n == 0 then 1 else 0x100 * Range(n - 1)
  }

  lemma {:induction false} FromToBytes(u: nat, n: nat)
    requires u < Range(n)
    ensures FromBytes(ToBytes(u, n)) == u
  {
    if n > 0 {
      FromToBytes(u / 0x100, n - 1);
      assert ToBytes(u, n)[..n - 1] == ToBytes(u / 0x100, n - 1);
    }
  }

  lemma {:induction false} ToFromBytes(bytes: seq<byte>)
    ensures FromBytes(bytes) < Range(|bytes|)
    ensures ToBytes(FromBytes(bytes), |bytes|) == bytes
  {
    if bytes != [] {
      var front := bytes[..|bytes| - 1];
      ToFromBytes(front);
      assert FromBytes(bytes) / 0x100 == FromBytes(front);
      assert bytes == front + [bytes[|bytes| - 1]];
    }
  }

  lemma RangeOfHeader()
    ensures Range(HEADER_LEN) == 0x1_0000_0000
  {
    assert Range(2) == 0x1_0000;
  }

  /** `networkToHost32` of the first four bytes, as a signed number. */
  function Decode(data: seq<byte>): (len: int)
    requires |data| >= HEADER_LEN
    ensures -0x8000_0000 <= len < 0x8000_0000
  {
    ToFromBytes(data[..HEADER_LEN]);
    RangeOfHeader();
    AsSigned(FromBytes(data[..HEADER_LEN]))
  }

  /** Network byte order: the first byte weighs most. */
  function BigEndian(b: seq<byte>): nat
    requires |b| >= 4
  {
    b[0] as nat * 0x100_0000 + b[1] as nat * 0x1_0000 + b[2] as nat * 0x100 + b[3] as nat
  }

  lemma FourBytes(b: seq<byte>)
    requires |b| >= 4
    ensures FromBytes(b[..HEADER_LEN]) == BigEndian(b) < 0x1_0000_0000
  {
    assert b[..4][..3] == b[..3] && b[..3][..2] == b[..2] && b[..2][..1] == b[..1] && b[..1][..0] == [];
    assert FromBytes(b[..1]) == b[0] as nat;
    assert FromBytes(b[..2]) == b[0] as nat * 0x100 + b[1] as nat;
    assert FromBytes(b[..3]) == (b[0] as nat * 0x100 + b[1] as nat) * 0x100 + b[2] as nat;
  }

  /** The header of a length, byte by byte, and the length in a header. */
  lemma HeaderBytes(len: int, data: seq<byte>)
    requires -0x8000_0000 <= len < 0x8000_0000 && |data| >= 4
    ensures |Encode(len)| == 4 && BigEndian(Encode(len)) == if len < 0 then len + 0x1_0000_0000 else len
    ensures len >= 0 ==> Encode(len) == [(len / 0x100_0000) as byte, (len / 0x1_0000 % 0x100) as byte,
                                         (len / 0x100 % 0x100) as byte, (len % 0x100) as byte]
    ensures Decode(data) == if data[0] >= 128 then BigEndian(data) - 0x1_0000_0000 else BigEndian(data)
  {
    FourBytes(data);
    FourBytes(Encode(len));
    assert Encode(len)[..HEADER_LEN] == Encode(len);
    RangeOfHeader();
    FromToBytes(len % 0x1_0000_0000, HEADER_LEN);
  }

  lemma DecodeEncode(len: int, rest: seq<byte>)
    requires -0x8000_0000 <= len < 0x8000_0000
    ensures Decode(Encode(len) + rest) == len
  {
    RangeOfHeader();
    FromToBytes(len % 0x1_0000_0000, HEADER_LEN);
    assert (Encode(len) + rest)[..HEADER_LEN] == Encode(len);
  }

  lemma EncodeDecode(data: seq<byte>)
    requires |data| >= HEADER_LEN
    ensures Encode(Decode(data)) == data[..HEADER_LEN]
  {
    RangeOfHeader();
    ToFromBytes(data[..HEADER_LEN]);
    assert Decode(data) % 0x1_0000_0000 == FromBytes(data[..HEADER_LEN]);
  }

  /** The front header announces a length no message may have. */
  predicate Invalid(s: seq<byte>) {
    |s| >= HEADER_LEN && (Decode(s) > MAX_LEN || Decode(s) < 0)
  }

  /** Invalid are just the headers above 65536 as unsigned numbers: 00 01 00 00 is valid. */
  lemma InvalidIff(s: seq<byte>)
    ensures Invalid(s) <==> |s| >= 4 && BigEndian(s) > 65536
  {
    if |s| >= 4 {
      HeaderBytes(0, s);
    }
  }

  /** `onMessage` takes nothing from such a buffer. */
  predicate Stuck(s: seq<byte>) {
    |s| < HEADER_LEN || Invalid(s) || |s| < Decode(s) + HEADER_LEN
  }

  /** What one `onMessage` call delivers from a buffer, and what it leaves there. */
  function Parse(s: seq<byte>): Parsed<byte>
    decreases |s|
  {
    if Stuck(s) then
      Parsed([], s)
    else
      var end := Decode(s) + HEADER_LEN;
      var rest := Parse(s[end..]);
      Parsed([s[HEADER_LEN..end]] + rest.messages, rest.residue)
  }

  /** The bytes `send` puts on the wire for one message of any size. */
  function Frame(message: seq<byte>): seq<byte> {
    Encode(ToInt32(|message|)) + message
  }

  function Frames(messages: seq<seq<byte>>): seq<byte> {
    Framed(Frame, messages)
  }

  /** One turn of the loop: the front frame's message is delivered and its bytes are retrieved. */
  lemma TakeFront(delivered: seq<seq<byte>>, s: seq<byte>, end: int)
    requires !Stuck(s) && end == Decode(s) + HEADER_LEN
    ensures delivered + Parse(s).messages == delivered + [s[HEADER_LEN..end]] + Parse(s[end..]).messages
    ensures Parse(s).residue == Parse(s[end..]).residue
  {
    Associative(delivered, [s[HEADER_LEN..end]], Parse(s[end..]).messages);
  }

  lemma HeaderThenMessage(s: seq<byte>, len: nat)
    requires len + HEADER_LEN <= |s|
    ensures s[HEADER_LEN..][..len] == s[HEADER_LEN..len + HEADER_LEN]
    ensures s[HEADER_LEN..][len..] == s[len + HEADER_LEN..]
  {
  }

  ghost predicate AllShort(messages: seq<seq<byte>>) {
    forall m | m in messages :: |m| <= MAX_LEN
  }

  class LengthHeaderCodec {
    // The arguments of every call of messageCallback_, in order, and the number of
    // times the connection was told to shut down.
    var delivered: seq<seq<byte>>
    var shutdowns: nat

    constructor ()
      ensures delivered == [] && shutdowns == 0
    {
      delivered, shutdowns := [], 0;
    }

    method OnMessage(buf: Buffer<byte>)
      modifies this, buf
      ensures delivered == old(delivered) + Parse(old(buf.readable)).messages
      ensures buf.readable == Parse(old(buf.readable)).residue
      ensures shutdowns == old(shutdowns) + if |buf.readable| >= 4 && BigEndian(buf.readable) > 65536 then 1 else 0
    {
      var stopped := false;
      ghost var goal := Parsed(delivered + Parse(buf.readable).messages, Parse(buf.readable).residue);
      while !stopped && |buf.readable| >= HEADER_LEN
        invariant delivered + Parse(buf.readable).messages == goal.messages
        invariant Parse(buf.readable).residue == goal.residue
        invariant stopped ==> Stuck(buf.readable)
        invariant shutdowns == old(shutdowns) + if stopped && Invalid(buf.readable) then 1 else 0
        decreases !stopped, |buf.readable|
      {
        var len := Decode(buf.readable);
        if len > MAX_LEN || len < 0 {
          shutdowns := shutdowns + 1;
          stopped := true;
        } else if |buf.readable| >= len + HEADER_LEN {
          ghost var before := buf.readable;
          TakeFront(delivered, before, len + HEADER_LEN);
          HeaderThenMessage(before, len);
          buf.Retrieve(HEADER_LEN);
          var message := buf.readable[..len];
          delivered := delivered + [message];
          buf.Retrieve(len);
        } else {
          stopped := true;
        }
      }
      assert Parse(buf.readable) == Parsed([], buf.readable);
      InvalidIff(buf.readable);
    }

    /** The header is prepended to the message; the frame goes out in one piece. */
    method Send(message: seq<byte>) returns (wire: seq<byte>)
      ensures wire == Frame(message)
      ensures |wire| == 4 + |message| && wire[4..] == message
      ensures BigEndian(wire) == |message| % 0x1_0000_0000
    {
      var buf := new Buffer<byte>();
      buf.Append(message);
      buf.Prepend(Encode(ToInt32(|message|)));
      wire := buf.readable;
      SentLength(message);
    }
  }

  lemma SentLength(m: seq<byte>)
    ensures |Frame(m)| == 4 + |m| && Frame(m)[4..] == m
    ensures BigEndian(Frame(m)) == |m| % 0x1_0000_0000
  {
    var header := Encode(ToInt32(|m|));
    HeaderBytes(ToInt32(|m|), header);
    var q := if ToInt32(|m|) < 0 then ToInt32(|m|) + 0x1_0000_0000 else ToInt32(|m|);
    assert q == |m| % 0x1_0000_0000;
    assert Frame(m)[..4] == header;
  }

  lemma ParseFrame(m: seq<byte>, rest: seq<byte>)
    requires |m| <= MAX_LEN
    ensures Parse(Frame(m) + rest) == Parsed([m] + Parse(rest).messages, Parse(rest).residue)
  {
    var s := Frame(m) + rest;
    SmallInt32(|m|);
    Associative(Encode(|m|), m, rest);
    DecodeEncode(|m|, m + rest);
    assert s[HEADER_LEN..HEADER_LEN + |m|] == m && s[HEADER_LEN + |m|..] == rest;
  }

  lemma FrontFrame(s: seq<byte>, end: int)
    requires !Stuck(s) && end == Decode(s) + HEADER_LEN
    ensures s == Frame(s[HEADER_LEN..end]) + s[end..]
  {
    EncodeDecode(s);
    SmallInt32(Decode(s));
    Cut(s, HEADER_LEN, end);
  }

  /** Parsing loses nothing and stops only where no whole valid frame is left. */
  lemma {:induction false} ParseReproducesStream(s: seq<byte>)
    ensures Frames(Parse(s).messages) + Parse(s).residue == s
    ensures AllShort(Parse(s).messages) && Stuck(Parse(s).residue)
    decreases |s|
  {
    if !Stuck(s) {
      var end := Decode(s) + HEADER_LEN;
      var m, tail := s[HEADER_LEN..end], s[end..];
      ParseReproducesStream(tail);
      FrontFrame(s, end);
      FramedOne(Frame, m);
      FramedAcross(Frame, Frame(m), tail, Parsed([m], []), Parse(tail));
    }
  }

  lemma FramesCons(messages: seq<seq<byte>>, residue: seq<byte>)
    requires messages != []
    ensures Frames(messages) + residue == Frame(messages[0]) + (Frames(messages[1..]) + residue)
  {
    Associative(Frame(messages[0]), Frames(messages[1..]), residue);
  }

  lemma {:induction false} ParseOfFrames(messages: seq<seq<byte>>, residue: seq<byte>)
    requires AllShort(messages) && Stuck(residue)
    ensures Parse(Frames(messages) + residue) == Parsed(messages, residue)
  {
    if messages == [] {
      assert Frames(messages) + residue == residue;
    } else {
      var m, ms := messages[0], messages[1..];
      var rest := Frames(ms) + residue;
      assert messages == [m] + ms;
      ParseOfFrames(ms, residue);
      FramesCons(messages, residue);
      ParseFrame(m, rest);
    }
  }

  /** `Parse` is the one and only way to read a stream as valid frames and a stuck rest. */
  lemma ParseCharacterised(s: seq<byte>, messages: seq<seq<byte>>, residue: seq<byte>)
    ensures Parse(s) == Parsed(messages, residue) <==>
            AllShort(messages) && Stuck(residue) && Frames(messages) + residue == s
  {
    ParseReproducesStream(s);
    if AllShort(messages) && Stuck(residue) && Frames(messages) + residue == s {
      ParseOfFrames(messages, residue);
    }
  }

  lemma ParseResumes(a: seq<byte>, b: seq<byte>)
    ensures Resumes(Parse, a, b)
  {
    var first := Parse(a);
    var rest := Parse(first.residue + b);
    ParseReproducesStream(a);
    ParseReproducesStream(first.residue + b);
    FramedAcross(Frame, a, b, first, rest);
    ParseCharacterised(a + b, first.messages + rest.messages, rest.residue);
  }

  lemma ParseIsIncremental()
    ensures Incremental(Parse)
  {
    forall a, b
      ensures Resumes(Parse, a, b)
    {
      ParseResumes(a, b);
    }
    forall a
      ensures Parse(Parse(a).residue) == Parsed([], Parse(a).residue)
    {
      ParseReproducesStream(a);
    }
  }

  /** Any cutting of a stream into chunks makes no difference. */
  lemma AnyChunks(chunks: seq<seq<byte>>)
    ensures Feed(Parse, [], chunks) == Parse(Concat(chunks))
  {
    ParseIsIncremental();
    ChunkIndependence(Parse, [], chunks);
    assert [] + Concat(chunks) == Concat(chunks);
  }

  /** Whatever the chunks: the frames delivered and the bytes still buffered are, in order,
      the bytes received. */
  lemma FeedConserves(chunks: seq<seq<byte>>)
    ensures Frames(Feed(Parse, [], chunks).messages) + Feed(Parse, [], chunks).residue == Concat(chunks)
    ensures AllShort(Feed(Parse, [], chunks).messages) && Stuck(Feed(Parse, [], chunks).residue)
  {
    AnyChunks(chunks);
    ParseReproducesStream(Concat(chunks));
  }

  /** The receiver gets exactly the messages sent, and an empty buffer, if and only if no
      message is longer than 65536 bytes; the chunks make no difference. */
  lemma RoundTripIff(messages: seq<seq<byte>>, chunks: seq<seq<byte>>)
    requires Concat(chunks) == Frames(messages)
    ensures Feed(Parse, [], chunks) == Parsed(messages, []) <==> forall m | m in messages :: |m| <= 65536
  {
    AnyChunks(chunks);
    assert Frames(messages) == Frames(messages) + [];
    ParseCharacterised(Frames(messages), messages, []);
  }

  lemma InvalidStays(s: seq<byte>, more: seq<byte>)
    requires Invalid(s)
    ensures Invalid(s + more)
  {
    assert (s + more)[..HEADER_LEN] == s[..HEADER_LEN];
  }

  /** The limit in bytes on the wire: behind 00 01 00 00 a message of 65536 bytes is delivered,
      and behind 00 01 00 01 nothing is. */
  lemma LimitOnTheWire(m: seq<byte>, rest: seq<byte>)
    requires |m| == 65536
    ensures Parse([0, 1, 0, 0] + m) == Parsed([m], [])
    ensures Invalid([0, 1, 0, 1] + rest) && Parse([0, 1, 0, 1] + rest) == Parsed([], [0, 1, 0, 1] + rest)
  {
    HeaderBytes(65536, [0, 0, 0, 0]);
    SmallInt32(65536);
    assert Frame(m) == [0, 1, 0, 0] + m;
    assert Frame(m) + [] == Frame(m);
    ParseFrame(m, []);
    assert Parse([]) == Parsed([], []);
    InvalidIff([0, 1, 0, 1] + rest);
  }

  /** Once the front header is invalid, nothing is delivered or consumed any more. */
  lemma {:induction false} InvalidIsSticky(buffered: seq<byte>, chunks: seq<seq<byte>>)
    requires Invalid(buffered)
    ensures Feed(Parse, buffered, chunks) == Parsed([], buffered + Concat(chunks))
    ensures Invalid(buffered + Concat(chunks))
    decreases |chunks|
  {
    InvalidStays(buffered, Concat(chunks));
    if chunks != [] {
      InvalidStays(buffered, chunks[0]);
      InvalidIsSticky(buffered + chunks[0], chunks[1..]);
      assert buffered + Concat(chunks) == buffered + chunks[0] + Concat(chunks[1..]);
    } else {
      assert buffered + Concat(chunks) == buffered;
    }
  }

  /** A message whose size, cut to 32 signed bits, is out of range ends the conversation:
      what was sent before it arrives, and nothing else ever does. */
  lemma OversizeEndsStream(before: seq<seq<byte>>, m: seq<byte>, after: seq<byte>, chunks: seq<seq<byte>>)
    requires AllShort(before)
    requires ToInt32(|m|) < 0 || ToInt32(|m|) > MAX_LEN
    requires Concat(chunks) == Frames(before) + (Frame(m) + after)
    ensures Feed(Parse, [], chunks) == Parsed(before, Frame(m) + after)
    ensures Invalid(Frame(m) + after)
  {
    assert Frame(m) + after == Encode(ToInt32(|m|)) + (m + after);
    DecodeEncode(ToInt32(|m|), m + after);
    AnyChunks(chunks);
    ParseOfFrames(before, Frame(m) + after);
  }
}
