// log_time_server's codec.cc: splitting a byte stream at the delimiter "@%&)".

module DelimiterCodec {
  import opened Buffers
  import opened Framing

  const DELI: string := "@%&)"
  const DELI_LEN: nat := 4

  ghost predicate OccursAt(s: string, i: int) {
    0 <= i && i + DELI_LEN <= |s| && s[i..i + DELI_LEN] == DELI
  }

  ghost predicate DelimiterFree(s: string) {
    forall i :: !OccursAt(s, i)
  }

  ghost predicate AllDelimiterFree(messages: seq<string>) {
    forall m | m in messages :: DelimiterFree(m)
  }

  /** `std::string::find(deli, i)`, with -1 for `npos` as after the cast to int. */
  function FindFrom(s: string, i: nat): (pos: int)
    requires i <= |s|
    ensures pos < 0 ==> forall j | i <= j :: !OccursAt(s, j)
    ensures pos >= 0 ==> i <= pos && OccursAt(s, pos) && forall j | i <= j < pos :: !OccursAt(s, j)
    decreases |s| - i
  {
    if i + DELI_LEN > |s| then -1
    else if s[i..i + DELI_LEN] == DELI then i
    else FindFrom(s, i + 1)
  }

  /** What one `onMessage` call delivers from a buffer, and what it leaves there. */
  function Split(s: string): Parsed<char>
    decreases |s|
  {
    var pos := FindFrom(s, 0);
    if pos < 0 then
      Parsed([], s)
    else
      var rest := Split(s[pos + DELI_LEN..]);
      Parsed([s[..pos]] + rest.messages, rest.residue)
  }

  /** The bytes `send` puts on the wire for one payload of header and body. */
  function Frame(payload: string): string {
    payload + DELI
  }

  function Frames(payloads: seq<string>): string {
    Framed(Frame, payloads)
  }

  class LengthHeaderCodec {
    // The arguments of every call of messageCallback_, in order.
    var delivered: seq<string>

    constructor ()
      ensures delivered == []
    {
      delivered := [];
    }

    /** Every complete message leaves the buffer; the rest stays. The loop ends
        because each message takes at least the delimiter's 4 bytes with it. */
    method OnMessage(buf: Buffer<char>)
      modifies this, buf
      ensures delivered == old(delivered) + Split(old(buf.readable)).messages
      ensures buf.readable == Split(old(buf.readable)).residue
    {
      ghost var goal := Parsed(delivered + Split(buf.readable).messages, Split(buf.readable).residue);
      while |buf.readable| >= DELI_LEN
        invariant delivered + Split(buf.readable).messages == goal.messages
        invariant Split(buf.readable).residue == goal.residue
        decreases |buf.readable|
      {
        var pos := FindFrom(buf.readable, 0);
        if pos >= 0 {
          ghost var rest := Split(buf.readable[pos + DELI_LEN..]);
          assert Split(buf.readable) == Parsed([buf.readable[..pos]] + rest.messages, rest.residue);
          var msg := buf.readable[..pos];
          buf.Retrieve(pos + DELI_LEN);
          Associative(delivered, [msg], rest.messages);
          delivered := delivered + [msg];
        } else {
          break;
        }
      }
      assert Split(buf.readable) == Parsed([], buf.readable);
    }
  }

  /** '@' opens the delimiter and occurs nowhere else in it, so a match that starts
      inside a message cannot run on into the delimiter behind it. */
  lemma NoStraddle(m: string, rest: string, j: nat)
    requires j < |m| && OccursAt(m + DELI + rest, j)
    ensures OccursAt(m, j)
  {
    var s := m + DELI + rest;
    assert s[j..j + DELI_LEN] == [s[j], s[j + 1], s[j + 2], s[j + 3]];
    assert s[|m|] == '@';
    assert j + DELI_LEN <= |m|;
    assert s[j..j + DELI_LEN] == m[j..j + DELI_LEN];
  }

  /** So the first delimiter found behind a delimiter-free message is the frame's own. */
  lemma FindEndOfFrame(m: string, rest: string)
    requires DelimiterFree(m)
    ensures FindFrom(m + DELI + rest, 0) == |m|
  {
    var s := m + DELI + rest;
    assert s[|m|..|m| + DELI_LEN] == DELI;
    assert OccursAt(s, |m|);
    forall j: nat | j < |m|
      ensures !OccursAt(s, j)
    {
      if OccursAt(s, j) {
        NoStraddle(m, rest, j);
      }
    }
  }

  lemma FrontFrame(s: string, pos: nat)
    requires pos == FindFrom(s, 0)
    ensures pos + DELI_LEN <= |s| && s == s[..pos] + DELI + s[pos + DELI_LEN..]
    ensures DelimiterFree(s[..pos])
  {
    Cut(s, pos, pos + DELI_LEN);
    forall i
      ensures !OccursAt(s[..pos], i)
    {
      if 0 <= i && i + DELI_LEN <= pos {
        SliceOfPrefix(s, pos, i, i + DELI_LEN);
        assert !OccursAt(s, i);
      }
    }
  }

  /** Parsing loses nothing and stops only when nothing is left to split. */
  lemma {:induction false} SplitReproducesStream(s: string)
    ensures Frames(Split(s).messages) + Split(s).residue == s
    ensures AllDelimiterFree(Split(s).messages) && DelimiterFree(Split(s).residue)
    decreases |s|
  {
    var pos := FindFrom(s, 0);
    if pos >= 0 {
      var m, tail := s[..pos], s[pos + DELI_LEN..];
      SplitReproducesStream(tail);
      FrontFrame(s, pos);
      FramedOne(Frame, m);
      FramedAcross(Frame, Frame(m), tail, Parsed([m], ""), Split(tail));
    }
  }

  /** Printing and then parsing gives back any delimiter-free payloads and residue. */
  lemma {:induction false} SplitOfFrames(payloads: seq<string>, residue: string)
    requires AllDelimiterFree(payloads) && DelimiterFree(residue)
    ensures Split(Frames(payloads) + residue) == Parsed(payloads, residue)
  {
    var s := Frames(payloads) + residue;
    if payloads == [] {
      assert s == residue;
    } else {
      var m, rest := payloads[0], Frames(payloads[1..]) + residue;
      assert s == m + DELI + rest;
      FindEndOfFrame(m, rest);
      assert s[..|m|] == m && s[|m| + DELI_LEN..] == rest;
      SplitOfFrames(payloads[1..], residue);
    }
  }

  /** `Split` is the one and only way to read a stream as delimiter-free messages, each
      followed by the delimiter, and a delimiter-free rest. */
  lemma SplitCharacterised(s: string, messages: seq<string>, residue: string)
    ensures Split(s) == Parsed(messages, residue) <==>
            AllDelimiterFree(messages) && DelimiterFree(residue) && Frames(messages) + residue == s
  {
    SplitReproducesStream(s);
    if AllDelimiterFree(messages) && DelimiterFree(residue) && Frames(messages) + residue == s {
      SplitOfFrames(messages, residue);
    }
  }

  /** Bytes that arrive later are parsed from the residue as if everything had come at once,
      also when the cut goes through a delimiter. */
  lemma SplitResumes(a: string, b: string)
    ensures Resumes(Split, a, b)
  {
    var first := Split(a);
    var rest := Split(first.residue + b);
    SplitReproducesStream(a);
    SplitReproducesStream(first.residue + b);
    FramedAcross(Frame, a, b, first, rest);
    SplitCharacterised(a + b, first.messages + rest.messages, rest.residue);
  }

  lemma SplitIsIncremental()
    ensures Incremental(Split)
  {
    forall a, b
      ensures Resumes(Split, a, b)
    {
      SplitResumes(a, b);
    }
    forall a
      ensures Split(Split(a).residue) == Parsed([], Split(a).residue)
    {
      SplitReproducesStream(a);
      SplitCharacterised(Split(a).residue, [], Split(a).residue);
    }
  }

  /** Any cutting of a stream into chunks delivers the same messages and leaves the same
      residue as the stream in one piece. */
  lemma AnyChunks(chunks: seq<string>)
    ensures Feed(Split, "", chunks) == Split(Concat(chunks))
  {
    SplitIsIncremental();
    ChunkIndependence(Split, "", chunks);
    assert "" + Concat(chunks) == Concat(chunks);
  }

  /** Payloads arrive as they were sent, in any chunks, if and only if none has the delimiter
      in it. */
  lemma RoundTripIff(payloads: seq<string>, chunks: seq<string>)
    requires Concat(chunks) == Frames(payloads)
    ensures Feed(Split, "", chunks) == Parsed(payloads, "") <==> AllDelimiterFree(payloads)
  {
    AnyChunks(chunks);
    assert Frames(payloads) + "" == Frames(payloads);
    SplitCharacterised(Frames(payloads), payloads, "");
  }
}
