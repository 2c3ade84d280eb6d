// What both stream codecs share: a stream of frames, a parser that is called once per received
// chunk on whatever is buffered, and why the chunks make no difference.

module Framing {

  /** What one `onMessage` call delivers from a buffer, and what it leaves there. */
  datatype Parsed<T> = Parsed(messages: seq<seq<T>>, residue: seq<T>)

  function Concat<T>(chunks: seq<seq<T>>): seq<T> {
    if chunks == [] then [] else chunks[0] + Concat(chunks[1..])
  }

  /** The messages on the wire, each in its frame. */
  function Framed<T>(frame: seq<T> -> seq<T>, messages: seq<seq<T>>): seq<T> {
    if messages == [] then [] else frame(messages[0]) + Framed(frame, messages[1..])
  }

  /** Successive `onMessage` calls, one per received chunk, on one connection's buffer. */
  function Feed<T>(parse: seq<T> -> Parsed<T>, buffered: seq<T>, chunks: seq<seq<T>>): Parsed<T>
    decreases |chunks|
  {
    if chunks == [] then
      Parsed([], buffered)
    else
      var first := parse(buffered + chunks[0]);
      var rest := Feed(parse, first.residue, chunks[1..]);
      Parsed(first.messages + rest.messages, rest.residue)
  }

  /** Parsing a and then what it left together with b comes to the same as parsing a + b. */
  ghost predicate Resumes<T>(parse: seq<T> -> Parsed<T>, a: seq<T>, b: seq<T>) {
    var first := parse(a);
    var rest := parse(first.residue + b);
    parse(a + b) == Parsed(first.messages + rest.messages, rest.residue)
  }

  /** A parser that resumes anywhere and leaves nothing it could have delivered. */
  ghost predicate Incremental<T(!new)>(parse: seq<T> -> Parsed<T>) {
    && (forall a, b :: Resumes(parse, a, b))
    && (forall a :: parse(parse(a).residue) == Parsed([], parse(a).residue))
  }

  /** How a stream is cut into chunks makes no difference to such a parser. */
  lemma {:induction false} ChunkIndependence<T(!new)>(parse: seq<T> -> Parsed<T>, buffered: seq<T>, chunks: seq<seq<T>>)
    requires Incremental(parse) && parse(buffered) == Parsed([], buffered)
    ensures Feed(parse, buffered, chunks) == parse(buffered + Concat(chunks))
    decreases |chunks|
  {
    if chunks == [] {
      assert buffered + Concat(chunks) == buffered;
    } else {
      var here, later := buffered + chunks[0], Concat(chunks[1..]);
      ChunkIndependence(parse, parse(here).residue, chunks[1..]);
      assert Resumes(parse, here, later);
      assert buffered + Concat(chunks) == here + later;
    }
  }

  lemma {:induction false} FramedConcat<T>(frame: seq<T> -> seq<T>, a: seq<seq<T>>, b: seq<seq<T>>)
    ensures Framed(frame, a + b) == Framed(frame, a) + Framed(frame, b)
  {
    if a == [] {
      assert a + b == b;
    } else {
      assert (a + b)[1..] == a[1..] + b;
      FramedConcat(frame, a[1..], b);
      Associative(frame(a[0]), Framed(frame, a[1..]), Framed(frame, b));
    }
  }

  /** Two readings of adjoining stretches of a stream make one of both. */
  lemma FramedAcross<T>(frame: seq<T> -> seq<T>, a: seq<T>, b: seq<T>, first: Parsed<T>, rest: Parsed<T>)
    requires Framed(frame, first.messages) + first.residue == a
    requires Framed(frame, rest.messages) + rest.residue == first.residue + b
    ensures Framed(frame, first.messages + rest.messages) + rest.residue == a + b
  {
    FramedConcat(frame, first.messages, rest.messages);
    Associative(Framed(frame, first.messages), Framed(frame, rest.messages), rest.residue);
    Associative(Framed(frame, first.messages), first.residue, b);
  }

  lemma FramedOne<T>(frame: seq<T> -> seq<T>, message: seq<T>)
    ensures Framed(frame, [message]) == frame(message)
  {
    assert Framed(frame, [message]) == frame(message) + [];
  }

  lemma Associative<T>(a: seq<T>, b: seq<T>, c: seq<T>)
    ensures (a + b) + c == a + (b + c)
  {
  }

  lemma Cut<T>(s: seq<T>, a: nat, b: nat)
    requires a <= b <= |s|
    ensures s == (s[..a] + s[a..b]) + s[b..]
  {
  }

  lemma SliceOfPrefix<T>(s: seq<T>, n: nat, i: nat, j: nat)
    requires i <= j <= n <= |s|
    ensures s[..n][i..j] == s[i..j]
  {
  }
}
