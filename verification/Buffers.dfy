// The part of muduo's network buffer the codecs touch: its readable region.

module Buffers {

  /** The readable region of a `muduo::net::Buffer`, front first. `peek()` is the
      field itself, `readableBytes()` its length. */
  class Buffer<T> {
    var readable: seq<T>

    constructor ()
      ensures readable == []
    {
      readable := [];
    }

    method Retrieve(n: nat)
      requires n <= |readable|
      modifies this
      ensures readable == old(readable)[n..]
    {
      readable := readable[n..];
    }

    method Append(data: seq<T>)
      modifies this
      ensures readable == old(readable) + data
    {
      readable := readable + data;
    }

    method Prepend(data: seq<T>)
      modifies this
      ensures readable == data + old(readable)
    {
      readable := data + readable;
    }
  }
}
