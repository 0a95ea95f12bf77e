/** The way the stream is meant to be used: read, or read into a buffer,
    until an empty chunk comes back. What comes out is the base64 encoding of
    the wrapped bytes, stripped of the newline `binascii.b2a_base64` adds. */
module ReadLoops {
  import opened Base64
  import opened ByteSource
  import opened StreamModel
  import opened Base64Streams

  /** One round of a read loop: if `encoded` followed by the encoding of
      what is pending at `c` is the encoding of what was pending at `start`,
      the next chunk keeps that so. */
  lemma ChunkExtends(data: seq<byte>, start: Cursor, c: Cursor, size: int, encoded: seq<byte>)
    requires Valid(data, c) && Accepted(size) && start.pos <= |data|
    requires encoded + Encode(Pending(data, c)) == Encode(Pending(data, start))
    ensures var o := Read(data, c, size).value;
      (encoded + o.encoded) + Encode(Pending(data, o.next)) == Encode(Pending(data, start))
  {
    var o := Read(data, c, size).value;
    ReadPrefixesEncoding(data, c, size);
    var rest := Encode(Pending(data, o.next));
    assert (encoded + o.encoded) + rest == encoded + (o.encoded + rest);
  }

  /** The end of a read loop: when nothing is pending, `encoded` is all of
      the encoding. */
  lemma LoopEnds(data: seq<byte>, start: Cursor, c: Cursor, encoded: seq<byte>)
    requires c.pos <= |data| && start.pos <= |data| && Pending(data, c) == []
    requires encoded + Encode(Pending(data, c)) == Encode(Pending(data, start))
    ensures encoded == Encode(Pending(data, start))
  {
    assert encoded + Encode([]) == encoded;
  }

  /** Calls `read(size)` until it returns nothing and concatenates the
      chunks: the result encodes everything that was pending, and nothing is
      pending afterwards. */
  method ReadUntilEmpty(stream: Base64Stream, size: int) returns (encoded: seq<byte>)
    requires stream.Valid() && Accepted(size)
    modifies stream, stream.fileHandle
    ensures stream.Valid()
    ensures encoded == Encode(Pending(stream.fileHandle.data, old(stream.State())))
    ensures Pending(stream.fileHandle.data, stream.State()) == []
  {
    var data := stream.fileHandle.data;
    ghost var start := stream.State();
    encoded := [];
    while true
      invariant stream.Valid()
      invariant encoded + Encode(Pending(data, stream.State())) == Encode(Pending(data, start))
      decreases |Pending(data, stream.State())|
    {
      ghost var before := stream.State();
      ChunkExtends(data, start, before, size, encoded);
      ReadAdvances(data, before, size);
      var newEncoded := stream.Read(size);
      if newEncoded.value == [] {
        LoopEnds(data, start, before, encoded);
        break;
      }
      encoded := encoded + newEncoded.value;
    }
  }

  /** Calls `readinto(buffer)` until it returns 0 and concatenates the
      prefixes it filled: the result encodes everything that was pending. */
  method ReadIntoUntilEmpty(stream: Base64Stream, buffer: array<byte>) returns (encoded: seq<byte>)
    requires stream.Valid() && buffer.Length >= MinReadSize
    modifies stream, stream.fileHandle, buffer
    ensures stream.Valid()
    ensures encoded == Encode(Pending(stream.fileHandle.data, old(stream.State())))
    ensures Pending(stream.fileHandle.data, stream.State()) == []
  {
    var data := stream.fileHandle.data;
    var size := buffer.Length;
    ghost var start := stream.State();
    encoded := [];
    while true
      invariant stream.Valid()
      invariant encoded + Encode(Pending(data, stream.State())) == Encode(Pending(data, start))
      decreases |Pending(data, stream.State())|
    {
      ghost var before := stream.State();
      ChunkExtends(data, start, before, size, encoded);
      ReadAdvances(data, before, size);
      var bytesRead := stream.ReadInto(buffer);
      if bytesRead.value == 0 {
        LoopEnds(data, start, before, encoded);
        break;
      }
      encoded := encoded + buffer[..bytesRead.value];
    }
  }

  /** A fresh stream over `contents`, read to the end with any accepted
      size, yields what `binascii.b2a_base64(contents).strip()` does. */
  method EncodeThroughRead(contents: seq<byte>, size: int) returns (encoded: seq<byte>)
    requires Accepted(size)
    ensures encoded == Strip(B2aBase64(contents))
  {
    var handle := new FileHandle(contents);
    var stream := new Base64Stream(handle);
    encoded := ReadUntilEmpty(stream, size);
    assert Pending(contents, Cursor([], 0)) == contents;
    StripB2aBase64(contents);
  }

  /** The same through `readinto` with a buffer of at least four bytes. */
  method EncodeThroughReadInto(contents: seq<byte>, bufferSize: nat) returns (encoded: seq<byte>)
    requires bufferSize >= MinReadSize
    ensures encoded == Strip(B2aBase64(contents))
  {
    var handle := new FileHandle(contents);
    var stream := new Base64Stream(handle);
    var buffer := new byte[bufferSize];
    encoded := ReadIntoUntilEmpty(stream, buffer);
    assert Pending(contents, Cursor([], 0)) == contents;
    StripB2aBase64(contents);
  }

  /** After `seek(0, 2)`, `tell()` is the length of the whole stripped
      encoding. */
  method TellAfterSeekToEnd(contents: seq<byte>) returns (p: int)
    ensures p == |Strip(B2aBase64(contents))|
  {
    var handle := new FileHandle(contents);
    var stream := new Base64Stream(handle);
    var sought := stream.Seek(0, 2);
    p := stream.Tell();
    assert contents[..|contents|] == contents;
    StripB2aBase64(contents);
  }
}
