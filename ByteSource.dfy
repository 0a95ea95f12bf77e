/** The wrapped file handle: a fixed sequence of raw bytes and a read
    position. Only what the stream asks of it is modelled: `read(n)`,
    `seek(0, 0)`, `seek(0, 2)` and `tell()`. */
module ByteSource {
  import opened Base64

  /** What `read(n)` at position `pos` hands back: everything left when `n`
      is negative, otherwise the next `n` bytes or as many as remain. */
  function Draw(data: seq<byte>, pos: nat, n: int): (r: seq<byte>)
    requires pos <= |data|
    ensures pos + |r| <= |data| && r == data[pos..pos + |r|]
    ensures n < 0 ==> pos + |r| == |data|
    ensures n >= 0 ==> |r| == (if pos + n <= |data| then n else |data| - pos)
  {
    if n < 0 then data[pos..]
    else data[pos..if pos + n <= |data| then pos + n else |data|]
  }

  class FileHandle {
    const data: seq<byte>
    var pos: nat

    ghost predicate Valid()
      reads this
    {
      pos <= |data|
    }

    constructor (data: seq<byte>)
      ensures Valid() && this.data == data && pos == 0
    {
      this.data := data;
      pos := 0;
    }

    method Read(n: int) returns (chunk: seq<byte>)
      requires Valid()
      modifies this
      ensures Valid()
      ensures chunk == Draw(data, old(pos), n) && pos == old(pos) + |chunk|
    {
      chunk := Draw(data, pos, n);
      pos := pos + |chunk|;
    }

    /** `seek(0, whence)` for whence 0 (start) and 2 (end); returns the new
        absolute position. */
    method Seek(offset: int, whence: int) returns (newPos: nat)
      requires Valid() && offset == 0 && (whence == 0 || whence == 2)
      modifies this
      ensures Valid() && newPos == pos
      ensures pos == if whence == 0 then 0 else |data|
    {
      pos := if whence == 0 then offset else |data| + offset;
      newPos := pos;
    }

    method Tell() returns (p: nat)
      requires Valid()
      ensures p == pos && p <= |data|
    {
      p := pos;
    }
  }
}
