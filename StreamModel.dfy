/** The encoding stream as a pure state machine over the wrapped handle's
    bytes. A state is the carry (raw bytes drawn from the handle but not yet
    encoded) and the handle's position; `Read`, `Seek` and `EncodedPosition`
    say what one call does, and the lemmas state what a caller may rely on,
    up to the fact that reading until an empty chunk yields the base64
    encoding of the input. */
module StreamModel {
  import opened Base64
  import opened ByteSource

  /** Python's `ValueError`, with its message. */
  datatype Error = ValueError(message: string)

  datatype Result<T> = Ok(value: T) | Err(error: Error)

  const SizeTooSmall := ValueError("To correctly encode, you must request at lease 4 bytes.")
  const SeekToMiddle := ValueError("Seeking to the middle of a file is not supported.")

  /** The read size that stands for "read to the end"; Python's `None` is
      handled the same way. */
  const ReadAll := -1

  /** The smallest size other than `ReadAll` and 0 that `read` accepts. */
  const MinReadSize := 4

  /** The stream's state: the carried bytes and the handle's position. */
  datatype Cursor = Cursor(carry: seq<byte>, pos: nat)

  /** Between calls the carry holds fewer than one group. */
  predicate Valid(data: seq<byte>, c: Cursor) {
    |c.carry| < 3 && c.pos <= |data|
  }

  /** The raw bytes the stream has still to encode: the carry, then what the
      handle has not handed out yet. */
  function Pending(data: seq<byte>, c: Cursor): seq<byte>
    requires c.pos <= |data|
  {
    c.carry + data[c.pos..]
  }

  /** A size `read` accepts without raising. */
  predicate Accepted(size: int) {
    size == ReadAll || size >= MinReadSize
  }

  /** The number of raw bytes requested from the handle: all of them for
      `ReadAll`, otherwise three quarters of what the size leaves after the
      carry, rounded down. */
  function RawRequest(size: int, carried: nat): (n: int)
    requires Accepted(size) && carried < 3
    ensures size == ReadAll ==> n == -1
    ensures size >= MinReadSize ==> 4 * n <= 3 * (size - carried) < 4 * n + 4
    ensures size >= MinReadSize ==> n >= 1 && carried + n >= 3
  {
    if size == ReadAll then -1 else (size - carried) * 3 / 4
  }

  /** How many of `n` drawn bytes go back into the carry: none when there are
      at most three of them, otherwise those past the last whole group. */
  function Kept(n: nat): (k: nat)
    ensures k < 3 && k <= n
    ensures n > 3 ==> (n - k) % 3 == 0
    ensures n <= 3 ==> k == 0
  {
    if n <= 3 then 0 else n % 3
  }

  /** What one `read` returns and the state it leaves. */
  datatype Chunk = Chunk(encoded: seq<byte>, next: Cursor)

  /** The raw bytes a `read` with an accepted size takes from the handle. */
  function Drawn(data: seq<byte>, c: Cursor, size: int): seq<byte>
    requires Valid(data, c) && Accepted(size)
  {
    Draw(data, c.pos, RawRequest(size, |c.carry|))
  }

  /** One call of `read(size)`. */
  function Read(data: seq<byte>, c: Cursor, size: int): (r: Result<Chunk>)
    requires Valid(data, c)
    ensures r.Err? <==> !Accepted(size) && size != 0
    ensures r.Err? ==> r.error == SizeTooSmall
    ensures size == 0 ==> r == Ok(Chunk([], c))
    ensures r.Ok? ==> Valid(data, r.value.next) && c.pos <= r.value.next.pos
  {
    if size == 0 then Ok(Chunk([], c))
    else if !Accepted(size) then Err(SizeTooSmall)
    else
      var drawn := Drawn(data, c, size);
      var all := c.carry + drawn;
      var cut := |all| - Kept(|all|);
      Ok(Chunk(Encode(all[..cut]), Cursor(all[cut..], c.pos + |drawn|)))
  }

  /** The raw bytes a call consumed: what was pending before and is not now. */
  function Consumed(before: seq<byte>, after: seq<byte>): seq<byte>
    requires |after| <= |before|
  {
    before[..|before| - |after|]
  }

  /** How many raw bytes a successful `read` takes from the handle: exactly
      the request, or whatever is left when the handle has fewer. */
  lemma ReadDraws(data: seq<byte>, c: Cursor, size: int)
    requires Valid(data, c) && Accepted(size)
    ensures var next := Read(data, c, size).value.next;
      var n := RawRequest(size, |c.carry|);
      (size == ReadAll ==> next.pos == |data|)
      && (size >= MinReadSize ==>
            next.pos == if c.pos + n <= |data| then c.pos + n else |data|)
  {
  }

  /** The pending bytes before and after a `read`, in terms of the carry and
      the drawn bytes. */
  lemma ReadPending(data: seq<byte>, c: Cursor, size: int)
    requires Valid(data, c) && Accepted(size)
    ensures var o := Read(data, c, size).value;
      var all := c.carry + Drawn(data, c, size);
      var cut := |all| - Kept(|all|);
      var rest := data[o.next.pos..];
      Pending(data, c) == all + rest && Pending(data, o.next) == all[cut..] + rest
      && o.encoded == Encode(all[..cut])
  {
    var drawn := Drawn(data, c, size);
    assert data[c.pos..] == drawn + data[c.pos + |drawn|..];
  }

  /** A successful `read` encodes a prefix of the pending bytes and keeps the
      rest pending; the prefix is whole groups unless nothing stays pending,
      so `=` padding can only come at the very end. */
  lemma ReadSplitsPending(data: seq<byte>, c: Cursor, size: int)
    requires Valid(data, c) && Read(data, c, size).Ok?
    ensures var o := Read(data, c, size).value;
      var before := Pending(data, c);
      var after := Pending(data, o.next);
      var used := Consumed(before, after);
      before == used + after
      && o.encoded == Encode(used)
      && (|used| % 3 == 0 || after == [])
  {
    if size != 0 {
      var all := c.carry + Drawn(data, c, size);
      var cut := |all| - Kept(|all|);
      var rest := data[Read(data, c, size).value.next.pos..];
      ReadPending(data, c, size);
      SplitAt(all, rest, cut);
      if cut % 3 != 0 {
        ReadShortMeansEnd(data, c, size);
      }
    }
  }

  /** Fewer than a whole group in hand after drawing means the handle is
      exhausted. */
  lemma ReadShortMeansEnd(data: seq<byte>, c: Cursor, size: int)
    requires Valid(data, c) && Accepted(size)
    requires |c.carry + Drawn(data, c, size)| < 3
    ensures c.pos + |Drawn(data, c, size)| == |data|
  {
  }

  lemma SplitAt(all: seq<byte>, rest: seq<byte>, cut: nat)
    requires cut <= |all|
    ensures all + rest == all[..cut] + (all[cut..] + rest)
    ensures Consumed(all + rest, all[cut..] + rest) == all[..cut]
  {
    assert all == all[..cut] + all[cut..];
  }

  /** What `read` encodes and carries, read branch by branch as the Python
      code tests `len_data`: no new bytes, at most three, or a whole number
      of groups are all encoded; otherwise the bytes past the last whole
      group are carried. `Read` folds these branches into `Kept`; this
      lemma unfolds them again, one implication per branch. */
  lemma ReadCases(data: seq<byte>, c: Cursor, size: int)
    requires Valid(data, c) && Accepted(size)
    ensures var drawn := Drawn(data, c, size);
      var all := c.carry + drawn;
      var o := Read(data, c, size).value;
      var m := |all|;
      && o.next.pos == c.pos + |drawn|
      && (m == |c.carry| || m <= 3 || m % 3 == 0 ==> o.encoded == Encode(all) && o.next.carry == [])
      && (m > 3 && m % 3 != 0 ==>
            o.encoded == Encode(all[..m - m % 3]) && o.next.carry == all[m - m % 3..])
  {
    var all := c.carry + Drawn(data, c, size);
    assert all[..|all|] == all;
  }

  /** A chunk never holds more than the size asked for. */
  lemma ReadWithinSize(data: seq<byte>, c: Cursor, size: int)
    requires Valid(data, c) && size >= MinReadSize
    ensures |Read(data, c, size).value.encoded| <= size
  {
    var k := |c.carry|;
    var n := RawRequest(size, k);
    var drawn := Draw(data, c.pos, n);
    var all := c.carry + drawn;
    var m := |all|;
    var cut := m - Kept(m);
    assert |Read(data, c, size).value.encoded| == 4 * ((cut + 2) / 3);
    if m <= 3 {
      assert cut <= 3;
    } else {
      var g := m / 3;
      assert cut == 3 * g;
      assert (cut + 2) / 3 == g;
      assert 3 * g <= m <= k + n;
      assert 12 * g <= 4 * k + 4 * n <= 4 * k + 3 * (size - k);
      assert 12 * g <= 3 * size + 2;
    }
  }

  /** `read` returns an empty chunk exactly when nothing is carried and the
      handle is at its end; the end of the stream is not an error. */
  lemma ReadEmptyIffExhausted(data: seq<byte>, c: Cursor, size: int)
    requires Valid(data, c) && Accepted(size)
    ensures Read(data, c, size).value.encoded == [] <==> c.carry == [] && c.pos == |data|
  {
    ReadSplitsPending(data, c, size);
    var o := Read(data, c, size).value;
    var before := Pending(data, c);
    var used := Consumed(before, Pending(data, o.next));
    if o.encoded == [] {
      assert |Encode(used)| == 0;
      assert used == [];
      var n := RawRequest(size, |c.carry|);
      var drawn := Draw(data, c.pos, n);
      var all := c.carry + drawn;
      assert |all| - Kept(|all|) == 0;
      assert all == [];
      assert c.pos == |data|;
    } else {
      assert used != [];
    }
  }

  /** A chunk read while bytes remain pending afterwards carries no padding. */
  lemma NoPaddingMidStream(data: seq<byte>, c: Cursor, size: int)
    requires Valid(data, c) && Read(data, c, size).Ok?
    requires Pending(data, Read(data, c, size).value.next) != []
    ensures Pad !in Read(data, c, size).value.encoded
  {
    ReadSplitsPending(data, c, size);
    var o := Read(data, c, size).value;
    PadIffPartialGroup(Consumed(Pending(data, c), Pending(data, o.next)));
  }

  /** `read(-1)` empties the handle and keeps in the carry the bytes past the
      last whole group of what was pending, unless at most three were. */
  lemma ReadAllEmptiesHandle(data: seq<byte>, c: Cursor)
    requires Valid(data, c)
    ensures var first := Read(data, c, ReadAll).value;
      var p := Pending(data, c);
      var cut := if |p| <= 3 then |p| else |p| - |p| % 3;
      first.next.pos == |data|
      && first.next.carry == p[cut..]
      && first.encoded == Encode(p[..cut])
  {
    assert Drawn(data, c, ReadAll) == data[c.pos..];
  }

  /** Once the handle is exhausted, `read(-1)` flushes the carry, with
      padding, and leaves nothing pending. */
  lemma ReadAllFlushesCarry(data: seq<byte>, c: Cursor)
    requires Valid(data, c) && c.pos == |data|
    ensures var o := Read(data, c, ReadAll).value;
      o.encoded == Encode(c.carry) && Pending(data, o.next) == []
  {
    assert Drawn(data, c, ReadAll) == [];
    assert c.carry + [] == c.carry;
  }

  /** `read(-1)` may need two calls: together they return the encoding of
      everything that was pending, and nothing is pending afterwards. */
  lemma ReadAllTakesTwoCalls(data: seq<byte>, c: Cursor)
    requires Valid(data, c)
    ensures var first := Read(data, c, ReadAll).value;
      var second := Read(data, first.next, ReadAll).value;
      Pending(data, second.next) == []
      && first.encoded + second.encoded == Encode(Pending(data, c))
  {
    var p := Pending(data, c);
    ReadAllEmptiesHandle(data, c);
    ReadAllFlushesCarry(data, Read(data, c, ReadAll).value.next);
    if |p| <= 3 {
      assert p[..|p|] == p;
    } else {
      EncodeSplit(p, |p| - |p| % 3);
    }
  }

  /** What a loop of `read(size)` calls concatenates, up to the first empty
      chunk. */
  function ReadLoop(data: seq<byte>, c: Cursor, size: int): (out: seq<byte>)
    requires Valid(data, c) && Accepted(size)
    decreases |Pending(data, c)|
  {
    var o := Read(data, c, size).value;
    if o.encoded == [] then [] else o.encoded + ReadLoop(data, o.next, size)
  }

  /** A successful `read` returns the front of the encoding of what is
      pending: its chunk followed by the encoding of what stays pending is
      the encoding of what was pending. */
  lemma ReadPrefixesEncoding(data: seq<byte>, c: Cursor, size: int)
    requires Valid(data, c) && Read(data, c, size).Ok?
    ensures var o := Read(data, c, size).value;
      o.encoded + Encode(Pending(data, o.next)) == Encode(Pending(data, c))
  {
    var o := Read(data, c, size).value;
    var before := Pending(data, c);
    var after := Pending(data, o.next);
    var used := Consumed(before, after);
    ReadSplitsPending(data, c, size);
    if |used| % 3 == 0 {
      EncodeAppend(used, after);
    } else {
      assert after == [] && before == used;
    }
  }

  /** A non-empty chunk leaves fewer bytes pending; an empty one means none
      were. */
  lemma ReadAdvances(data: seq<byte>, c: Cursor, size: int)
    requires Valid(data, c) && Accepted(size)
    ensures var o := Read(data, c, size).value;
      && (o.encoded == [] <==> Pending(data, c) == [])
      && (o.encoded != [] ==> |Pending(data, o.next)| < |Pending(data, c)|)
  {
    ReadSplitsPending(data, c, size);
    ReadEmptyIffExhausted(data, c, size);
  }

  /** One round of the loop: if the rest of the loop encodes what is pending
      after this `read`, the whole loop encodes what is pending before it. */
  lemma ReadLoopStep(data: seq<byte>, c: Cursor, size: int)
    requires Valid(data, c) && Accepted(size)
    requires var next := Read(data, c, size).value.next;
      ReadLoop(data, next, size) == Encode(Pending(data, next))
    ensures ReadLoop(data, c, size) == Encode(Pending(data, c))
  {
    ReadPrefixesEncoding(data, c, size);
    ReadAdvances(data, c, size);
  }

  /** Reading until an empty chunk yields exactly the base64 encoding of the
      pending bytes, whatever accepted size is used. */
  lemma {:induction false} ReadLoopEncodesPending(data: seq<byte>, c: Cursor, size: int)
    requires Valid(data, c) && Accepted(size)
    ensures ReadLoop(data, c, size) == Encode(Pending(data, c))
    decreases |Pending(data, c)|
  {
    var o := Read(data, c, size).value;
    ReadAdvances(data, c, size);
    if o.encoded != [] {
      ReadLoopEncodesPending(data, o.next, size);
      ReadLoopStep(data, c, size);
    } else {
      assert Pending(data, c) == [];
    }
  }

  /** A fresh stream over `data` read until an empty chunk gives the encoding
      of all of `data`, and so does every accepted size. */
  lemma ReadLoopEncodesInput(data: seq<byte>, size: int)
    requires Accepted(size)
    ensures ReadLoop(data, Cursor([], 0), size) == Encode(data)
  {
    ReadLoopEncodesPending(data, Cursor([], 0), size);
    assert Pending(data, Cursor([], 0)) == data;
  }

  /** The concatenated output does not depend on the chunk size. */
  lemma ReadLoopSizeIndependent(data: seq<byte>, c: Cursor, size1: int, size2: int)
    requires Valid(data, c) && Accepted(size1) && Accepted(size2)
    ensures ReadLoop(data, c, size1) == ReadLoop(data, c, size2)
  {
    ReadLoopEncodesPending(data, c, size1);
    ReadLoopEncodesPending(data, c, size2);
  }

  /** What `seek` reports and the state it leaves. */
  datatype Sought = Sought(position: nat, next: Cursor)

  /** One call of `seek(target, whence)`: only the start and the end of the
      handle are reachable; the start also drops the carry. */
  function Seek(data: seq<byte>, c: Cursor, target: int, whence: int): (r: Result<Sought>)
    requires Valid(data, c)
    ensures r.Ok? <==> target == 0 && (whence == 0 || whence == 2)
    ensures r.Err? ==> r.error == SeekToMiddle
    ensures r.Ok? ==> Valid(data, r.value.next) && r.value.position == r.value.next.pos
    ensures r.Ok? && whence == 0 ==> r.value.next.carry == [] && Pending(data, r.value.next) == data
    ensures r.Ok? && whence == 2 ==> r.value.next == Cursor(c.carry, |data|)
  {
    if target == 0 && whence == 0 then Ok(Sought(0, Cursor([], 0)))
    else if target == 0 && whence == 2 then Ok(Sought(|data|, Cursor(c.carry, |data|)))
    else Err(SeekToMiddle)
  }

  /** After a seek to the start, reading until an empty chunk reproduces the
      whole encoding from the first byte, whatever was carried before. */
  lemma SeekStartRestarts(data: seq<byte>, c: Cursor, size: int)
    requires Valid(data, c) && Accepted(size)
    ensures ReadLoop(data, Seek(data, c, 0, 0).value.next, size) == Encode(data)
  {
    var next := Seek(data, c, 0, 0).value.next;
    ReadLoopEncodesPending(data, next, size);
  }

  /** `tell()`: the raw position scaled by 4/3 and rounded up to a multiple
      of 4, that is the smallest multiple of 4 at or past 4/3 of it. */
  function EncodedPosition(raw: nat): (p: nat)
    ensures p % 4 == 0 && 4 * raw <= 3 * p < 4 * raw + 12
  {
    4 * ((raw + 2) / 3)
  }

  /** The encoded position of a raw position is the length of the encoding
      of the bytes before it; at the end of the handle it is the length of
      the whole encoding. */
  lemma EncodedPositionIsEncodedLength(data: seq<byte>, raw: nat)
    requires raw <= |data|
    ensures EncodedPosition(raw) == |Encode(data[..raw])|
    ensures raw == |data| ==> EncodedPosition(raw) == |Encode(data)|
  {
    assert data[..|data|] == data;
  }

  /** `tell()` does not see the carry: while bytes are carried it is already
      four past the length of everything `read` has returned. */
  lemma TellCountsCarry(data: seq<byte>, c: Cursor)
    requires Valid(data, c) && |c.carry| <= c.pos && c.carry == data[c.pos - |c.carry|..c.pos]
    requires (c.pos - |c.carry|) % 3 == 0 && c.carry != []
    ensures EncodedPosition(c.pos) == |Encode(data[..c.pos - |c.carry|])| + 4
  {
    var done := c.pos - |c.carry|;
    assert (c.pos + 2) / 3 == done / 3 + 1;
  }
}
