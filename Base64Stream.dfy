/** The `Base64Stream` wrapper itself: a file-like object over a handle whose
    `read` returns the base64 encoding of the handle's bytes, a few at a time.
    Each method keeps the branches of the Python code and is proved against
    the state machine of `StreamModel`. */
module Base64Streams {
  import opened Base64
  import opened ByteSource
  import opened StreamModel

  /** Python's float `pos % 4`: the remainder takes the sign of the
      modulus, so it lies in [0, 4). */
  function FloatModFour(x: real): (r: real)
    ensures 0.0 <= r < 4.0
    ensures (x - r) / 4.0 == ((x - r) / 4.0).Floor as real
  {
    x - 4.0 * (x / 4.0).Floor as real
  }

  /** `raw * 4 / 3` splits into `4 * (raw / 3)` and a remainder of
      `4 * (raw % 3) / 3`, which is 0, 4/3 or 8/3. */
  lemma ThirdsSplit(raw: nat)
    ensures raw as real * 4.0 / 3.0
      == (4 * (raw / 3)) as real + (4 * (raw % 3)) as real / 3.0
  {
    assert raw == 3 * (raw / 3) + raw % 3;
    assert raw as real == 3.0 * (raw / 3) as real + (raw % 3) as real;
  }

  /** The float steps of `tell`: `raw * 4 / 3`, rounded up to a multiple of
      4 when it is not one, truncated to an integer, is four symbols for
      every group of three raw bytes begun. */
  lemma RoundUpThirds(raw: nat)
    ensures var x := raw as real * 4.0 / 3.0;
      var up := if FloatModFour(x) != 0.0 then x + (4.0 - FloatModFour(x)) else x;
      up.Floor == EncodedPosition(raw)
  {
    var x := raw as real * 4.0 / 3.0;
    var q := raw / 3;
    var w := (4 * (raw % 3)) as real / 3.0;
    ThirdsSplit(raw);
    assert x == (4 * q) as real + w && 0.0 <= w < 4.0;
    var f := (x / 4.0).Floor;
    assert x / 4.0 == q as real + w / 4.0;
    assert f == q;
    assert FloatModFour(x) == w;
    if raw % 3 == 0 {
      assert w == 0.0;
      assert EncodedPosition(raw) == 4 * q;
    } else {
      assert w != 0.0;
      assert EncodedPosition(raw) == 4 * q + 4;
    }
  }

  class Base64Stream {
    const fileHandle: FileHandle
    /** The raw bytes drawn from the handle but not yet encoded. */
    var readBuffer: seq<byte>

    ghost predicate Valid()
      reads this, fileHandle
    {
      fileHandle.Valid() && |readBuffer| < 3
    }

    /** The stream's state as `StreamModel` sees it. */
    ghost function State(): (c: Cursor)
      reads this, fileHandle
      requires Valid()
      ensures StreamModel.Valid(fileHandle.data, c)
    {
      Cursor(readBuffer, fileHandle.pos)
    }

    /** A new stream starts with nothing carried and does not move the
        handle. */
    constructor (fileHandle: FileHandle)
      requires fileHandle.Valid()
      ensures Valid() && this.fileHandle == fileHandle
      ensures State() == Cursor([], old(fileHandle.pos))
    {
      this.fileHandle := fileHandle;
      readBuffer := [];
    }

    /** `seek(0, 0)` drops the carry and rewinds the handle, `seek(0, 2)`
        keeps the carry and moves the handle to its end; anything else
        raises `ValueError` and changes nothing. */
    method Seek(target: int, whence: int) returns (r: Result<nat>)
      requires Valid()
      modifies this, fileHandle
      ensures Valid()
      ensures match StreamModel.Seek(fileHandle.data, old(State()), target, whence)
        case Ok(s) => r == Ok(s.position) && State() == s.next
        case Err(e) => r == Err(e) && State() == old(State())
    {
      if target == 0 && whence == 0 {
        readBuffer := [];
      } else if target == 0 && whence == 2 {
      } else {
        return Err(SeekToMiddle);
      }
      var p := fileHandle.Seek(target, whence);
      r := Ok(p);
    }

    /** The position in the encoded output: four symbols for every group of
        three raw bytes begun, computed as the Python code does, with a
        division by 3 and a round-up to a multiple of 4. */
    method Tell() returns (p: int)
      requires Valid()
      ensures p == EncodedPosition(fileHandle.pos)
      ensures p == |Encode(fileHandle.data[..fileHandle.pos])|
    {
      var raw := fileHandle.Tell();
      var pos: real := raw as real * 4.0 / 3.0;
      RoundUpThirds(raw);
      if FloatModFour(pos) != 0.0 {
        pos := pos + (4.0 - FloatModFour(pos));
      }
      p := pos.Floor;
      EncodedPositionIsEncodedLength(fileHandle.data, raw);
    }

    /** `read(size)`: 0 returns nothing; a size other than -1 below 4 raises
        `ValueError`; otherwise the carry and the bytes drawn from the handle
        are encoded up to the last whole group, and the rest is carried. */
    method Read(size: int) returns (r: Result<seq<byte>>)
      requires Valid()
      modifies this, fileHandle
      ensures Valid()
      ensures match StreamModel.Read(fileHandle.data, old(State()), size)
        case Ok(o) => r == Ok(o.encoded) && State() == o.next
        case Err(e) => r == Err(e) && State() == old(State())
    {
      if size == 0 {
        return Ok([]);
      }
      var readSize: int;
      if size == ReadAll {
        readSize := -1;
      } else {
        if size < MinReadSize {
          return Err(SizeTooSmall);
        }
        readSize := (size - |readBuffer|) * 3 / 4;
      }
      var drawn := fileHandle.Read(readSize);
      var encoded := EncodeWholeGroups(readBuffer + drawn);
      r := Ok(encoded);
    }

    /** The second half of `read`: of the carry and the bytes just drawn,
        encode up to the last whole group and carry the rest, except that at
        most three bytes, or no new ones, are all encoded. */
    method EncodeWholeGroups(inHand: seq<byte>) returns (encoded: seq<byte>)
      requires |readBuffer| < 3 && |readBuffer| <= |inHand|
      modifies this
      ensures var cut := |inHand| - Kept(|inHand|);
        encoded == Encode(inHand[..cut]) && readBuffer == inHand[cut..]
    {
      var data := inHand;
      var lenData := |data|;
      ghost var cut := lenData - Kept(lenData);
      if lenData == 0 {
        assert inHand[..cut] == [];
        return [];
      }
      if lenData == |readBuffer| {
        readBuffer := [];
        assert cut == lenData;
      } else if lenData <= 3 {
        readBuffer := [];
        assert cut == lenData;
      } else {
        var extraData := -1 * (lenData % 3);
        if extraData != 0 {
          assert cut == lenData + extraData;
          readBuffer := data[lenData + extraData..];
          data := data[..lenData + extraData];
        } else {
          readBuffer := [];
          assert cut == lenData;
        }
      }
      assert data == inHand[..cut] && readBuffer == inHand[cut..];
      StripB2aBase64(data);
      encoded := Strip(B2aBase64(data));
    }

    /** `readinto(buffer)`: reads with the buffer's length as the size and
        copies the chunk to the front of the buffer, leaving the rest of it
        as it was; returns the chunk's length. */
    method ReadInto(buffer: array<byte>) returns (r: Result<nat>)
      requires Valid()
      modifies this, fileHandle, buffer
      ensures Valid()
      ensures match StreamModel.Read(fileHandle.data, old(State()), buffer.Length)
        case Ok(o) =>
          && r == Ok(|o.encoded|) && State() == o.next
          && |o.encoded| <= buffer.Length
          && buffer[..|o.encoded|] == o.encoded
          && buffer[|o.encoded|..] == old(buffer[|o.encoded|..])
        case Err(e) => r == Err(e) && State() == old(State()) && buffer[..] == old(buffer[..])
    {
      var size := buffer.Length;
      if size >= MinReadSize {
        ReadWithinSize(fileHandle.data, State(), size);
      }
      var data := Read(size);
      if data.Err? {
        return Err(data.error);
      }
      var readSize := |data.value|;
      ghost var before := buffer[..];
      forall i | 0 <= i < readSize {
        buffer[i] := data.value[i];
      }
      assert buffer[..readSize] == data.value;
      assert buffer[readSize..] == before[readSize..];
      r := Ok(readSize);
    }
  }
}
