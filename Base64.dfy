/** The base64 encoding of section 4 of RFC 4648 (standard alphabet, `=`
    padding), as `binascii.b2a_base64` produces it, together with the
    `.strip()` the stream applies to it and a decoder that serves as the
    encoder's inverse. */
module Base64 {

  /** One octet. Both the raw input and the encoded output are octets: the
      encoded output holds ASCII codes. */
  type byte = x: int | 0 <= x < 256

  /** The padding symbol `=`. */
  const Pad: byte := '=' as int

  /** The line terminator `b2a_base64` appends by default. */
  const Newline: byte := '\n' as int

  /** Table 1 of RFC 4648: the symbol that stands for a 6-bit value. */
  function Symbol(v: int): (c: byte)
    requires 0 <= v < 64
    ensures IsSymbol(c)
  {
    if v < 26 then 'A' as int + v
    else if v < 52 then 'a' as int + (v - 26)
    else if v < 62 then '0' as int + (v - 52)
    else if v == 62 then '+' as int
    else '/' as int
  }

  /** The 64 symbols of the standard alphabet. */
  predicate IsSymbol(c: byte) {
    'A' as int <= c <= 'Z' as int || 'a' as int <= c <= 'z' as int
    || '0' as int <= c <= '9' as int || c == '+' as int || c == '/' as int
  }

  /** The 6-bit value of a symbol, and 0 for anything else. */
  function SymbolValue(c: byte): (v: int)
    ensures 0 <= v < 64
    ensures IsSymbol(c) ==> Symbol(v) == c
  {
    if 'A' as int <= c <= 'Z' as int then c - 'A' as int
    else if 'a' as int <= c <= 'z' as int then c - 'a' as int + 26
    else if '0' as int <= c <= '9' as int then c - '0' as int + 52
    else if c == '+' as int then 62
    else if c == '/' as int then 63
    else 0
  }

  lemma SymbolValueOfSymbol(v: int)
    requires 0 <= v < 64
    ensures SymbolValue(Symbol(v)) == v
  {
  }

  /** The four symbols of a 24-bit input group `n`, most significant first. */
  function Quad(n: int): (q: seq<byte>)
    requires 0 <= n < 0x100_0000
  {
    [Symbol(n / 64 / 64 / 64), Symbol(n / 64 / 64 % 64), Symbol(n / 64 % 64), Symbol(n % 64)]
  }

  /** The 24-bit group made of up to three octets, zero-filled on the right. */
  function Group(a: byte, b: byte, c: byte): (n: int)
    ensures 0 <= n < 0x100_0000
  {
    a * 0x1_0000 + b * 0x100 + c
  }

  /** The base64 encoding of `s`, without a line terminator. Whole 3-octet
      groups become four symbols; a final group of one or two octets becomes
      two or three symbols followed by `==` or `=`. */
  function Encode(s: seq<byte>): (r: seq<byte>)
    ensures |r| == 4 * ((|s| + 2) / 3)
    decreases |s|
  {
    if |s| == 0 then []
    else if |s| == 1 then Quad(Group(s[0], 0, 0))[..2] + [Pad, Pad]
    else if |s| == 2 then Quad(Group(s[0], s[1], 0))[..3] + [Pad]
    else
      GroupStep(|s[3..]|);
      Quad(Group(s[0], s[1], s[2])) + Encode(s[3..])
  }

  /** The three octets that four symbols stand for. */
  function DecodeQuad(q: seq<byte>): (g: seq<byte>)
    requires |q| == 4
    ensures |g| == 3
  {
    var n := QuadValueOf(q);
    [n / 0x1_0000, n / 0x100 % 256, n % 256]
  }

  /** The inverse of `Encode`: four symbols at a time back to three octets,
      dropping the octets a final `=` or `==` stands for. */
  function Decode(e: seq<byte>): (r: seq<byte>)
    decreases |e|
  {
    if |e| < 4 then []
    else if |e| == 4 && e[2] == Pad then DecodeQuad(e)[..1]
    else if |e| == 4 && e[3] == Pad then DecodeQuad(e)[..2]
    else DecodeQuad(e[..4]) + Decode(e[4..])
  }

  /** Reading the four symbols of a group back gives the group. */
  lemma QuadValue(n: int)
    requires 0 <= n < 0x100_0000
    ensures QuadValueOf(Quad(n)) == n
  {
    var m1 := n / 64;
    var m2 := m1 / 64;
    SymbolValueOfSymbol(m2 / 64);
    SymbolValueOfSymbol(m2 % 64);
    SymbolValueOfSymbol(m1 % 64);
    SymbolValueOfSymbol(n % 64);
    assert n == 64 * m1 + n % 64;
    assert m1 == 64 * m2 + m1 % 64;
    assert m2 == 64 * (m2 / 64) + m2 % 64;
  }

  /** The three octets of a group are recovered from its 24-bit value. */
  lemma GroupOctets(a: byte, b: byte, c: byte)
    ensures var n := Group(a, b, c);
      n / 0x1_0000 == a && n / 0x100 % 256 == b && n % 256 == c
  {
    var n := Group(a, b, c);
    var low := b * 0x100 + c;
    assert n == a * 0x1_0000 + low && 0 <= low < 0x1_0000;
    assert n / 0x1_0000 == a;
    var mid := a * 0x100 + b;
    assert n == mid * 0x100 + c && 0 <= c < 0x100;
    assert n / 0x100 == mid;
    assert mid % 256 == b;
    assert n % 256 == c;
  }

  /** Decoding the four symbols of a group gives back its three octets. */
  lemma DecodeQuadOfGroup(a: byte, b: byte, c: byte)
    ensures DecodeQuad(Quad(Group(a, b, c))) == [a, b, c]
  {
    var n := Group(a, b, c);
    var q := Quad(n);
    QuadValue(n);
    GroupOctets(a, b, c);
    var m := QuadValueOf(q);
    assert m == n;
    assert DecodeQuad(q) == [m / 0x1_0000, m / 0x100 % 256, m % 256];
  }

  /** The 24-bit value that `DecodeQuad` reads from four symbols. */
  function QuadValueOf(q: seq<byte>): int
    requires |q| == 4
  {
    SymbolValue(q[0]) * 0x4_0000 + SymbolValue(q[1]) * 0x1000
    + SymbolValue(q[2]) * 64 + SymbolValue(q[3])
  }

  lemma MultipleOf64(k: int)
    ensures (64 * k) / 64 == k && (64 * k) % 64 == 0
  {
  }

  /** The same for a final group of two octets, whose last symbol is `=`. */
  lemma DecodeQuadOfPair(a: byte, b: byte)
    ensures DecodeQuad(Quad(Group(a, b, 0))[..3] + [Pad])[..2] == [a, b]
  {
    var n := Group(a, b, 0);
    var q := Quad(n);
    var p := q[..3] + [Pad];
    DecodeQuadOfGroup(a, b, 0);
    MultipleOf64(1024 * a + 4 * b);
    SymbolValueOfSymbol(0);
    assert p[0] == q[0] && p[1] == q[1] && p[2] == q[2] && p[3] == Pad;
    assert QuadValueOf(p) == QuadValueOf(q);
    assert DecodeQuad(p) == [a, b, 0];
  }

  /** The same for a final group of one octet, whose last two symbols are `==`. */
  lemma DecodeQuadOfSingle(a: byte)
    ensures DecodeQuad(Quad(Group(a, 0, 0))[..2] + [Pad, Pad])[..1] == [a]
  {
    var n := Group(a, 0, 0);
    var q := Quad(n);
    var p := q[..2] + [Pad, Pad];
    DecodeQuadOfGroup(a, 0, 0);
    MultipleOf64(64 * (16 * a));
    MultipleOf64(16 * a);
    SymbolValueOfSymbol(0);
    assert p[0] == q[0] && p[1] == q[1] && p[2] == Pad && p[3] == Pad;
    assert QuadValueOf(p) == QuadValueOf(q);
    assert DecodeQuad(p) == [a, 0, 0];
  }

  /** Decoding undoes encoding of a final group of one octet. */
  lemma DecodeEncodeSingle(a: byte)
    ensures Decode(Encode([a])) == [a]
  {
    var p := Quad(Group(a, 0, 0))[..2] + [Pad, Pad];
    assert Encode([a]) == p;
    DecodeQuadOfSingle(a);
    assert Decode(p) == DecodeQuad(p)[..1];
  }

  /** Decoding undoes encoding of a final group of two octets. */
  lemma DecodeEncodePair(a: byte, b: byte)
    ensures Decode(Encode([a, b])) == [a, b]
  {
    var q := Quad(Group(a, b, 0));
    var p := q[..3] + [Pad];
    assert Encode([a, b]) == p;
    DecodeQuadOfPair(a, b);
    assert p[2] == q[2] && !IsSymbol(Pad);
    assert Decode(p) == DecodeQuad(p)[..2];
  }

  lemma SplitGroup(s: seq<byte>)
    requires |s| >= 3
    ensures s == [s[0], s[1], s[2]] + s[3..]
  {
  }

  lemma QuadHasNoPad(n: int)
    requires 0 <= n < 0x100_0000
    ensures Quad(n)[2] != Pad && Quad(n)[3] != Pad
  {
    assert IsSymbol(Quad(n)[2]) && IsSymbol(Quad(n)[3]);
  }

  /** `Decode` takes four symbols without padding off the front. */
  lemma DecodeFront(q: seq<byte>, rest: seq<byte>)
    requires |q| == 4 && q[2] != Pad && q[3] != Pad
    ensures Decode(q + rest) == DecodeQuad(q) + Decode(rest)
  {
    var e := q + rest;
    assert e[..4] == q && e[4..] == rest;
  }

  /** Decoding undoes encoding of a leading whole group. */
  lemma DecodeEncodeGroup(s: seq<byte>)
    requires |s| >= 3 && Decode(Encode(s[3..])) == s[3..]
    ensures Decode(Encode(s)) == s
  {
    SplitGroup(s);
    var q := Quad(Group(s[0], s[1], s[2]));
    QuadHasNoPad(Group(s[0], s[1], s[2]));
    assert Encode(s) == q + Encode(s[3..]);
    DecodeFront(q, Encode(s[3..]));
    DecodeQuadOfGroup(s[0], s[1], s[2]);
  }

  /** Decoding undoes encoding, for every input. */
  lemma {:induction false} DecodeEncode(s: seq<byte>)
    ensures Decode(Encode(s)) == s
    decreases |s|
  {
    if |s| == 0 {
    } else if |s| == 1 {
      assert s == [s[0]];
      DecodeEncodeSingle(s[0]);
    } else if |s| == 2 {
      assert s == [s[0], s[1]];
      DecodeEncodePair(s[0], s[1]);
    } else {
      DecodeEncode(s[3..]);
      DecodeEncodeGroup(s);
    }
  }

  /** Encoding is compatible with concatenation at a group boundary: what the
      stream emits chunk by chunk is what `Encode` emits at once. */
  lemma {:induction false} EncodeAppend(a: seq<byte>, b: seq<byte>)
    requires |a| % 3 == 0
    ensures Encode(a + b) == Encode(a) + Encode(b)
    decreases |a|
  {
    if |a| == 0 {
      assert a + b == b;
    } else {
      assert (a + b)[0] == a[0] && (a + b)[1] == a[1] && (a + b)[2] == a[2];
      assert (a + b)[3..] == a[3..] + b;
      EncodeAppend(a[3..], b);
    }
  }

  /** Cutting the input after a whole number of groups cuts the encoding
      at the matching quad. */
  lemma EncodeSplit(s: seq<byte>, cut: int)
    requires 0 <= cut <= |s| && cut % 3 == 0
    ensures Encode(s[..cut]) + Encode(s[cut..]) == Encode(s)
  {
    assert s == s[..cut] + s[cut..];
    EncodeAppend(s[..cut], s[cut..]);
  }

  lemma GroupStep(k: int)
    ensures (k + 3) % 3 == k % 3 && (k + 3 + 2) / 3 == (k + 2) / 3 + 1
  {
  }

  /** The first `k` octets of `r` are symbols of the alphabet. */
  predicate SymbolsUpTo(r: seq<byte>, k: int)
    requires k <= |r|
  {
    forall i :: 0 <= i < k ==> IsSymbol(r[i])
  }

  lemma SymbolsUpToAppend(q: seq<byte>, t: seq<byte>, k: int)
    requires SymbolsUpTo(q, |q|) && k <= |t| && SymbolsUpTo(t, k)
    ensures SymbolsUpTo(q + t, |q| + k)
  {
    forall i | 0 <= i < |q| + k
      ensures IsSymbol((q + t)[i])
    {
      if i >= |q| {
        assert (q + t)[i] == t[i - |q|];
      }
    }
  }

  /** Every octet of an encoding is a symbol except the final padding. */
  lemma {:induction false} EncodeSymbols(s: seq<byte>)
    ensures var r := Encode(s);
      SymbolsUpTo(r, if |s| % 3 == 0 then |r| else |r| - 2)
    decreases |s|
  {
    var r := Encode(s);
    if |s| >= 3 {
      var t := Encode(s[3..]);
      var q := Quad(Group(s[0], s[1], s[2]));
      EncodeSymbols(s[3..]);
      assert r == q + t;
      GroupStep(|s[3..]|);
      assert SymbolsUpTo(q, 4);
      SymbolsUpToAppend(q, t, if |s| % 3 == 0 then |t| else |t| - 2);
    } else if |s| > 0 {
      assert SymbolsUpTo(r, |r| - 2);
    }
  }

  /** A final group of one or two octets is two or three symbols followed by
      `==` or `=`. */
  lemma EncodeTail(t: seq<byte>)
    requires 1 <= |t| <= 2
    ensures var e := Encode(t);
      && |e| == 4 && IsSymbol(e[0]) && IsSymbol(e[1])
      && (|t| == 2 ==> IsSymbol(e[2]))
      && e[3] == Pad && (e[2] == Pad <==> |t| == 1)
  {
    var e := Encode(t);
    if |t| == 1 {
      var q := Quad(Group(t[0], 0, 0));
      assert e == q[..2] + [Pad, Pad];
      assert e[0] == q[0] && IsSymbol(q[0]);
      assert e[1] == q[1] && IsSymbol(q[1]);
    } else {
      var q := Quad(Group(t[0], t[1], 0));
      assert e == q[..3] + [Pad];
      assert e[0] == q[0] && IsSymbol(q[0]);
      assert e[1] == q[1] && e[2] == q[2] && IsSymbol(q[2]);
      assert !IsSymbol(Pad);
    }
  }

  /** The padding is `=` when one octet of the last group is missing and
      `==` when two are, and a symbol comes before it. */
  lemma EncodeEnding(s: seq<byte>)
    requires |s| % 3 != 0
    ensures var r := Encode(s);
      r[|r| - 1] == Pad && (r[|r| - 2] == Pad <==> |s| % 3 == 1) && IsSymbol(r[|r| - 3])
  {
    var k := |s| - |s| % 3;
    EncodeSplit(s, k);
    var head := Encode(s[..k]);
    var e := Encode(s[k..]);
    EncodeTail(s[k..]);
    var r := head + e;
    assert r[|r| - 1] == e[3] && r[|r| - 2] == e[2] && r[|r| - 3] == e[1];
  }

  /** There is padding exactly when the input is not made of whole groups. */
  lemma PadIffPartialGroup(s: seq<byte>)
    ensures Pad in Encode(s) <==> |s| % 3 != 0
  {
    var r := Encode(s);
    EncodeSymbols(s);
    assert !IsSymbol(Pad);
    if |s| % 3 != 0 {
      EncodeEnding(s);
      assert r[|r| - 1] == Pad;
    }
  }

  /** Python's `bytes.strip()` with no argument: ASCII whitespace removed at
      both ends. */
  predicate IsWhitespace(c: byte) {
    c == ' ' as int || c == '\t' as int || c == '\n' as int
    || c == '\r' as int || c == 0x0b || c == 0x0c
  }

  function StripLeft(s: seq<byte>): (r: seq<byte>)
    ensures |r| <= |s| && r == s[|s| - |r|..]
    ensures r == [] || !IsWhitespace(r[0])
    ensures forall i :: 0 <= i < |s| - |r| ==> IsWhitespace(s[i])
  {
    if s != [] && IsWhitespace(s[0]) then StripLeft(s[1..]) else s
  }

  function StripRight(s: seq<byte>): (r: seq<byte>)
    ensures |r| <= |s| && r == s[..|r|]
    ensures r == [] || !IsWhitespace(r[|r| - 1])
    ensures forall i :: |r| <= i < |s| ==> IsWhitespace(s[i])
  {
    if s != [] && IsWhitespace(s[|s| - 1]) then StripRight(s[..|s| - 1]) else s
  }

  function Strip(s: seq<byte>): (r: seq<byte>)
  {
    StripLeft(StripRight(s))
  }

  /** `binascii.b2a_base64(s)`: the encoding followed by a newline. */
  function B2aBase64(s: seq<byte>): (r: seq<byte>)
  {
    Encode(s) + [Newline]
  }

  /** A line of symbols, possibly padded, loses only its newline to `strip`. */
  lemma StripLine(e: seq<byte>)
    requires e != [] ==> IsSymbol(e[0]) && (IsSymbol(e[|e| - 1]) || e[|e| - 1] == Pad)
    ensures Strip(e + [Newline]) == e
  {
    var line := e + [Newline];
    assert line[..|line| - 1] == e;
    assert StripRight(line) == StripRight(e);
    if e != [] {
      assert !IsWhitespace(e[|e| - 1]) && !IsWhitespace(e[0]);
      assert StripRight(e) == e;
      assert StripLeft(e) == e;
    }
  }

  /** The stream's `b2a_base64(data).strip()` is exactly the encoding. */
  lemma StripB2aBase64(s: seq<byte>)
    ensures Strip(B2aBase64(s)) == Encode(s)
  {
    var e := Encode(s);
    EncodeSymbols(s);
    if |s| % 3 != 0 {
      EncodeEnding(s);
    }
    if e != [] {
      assert IsSymbol(e[0]);
      assert |s| % 3 == 0 ==> IsSymbol(e[|e| - 1]);
    }
    StripLine(e);
  }
}
