/**
 The Base64 codec of srcs/toolbox/b64.c, against the encoding of section 4 of RFC 4648: each three
 bytes are a number of 24 bits, written as four digits in base 64.
 */
module Base64 {
  import opened Wrappers

  type Byte = x: int | 0 <= x < 256

  // ---------- The alphabet ----------

  const UPPER := "ABCDEFGHIJKLMNOPQRSTUVWXYZ"
  const LOWER := "abcdefghijklmnopqrstuvwxyz"
  const OTHER := "0123456789+/"
  const E: string := UPPER + LOWER + OTHER

  const PAD := '='

  /** The table D: one more than the place of a character in E, 0 for every other character. */
  function D(c: char): (v: nat)
    ensures v <= 64
  {
    if 'A' <= c <= 'Z' then c as int - 'A' as int + 1
    else if 'a' <= c <= 'z' then c as int - 'a' as int + 27
    else if '0' <= c <= '9' then c as int - '0' as int + 53
    else if c == '+' then 63
    else if c == '/' then 64
    else 0
  }

  predicate IsBase64(c: char) { D(c) > 0 }

  /** val; it is of type size_t, and -1 stands for the largest one, all of whose bits are set. */
  function Val(c: char): (v: int)
    ensures -1 <= v < 64
  {
    D(c) - 1
  }

  lemma UpperPlaces()
    ensures |UPPER| == 26 && forall i :: 0 <= i < 26 ==> D(UPPER[i]) == i + 1
  {
  }

  lemma LowerPlaces()
    ensures |LOWER| == 26 && forall i :: 0 <= i < 26 ==> D(LOWER[i]) == i + 27
  {
  }

  lemma OtherPlaces()
    ensures |OTHER| == 12 && forall i :: 0 <= i < 12 ==> D(OTHER[i]) == i + 53
  {
  }

  /** D looks up what E holds. */
  lemma TablesAgree()
    ensures |E| == 64 && forall i :: 0 <= i < 64 ==> D(E[i]) == i + 1
  {
    hide D;
    UpperPlaces();
    LowerPlaces();
    OtherPlaces();
  }

  /** Table 1 of RFC 4648: the letters in both cases, the figures, "+" and "/", in this order */
  lemma AlphabetIs(v: nat)
    requires v < 64
    ensures |E| == 64
    ensures v < 26 ==> E[v] == 'A' + v as char
    ensures 26 <= v < 52 ==> E[v] == 'a' + (v - 26) as char
    ensures 52 <= v < 62 ==> E[v] == '0' + (v - 52) as char
    ensures E[62] == '+' && E[63] == '/'
  {
    TablesAgree();
    assert D(E[v]) == v + 1 && D(E[62]) == 63 && D(E[63]) == 64;
  }

  /** No other character is in the alphabet. */
  lemma InAlphabet(c: char)
    ensures IsBase64(c) <==> c in E
  {
    TablesAgree();
    if IsBase64(c) {
      DIsInjective(c, E[D(c) - 1]);
    }
  }

  /** The character for a digit, and back */
  function Digit(v: nat): (c: char)
    requires v < 64
    ensures Val(c) == v && IsBase64(c) && c != PAD
  {
    TablesAgree();
    E[v]
  }

  lemma DIsInjective(c: char, d: char)
    requires D(c) == D(d) > 0
    ensures c == d
  {
  }

  // ---------- RFC 4648, section 4 ----------

  /** Three bytes as a number of 24 bits */
  function Bits(a: Byte, b: Byte, c: Byte): (n: nat)
    ensures n < 0x100_0000
  {
    (a * 256 + b) * 256 + c
  }

  /** The digits of a group of one, two or three bytes, filled up with zero bits and padded */
  function Group(b: seq<Byte>): (s: string)
    requires 1 <= |b| <= 3
    ensures |s| == 4
  {
    var n := Bits(b[0], if |b| > 1 then b[1] else 0, if |b| > 2 then b[2] else 0);
    [Digit(n / 0x4_0000), Digit(n / 0x1000 % 64),
     if |b| > 1 then Digit(n / 64 % 64) else PAD, if |b| > 2 then Digit(n % 64) else PAD]
  }

  /** The next group of bytes */
  function Head(b: seq<Byte>): (h: seq<Byte>)
    requires b != []
    ensures 1 <= |h| <= 3 && |h| <= |b| && |h| == Min(3, |b|)
  {
    b[..Min(3, |b|)]
  }

  /** The encoding of any bytes */
  function Encoded(b: seq<Byte>): string {
    if b == [] then "" else Group(Head(b)) + Encoded(b[|Head(b)|..])
  }

  /** U_B64_LENGTH */
  /** Test vectors of section 10 of RFC 4648: "f", "fo", "foo" and "foobar" */
  lemma TestVectors()
    ensures Encoded([102]) == "Zg==" && Encoded([102, 111]) == "Zm8=" && Encoded([102, 111, 111]) == "Zm9v"
    ensures Encoded([102, 111, 111, 98, 97, 114]) == "Zm9vYmFy"
  {
    hide Group;
    var foo: seq<Byte>, bar: seq<Byte> := [102, 111, 111], [98, 97, 114];
    ShortVectors();
    LongVectors();
    OneGroup([102]);
    OneGroup([102, 111]);
    OneGroup(foo);
    OneGroup(bar);
    assert (foo + bar)[..3] == foo && (foo + bar)[3..] == bar && foo + bar == [102, 111, 111, 98, 97, 114];
  }

  lemma ShortVectors()
    ensures Group([102]) == "Zg==" && Group([102, 111]) == "Zm8="
  {
    var f, fo := Bits(102, 0, 0), Bits(102, 111, 0);
    assert f / 0x4_0000 == fo / 0x4_0000 == 25 && f / 0x1000 % 64 == 32 && fo / 0x1000 % 64 == 38 && fo / 64 % 64 == 60;
    Letters(25, 32, 38, 60);
  }

  lemma LongVectors()
    ensures Group([102, 111, 111]) == "Zm9v" && Group([98, 97, 114]) == "YmFy"
  {
    hide Group;
    VectorFoo();
    VectorBar();
  }

  lemma VectorFoo()
    ensures Group([102, 111, 111]) == "Zm9v"
  {
    var foo := Bits(102, 111, 111);
    assert foo / 0x4_0000 == 25 && foo / 0x1000 % 64 == 38 && foo / 64 % 64 == 61 && foo % 64 == 47;
    Letters(25, 38, 61, 47);
  }

  lemma VectorBar()
    ensures Group([98, 97, 114]) == "YmFy"
  {
    var bar := Bits(98, 97, 114);
    assert bar / 0x4_0000 == 24 && bar / 0x1000 % 64 == 38 && bar / 64 % 64 == 5 && bar % 64 == 50;
    Letters(24, 38, 5, 50);
  }

  lemma Letters(a: nat, b: nat, c: nat, d: nat)
    requires a < 64 && b < 64 && c < 64 && d < 64
    ensures [Digit(a), Digit(b), Digit(c), Digit(d)] == [E[a], E[b], E[c], E[d]]
    ensures forall v :: v in {a, b, c, d} ==>
      E[v] == if v < 26 then 'A' + v as char else if v < 52 then 'a' + (v - 26) as char
              else if v < 62 then '0' + (v - 52) as char else if v == 62 then '+' else '/'
  {
    hide D;
    AlphabetIs(a);
    AlphabetIs(b);
    AlphabetIs(c);
    AlphabetIs(d);
  }

  lemma OneGroup(b: seq<Byte>)
    requires 1 <= |b| <= 3
    ensures Encoded(b) == Group(b)
  {
    assert b[..|b|] == b && b[|b|..] == [] && Group(b) + "" == Group(b);
  }

  lemma {:induction false} EncodedLength(b: seq<Byte>)
    ensures |Encoded(b)| == (|b| + 2) / 3 * 4
    decreases |b|
  {
    if |b| > 3 {
      EncodedLength(b[3..]);
      assert (|b| - 3 + 2) / 3 == (|b| + 2) / 3 - 1;
    } else if b != [] {
      assert Encoded(b[|b|..]) == "";
      assert (|b| + 2) / 3 == 1;
    }
  }

  // ---------- Encoding ----------

  /** The digits of a group by shifts and masks */
  lemma GroupIs(b: seq<Byte>)
    requires 1 <= |b| <= 3
    ensures var x, y, z := b[0], if |b| > 1 then b[1] else 0, if |b| > 2 then b[2] else 0;
            Group(b) == [Digit(x / 4), Digit(x % 4 * 16 + y / 16),
                         if |b| > 1 then Digit(y % 16 * 4 + z / 64) else PAD, if |b| > 2 then Digit(z % 64) else PAD]
  {
    hide Bits, Digit;
    ShiftsAreDigits(b[0], if |b| > 1 then b[1] else 0, if |b| > 2 then b[2] else 0);
  }

  /** chunk_encode */
  method ChunkEncode(a: Byte, b: Byte, c: Byte, len: nat) returns (out: string)
    requires 1 <= len <= 3
    requires (len < 3 ==> c == 0) && (len < 2 ==> b == 0)
    ensures out == Group([a, b, c][..len])
  {
    hide Group, Digit, Bits;
    GroupIs([a, b, c][..len]);
    out := [Digit(a / 4), Digit(a % 4 * 16 + b / 16),
            if len > 1 then Digit(b % 16 * 4 + c / 64) else PAD, if len > 2 then Digit(c % 64) else PAD];
  }

  lemma ShiftsAreDigits(a: Byte, b: Byte, c: Byte)
    ensures var n := Bits(a, b, c);
            && n / 0x4_0000 == a / 4 && n / 0x1000 % 64 == a % 4 * 16 + b / 16
            && n / 64 % 64 == b % 16 * 4 + c / 64 && n % 64 == c % 64
  {
    Halves(a, 4, 64);
    Halves(b, 16, 16);
    Halves(c, 64, 4);
    Digits(a / 4, a % 4 * 16 + b / 16, b % 16 * 4 + c / 64, c % 64);
  }

  lemma Halves(x: Byte, d: nat, e: nat)
    requires d * e == 256 && d > 0 && e > 0
    ensures x / d * d + x % d == x && 0 <= x / d < e
  {
    var q := x / d;
    assert q * d + x % d == x;
    assert q >= e ==> q * d >= e * d;
  }

  lemma Quotient(a: nat, d: nat, r: nat)
    requires r < d
    ensures (a * d + r) / d == a && (a * d + r) % d == r
  {
    var n := a * d + r;
    var q, m := n / d, n % d;
    Times(a, d, q);
    assert q * d + m == n;
  }

  lemma Times(a: nat, d: nat, q: nat)
    ensures q < a ==> q * d + d <= a * d
    ensures q > a ==> q * d >= a * d + d
  {
    if q < a {
      NotLess(q + 1, a, d);
    } else if q > a {
      NotLess(a + 1, q, d);
    }
  }

  lemma {:induction false} NotLess(x: nat, y: nat, d: nat)
    requires x <= y
    ensures x * d <= y * d
    decreases y
  {
    if x < y {
      NotLess(x, y - 1, d);
    }
  }

  /** The digits of a number in base 64 */
  lemma Digits(d3: nat, d2: nat, d1: nat, d0: nat)
    requires d2 < 64 && d1 < 64 && d0 < 64
    ensures var n := d3 * 0x4_0000 + d2 * 0x1000 + d1 * 64 + d0;
            n / 0x4_0000 == d3 && n / 0x1000 % 64 == d2 && n / 64 % 64 == d1 && n % 64 == d0
  {
    Quotient(d3, 0x4_0000, d2 * 0x1000 + d1 * 64 + d0);
    Quotient(d3 * 64 + d2, 0x1000, d1 * 64 + d0);
    Quotient(d3, 64, d2);
    Quotient(d3 * 0x1000 + d2 * 64 + d1, 64, d0);
    Quotient(d3 * 64 + d2, 64, d1);
  }

  /** Up to three bytes from place `pos` on, zeroes after them */
  method TakeThree(input: seq<Byte>, pos: nat) returns (buf: seq<Byte>, len: nat)
    requires pos < |input|
    ensures |buf| == 3 && 1 <= len <= 3 && pos + len <= |input| && buf[..len] == Head(input[pos..])
    ensures forall i :: len <= i < 3 ==> buf[i] == 0
  {
    buf, len := [], 0;
    for i := 0 to 3
      invariant |buf| == i && len == Min(i, |input| - pos)
      invariant forall k :: 0 <= k < i ==> buf[k] == if k < len then input[pos + k] else 0
    {
      if pos + i < |input| {
        buf, len := buf + [input[pos + i]], len + 1;
      } else {
        buf := buf + [0];
      }
    }
  }

  /** Four characters go to the output. */
  method PutFour(out: array<char>, at: nat, s: string)
    requires |s| == 4 && at + 4 <= out.Length
    modifies out
    ensures out[..at + 4] == old(out[..at]) + s && out[at + 4..] == old(out[at + 4..])
  {
    out[at], out[at + 1], out[at + 2], out[at + 3] := s[0], s[1], s[2], s[3];
  }

  lemma Terminated(s: string, was: string, at: nat)
    requires |s| == at < |was|
    ensures (s + was[at..])[at := '\0'] == s + (['\0'] + was[at + 1..])
  {
  }

  /** u_b64_encode: it succeeds when there is something to encode and room for its encoding. */
  method Encode(input: seq<Byte>, out: array<char>, outSz: nat) returns (rc: int)
    requires outSz <= out.Length
    modifies out
    ensures rc == 0 <==> input != [] && |Encoded(input)| <= outSz
    ensures rc == 0 ==>
      var n := |Encoded(input)|;
      out[..] == Encoded(input) + (if n < outSz then ['\0'] + old(out[..])[n + 1..] else old(out[..])[n..])
  {
    hide Encoded;
    if input == [] || outSz == 0 {
      EncodedLength(input);
      return -1;
    }
    ghost var was := out[..];
    var pos, at := 0, 0;
    assert input[0..] == input && out[..0] == "" && was[0..] == was;
    while pos < |input|
      invariant pos <= |input| && at <= outSz && out[at..] == was[at..]
      invariant Encoded(input) == out[..at] + Encoded(input[pos..])
    {
      if outSz - at < 4 {
        EncodedLength(input[pos..]);
        return -1;
      }
      ghost var done := out[..at];
      var len, s := EncodeNext(input, pos);
      PutFour(out, at, s);
      pos, at := pos + len, at + 4;
      assert was[at - 4..][4..] == was[at..];
      assert done + s + Encoded(input[pos..]) == done + (s + Encoded(input[pos..]));
    }
    assert input[pos..] == [];
    EncodedLength([]);
    assert Encoded(input) == out[..at];
    assert out[..] == Encoded(input) + was[at..];
    if at < outSz {
      Terminated(Encoded(input), was, at);
      out[at] := '\0';
      assert out[..] == (Encoded(input) + was[at..])[at := '\0'];
    }
    rc := 0;
  }

  /** The next group of the input and its digits */
  method EncodeNext(input: seq<Byte>, pos: nat) returns (len: nat, s: string)
    requires pos < |input|
    ensures 0 < len && pos + len <= |input| && |s| == 4
    ensures Encoded(input[pos..]) == s + Encoded(input[pos + len..])
  {
    var buf;
    buf, len := TakeThree(input, pos);
    s := ChunkEncode(buf[0], buf[1], buf[2], len);
    assert [buf[0], buf[1], buf[2]] == buf;
    assert input[pos..][len..] == input[pos + len..];
  }

  // ---------- Decoding ----------

  /** A bitwise or of numbers without a common bit, or with one that has all bits set */
  function Or(x: int, y: int): int { if y == -1 then -1 else x + y }

  /** chunk_decode: three bytes, of which those that stand for padding mean nothing */
  function Triple(q: string): (r: seq<Byte>)
    requires |q| == 4
    ensures |r| == 3
  {
    var v0, v1, v2, v3 := Val(q[0]), Val(q[1]), Val(q[2]), Val(q[3]);
    [Or(v0 * 4, v1 / 16) % 256, Or(v1 % 16 * 16, v2 / 4) % 256, Or(v2 % 4 * 64, v3) % 256]
  }

  function Pads(q: string): (n: nat)
    ensures n <= |q|
  {
    if q == "" then 0 else Pads(q[..|q| - 1]) + if q[|q| - 1] == PAD then 1 else 0
  }

  predicate GoodChars(q: string) { forall i :: 0 <= i < |q| ==> q[i] == PAD || IsBase64(q[i]) }

  /** The next characters, with NULs up to four */
  function Quad(s: string): (q: string)
    ensures |q| == 4 && forall i :: 0 <= i < 4 ==> q[i] == if i < |s| then s[i] else '\0'
  {
    if |s| >= 4 then s[..4] else s + seq(4 - |s|, _ => '\0')
  }

  /** What a text stands for, when it fits into `room` bytes.  Four pads are never taken: three less
      four is a huge number of bytes there. */
  function Decoded(s: string, room: nat): Option<seq<Byte>>
    decreases |s|
  {
    if s == "" then Some([])
    else
      var k := Min(4, |s|);
      var pad := Pads(s[..k]);
      if !GoodChars(s[..k]) || pad > 3 || room < 3 - pad then None
      else
        match Decoded(s[k..], room - (3 - pad))
        case None => None
        case Some(rest) => Some(Triple(Quad(s))[..3 - pad] + rest)
  }

  /** The bytes of a quad whose characters stand for the digits of `x`, `y` and `z` */
  lemma TripleIs(q: string, x: Byte, y: Byte, z: Byte)
    requires |q| == 4 && Val(q[0]) == x / 4 && Val(q[1]) == x % 4 * 16 + y / 16
    ensures Triple(q)[0] == x
    ensures Val(q[2]) == y % 16 * 4 + z / 64 ==> Triple(q)[1] == y
    ensures Val(q[2]) == y % 16 * 4 + z / 64 && Val(q[3]) == z % 64 ==> Triple(q)[2] == z
  {
    hide Val, Or;
    var v0, v1, v2, v3 := Val(q[0]), Val(q[1]), Val(q[2]), Val(q[3]);
    FirstByte(v0, v1, x, y);
    if v2 == y % 16 * 4 + z / 64 {
      SecondByte(v1, v2, x, y, z);
      if v3 == z % 64 {
        ThirdByte(v2, v3, y, z);
      }
    }
  }

  lemma FirstByte(v0: int, v1: int, x: Byte, y: Byte)
    requires v0 == x / 4 && v1 == x % 4 * 16 + y / 16
    ensures Or(v0 * 4, v1 / 16) % 256 == x
  {
    Halves(y, 16, 16);
    Recombined(x, 4, 16, y / 16);
  }

  lemma SecondByte(v1: int, v2: int, x: Byte, y: Byte, z: Byte)
    requires v1 == x % 4 * 16 + y / 16 && v2 == y % 16 * 4 + z / 64
    ensures Or(v1 % 16 * 16, v2 / 4) % 256 == y
  {
    Halves(y, 16, 16);
    Halves(z, 64, 4);
    Recombined(x, 4, 16, y / 16);
    Recombined(y, 16, 4, z / 64);
  }

  lemma ThirdByte(v2: int, v3: int, y: Byte, z: Byte)
    requires v2 == y % 16 * 4 + z / 64 && v3 == z % 64
    ensures Or(v2 % 4 * 64, v3) % 256 == z
  {
    Halves(z, 64, 4);
    Recombined(y, 16, 4, z / 64);
  }

  /** A byte cut in two at `d`, its lower part in front of `r` */
  lemma Recombined(x: Byte, d: nat, w: nat, r: nat)
    requires d > 0 && r < w
    ensures x / d * d + (x % d * w + r) / w == x && (x % d * w + r) % w == r
  {
    Quotient(x % d, w, r);
  }

  /** A group is decoded to the bytes it was made of. */
  lemma GroupBack(b: seq<Byte>)
    requires 1 <= |b| <= 3
    ensures GoodChars(Group(b)) && Pads(Group(b)) == 3 - |b| && Triple(Group(b))[..|b|] == b
  {
    hide Val, D, E, Bits, Group, Triple;
    var x, y, z := b[0], if |b| > 1 then b[1] else 0, if |b| > 2 then b[2] else 0;
    GroupIs(b);
    PadsOf(Group(b));
    TripleIs(Group(b), x, y, z);
  }

  lemma PadsOf(g: string)
    requires |g| == 4
    ensures Pads(g) == (if g[0] == PAD then 1 else 0) + (if g[1] == PAD then 1 else 0)
                     + (if g[2] == PAD then 1 else 0) + (if g[3] == PAD then 1 else 0)
  {
    assert g[..4] == g && g[..4][..3] == g[..3] && g[..3][..2] == g[..2] && g[..2][..1] == g[..1] && g[..1][..0] == "";
    assert Pads(g[..1]) == if g[0] == PAD then 1 else 0;
    assert Pads(g[..2]) == Pads(g[..1]) + if g[1] == PAD then 1 else 0;
    assert Pads(g[..3]) == Pads(g[..2]) + if g[2] == PAD then 1 else 0;
  }

  lemma FirstQuad(g: string, s: string, room: nat)
    requires |g| == 4 && GoodChars(g) && Pads(g) <= 3
    ensures Decoded(g + s, room) ==
            if room < 3 - Pads(g) then None
            else match Decoded(s, room - (3 - Pads(g)))
                 case None => None
                 case Some(rest) => Some(Triple(g)[..3 - Pads(g)] + rest)
  {
    hide Triple, GoodChars, Pads;
    assert (g + s)[..4] == g && (g + s)[4..] == s && Quad(g + s) == g;
  }

  /** Every byte string is decoded from its encoding exactly when there is room for it. */
  lemma {:induction false} RoundTrip(b: seq<Byte>, room: nat)
    ensures Decoded(Encoded(b), room) == if |b| <= room then Some(b) else None
    decreases |b|
  {
    hide Triple, GoodChars, Pads, Group, Decoded;
    if b == [] {
      DecodedNothing(room);
    } else {
      var h := Head(b);
      var rest := b[|h|..];
      GroupBack(h);
      FirstQuad(Group(h), Encoded(rest), room);
      if |h| <= room {
        RoundTrip(rest, room - |h|);
        assert h + rest == b;
      }
    }
  }

  lemma DecodedNothing(room: nat)
    ensures Decoded("", room) == Some([])
  {
  }

  /** Encodings differ, then, whenever the bytes do. */
  lemma EncodedIsInjective(a: seq<Byte>, b: seq<Byte>)
    ensures Encoded(a) == Encoded(b) ==> a == b
  {
    hide Encoded, Decoded;
    RoundTrip(a, |a| + |b|);
    RoundTrip(b, |a| + |b|);
  }

  /** An encoding is made of the alphabet, with as many pads at its end as bytes are missing to a
      multiple of three. */
  lemma {:induction false} EncodedAlphabet(b: seq<Byte>)
    ensures |Encoded(b)| == (|b| + 2) / 3 * 4 && Alphabetic(Encoded(b), PadsFor(|b|))
    decreases |b|
  {
    hide Group, Alphabetic;
    EncodedLength(b);
    if b == [] {
      NothingIsAlphabetic();
    } else if |b| <= 3 {
      assert Head(b) == b && Encoded(b[|b|..]) == "" && Encoded(b) == Group(b);
      GroupAlphabet(b);
    } else {
      EncodedAlphabet(b[3..]);
      GroupAlphabet(b[..3]);
      AlphabetJoins(Group(b[..3]), Encoded(b[3..]), PadsFor(|b| - 3));
    }
  }

  /** The bytes missing to a multiple of three */
  function PadsFor(n: nat): (k: nat)
    ensures k < 3 && (n + k) % 3 == 0
  {
    if n % 3 == 0 then 0 else 3 - n % 3
  }

  /** `s` is made of the alphabet, but for `pads` pads at its end. */
  predicate Alphabetic(s: string, pads: nat) {
    pads <= |s| && forall i :: 0 <= i < |s| ==> if i < |s| - pads then IsBase64(s[i]) else s[i] == PAD
  }

  lemma NothingIsAlphabetic()
    ensures Alphabetic("", 0)
  {
  }

  lemma GroupAlphabet(b: seq<Byte>)
    requires 1 <= |b| <= 3
    ensures Alphabetic(Group(b), PadsFor(|b|))
  {
    hide D, E, Bits, IsBase64;
  }

  lemma AlphabetJoins(a: string, b: string, pads: nat)
    requires Alphabetic(a, 0) && Alphabetic(b, pads)
    ensures Alphabetic(a + b, pads)
  {
    hide IsBase64;
    var s := a + b;
    assert forall i :: |a| <= i < |s| ==> s[i] == b[i - |a|];
  }

  // ---------- Which texts are decoded ----------

  /** Bytes for a text: three for each quad begun, less one for each pad */
  function Bytes(s: string): int { 3 * ((|s| + 3) / 4) - multiset(s)['='] }

  /** Some quad is nothing but pads. */
  ghost predicate AllPads(s: string) { exists i: nat :: PadsAt(s, i) }

  predicate PadsAt(s: string, i: nat) { i <= |s| - 4 && i % 4 == 0 && s[i..i + 4] == "====" }

  lemma {:induction false} PadsAre(q: string)
    ensures Pads(q) == multiset(q)['=']
    decreases |q|
  {
    if q != "" {
      PadsAre(q[..|q| - 1]);
      assert q == q[..|q| - 1] + [q[|q| - 1]];
    }
  }

  /** A text is decoded exactly when it has characters of the alphabet and pads only, no quad is nothing but
      pads, and its bytes fit the room; it stands for as many. */
  lemma {:induction false} DecodesIff(s: string, room: nat)
    ensures Decoded(s, room).Some? <==> (forall c :: c in s ==> c == '=' || c in E) && !AllPads(s) && Bytes(s) <= room
    ensures Decoded(s, room).Some? ==> |Decoded(s, room).value| == Bytes(s)
    decreases |s|
  {
    hide E, IsBase64, Triple, Quad, Bytes, AllPads, Pads, GoodChars;
    if s == "" {
      NothingInIt();
    } else {
      var q, t := s[..Min(4, |s|)], s[Min(4, |s|)..];
      GoodCharsAre(q);
      QuadPads(s);
      FourPads(q);
      BytesThere(t);
      QuadBytesAre(s);
      if Pads(q) <= 3 && room >= 3 - Pads(q) {
        DecodesIff(t, room - (3 - Pads(q)));
      }
    }
  }

  lemma NothingInIt()
    ensures Bytes("") == 0 && !AllPads("")
  {
  }

  lemma QuadBytesAre(s: string)
    requires s != ""
    ensures var q, t := s[..Min(4, |s|)], s[Min(4, |s|)..];
            Bytes(s) == 3 - Pads(q) + Bytes(t) && Pads(q) <= 4 && forall c :: c in s <==> c in q || c in t
  {
    var q, t := s[..Min(4, |s|)], s[Min(4, |s|)..];
    assert s == q + t;
    PadsAre(q);
    hide Pads;
  }

  /** A text of two characters: the bits that are missing are taken for ones. */
  lemma CutShort(c: char, d: char, room: nat)
    requires c in E && d in E && room >= 3
    ensures var t := Decoded([c, d], room); t.Some? && |t.value| == 3 && t.value[1..] == [255, 255]
  {
    InAlphabet(c);
    InAlphabet(d);
    var s := [c, d];
    DecodesIff(s, room);
    assert c != '=' && d != '=' && multiset(s)['='] == 0;
    PadsAre(s);
    assert s[..2] == s && s[2..] == "";
    OnesAtTheEnd(Quad(s));
    var t := Triple(Quad(s));
    hide *;
    assert t[..3] + [] == t;
  }

  lemma OnesAtTheEnd(q: string)
    requires |q| == 4 && q[2] == q[3] == '\0'
    ensures Triple(q)[1..] == [255, 255]
  {
    assert Val('\0') == -1;
  }

  lemma GoodCharsAre(q: string)
    ensures GoodChars(q) <==> forall c :: c in q ==> c == '=' || c in E
  {
    hide E, IsBase64;
    forall c ensures IsBase64(c) <==> c in E {
      InAlphabet(c);
    }
  }

  lemma QuadPads(s: string)
    requires s != ""
    ensures var k := Min(4, |s|); AllPads(s) <==> Pads(s[..k]) == 4 || AllPads(s[k..])
  {
    var k := Min(4, |s|);
    var q, t := s[..k], s[k..];
    FourPads(q);
    assert PadsAt(s, 0) <==> q == "====";
    hide PadsAt, Pads;
    if i: nat :| PadsAt(s, i) {
      PadsLater(s, i);
    }
    if i: nat :| PadsAt(t, i) {
      PadsLater(s, i + 4);
    }
  }

  lemma PadsLater(s: string, i: nat)
    ensures i > 0 ==> (PadsAt(s, i) <==> |s| >= 4 && i >= 4 && PadsAt(s[4..], i - 4))
    ensures PadsAt(s, i) ==> |s| >= 4
  {
    if 4 <= i <= |s| - 4 {
      assert s[4..][i - 4..i] == s[i..i + 4] && (i - 4) % 4 == i % 4;
    }
  }

  lemma FourPads(q: string)
    requires |q| <= 4
    ensures Pads(q) == 4 <==> q == "===="
  {
    if |q| == 4 {
      assert q[..3][..2] == q[..2] && q[..2][..1] == q[..1] && q[..1][..0] == "";
    }
  }

  lemma {:induction false} BytesThere(s: string)
    ensures !AllPads(s) ==> Bytes(s) >= 0
    decreases |s|
  {
    if s != "" {
      var k := Min(4, |s|);
      assert s == s[..k] + s[k..];
      PadsAre(s[..k]);
      QuadPads(s);
      BytesThere(s[k..]);
    }
  }
  // ---------- Which texts are encodings ----------

  /** Whole quads of the alphabet with at most two pads at the end, and the bits that no byte uses zero */
  predicate Canonical(s: string) { |s| % 4 == 0 && exists pads: nat :: pads <= 2 && PaddedRight(s, pads) }

  predicate PaddedRight(s: string, pads: nat) {
    && pads <= 2 && Alphabetic(s, pads)
    && (pads == 1 && |s| >= 2 ==> Val(s[|s| - 2]) % 4 == 0)
    && (pads == 2 && |s| >= 3 ==> Val(s[|s| - 3]) % 16 == 0)
  }

  /** What is decoded is encoded again as the very text exactly when that is canonical. */
  lemma Reencodes(s: string, room: nat)
    ensures Decoded(s, room).Some? ==> (Encoded(Decoded(s, room).value) == s <==> Canonical(s))
  {
    hide Decoded, Encoded, Canonical;
    if Canonical(s) {
      var b := Deciphered(s);
      RoundTrip(b, room);
    }
    if Decoded(s, room).Some? && Encoded(Decoded(s, room).value) == s {
      EncodedIsCanonical(Decoded(s, room).value);
    }
  }

  lemma {:induction false} EncodedIsCanonical(b: seq<Byte>)
    ensures Canonical(Encoded(b))
    decreases |b|
  {
    hide Group, Alphabetic, Encoded;
    EncodedAlphabet(b);
    LastBits(b);
    assert PaddedRight(Encoded(b), PadsFor(|b|));
  }

  lemma {:induction false} LastBits(b: seq<Byte>)
    ensures var s, pads := Encoded(b), PadsFor(|b|);
            && (pads == 1 ==> |s| >= 4 && Val(s[|s| - 2]) % 4 == 0)
            && (pads == 2 ==> |s| >= 4 && Val(s[|s| - 3]) % 16 == 0)
    decreases |b|
  {
    hide Val, Group;
    if b != [] {
      var h := Head(b);
      var s, rest := Encoded(b), Encoded(b[|h|..]);
      assert s == Group(h) + rest;
      if |b| > 3 {
        LastBits(b[3..]);
        assert PadsFor(|b|) == PadsFor(|b| - 3);
        assert |rest| >= 4 ==> s[|s| - 2] == rest[|rest| - 2] && s[|s| - 3] == rest[|rest| - 3];
      } else {
        assert h == b && rest == "" && s == Group(b);
        LastGroupBits(b);
      }
    }
  }

  lemma LastGroupBits(b: seq<Byte>)
    requires 1 <= |b| <= 3
    ensures |b| == 2 ==> Val(Group(b)[2]) % 4 == 0
    ensures |b| == 1 ==> Val(Group(b)[1]) % 16 == 0
  {
    hide Val, Group;
    GroupDigits(b, b[0], if |b| > 1 then b[1] else 0, if |b| > 2 then b[2] else 0);
    if |b| == 2 {
      Quotient(b[1] % 16, 4, 0);
    } else if |b| == 1 {
      Quotient(b[0] % 4, 16, 0);
    }
  }

  /** The digits of a group, bytes that are missing counting as 0 */
  lemma GroupDigits(b: seq<Byte>, x: Byte, y: Byte, z: Byte)
    requires 1 <= |b| <= 3 && b[0] == x
    requires y == (if |b| > 1 then b[1] else 0) && z == (if |b| > 2 then b[2] else 0)
    ensures var g := Group(b);
            && Val(g[0]) == x / 4 && Val(g[1]) == x % 4 * 16 + y / 16
            && (if |b| > 1 then Val(g[2]) == y % 16 * 4 + z / 64 else g[2] == PAD)
            && (if |b| > 2 then Val(g[3]) == z % 64 else g[3] == PAD)
  {
    hide Val, Group, Digit;
    Halves(x, 4, 64);
    Halves(y, 16, 16);
    Halves(z, 64, 4);
    GroupIs(b);
  }

  /** The bytes that a canonical text encodes */
  lemma {:induction false} Deciphered(s: string) returns (b: seq<Byte>)
    requires Canonical(s)
    ensures Encoded(b) == s
    decreases |s|
  {
    hide Val, Group;
    var pads: nat :| PaddedRight(s, pads);
    if s == "" {
      b := [];
    } else if |s| == 4 {
      b := QuadBytes(s, pads);
      assert Head(b) == b && b[|b|..] == [] && Encoded([]) == "";
      assert Group(b) + "" == s;
    } else {
      TailIsCanonical(s, pads);
      var h := QuadBytes(s[..4], 0);
      var rest := Deciphered(s[4..]);
      b := h + rest;
      assert Head(b) == h && b[3..] == rest;
      assert s == s[..4] + s[4..];
    }
  }

  lemma TailIsCanonical(s: string, pads: nat)
    requires |s| % 4 == 0 && |s| > 4 && PaddedRight(s, pads)
    ensures PaddedRight(s[..4], 0) && Canonical(s[4..])
  {
    hide Val, IsBase64;
    assert |s| >= 8;
    var t := s[4..];
    assert forall i :: 0 <= i < |t| ==> t[i] == s[i + 4];
    assert PaddedRight(t, pads);
  }

  lemma QuadBytes(q: string, pads: nat) returns (b: seq<Byte>)
    requires |q| == 4 && PaddedRight(q, pads)
    ensures |b| == 3 - pads && Group(b) == q
  {
    hide Group, Val;
    assert forall i :: 0 <= i < 4 - pads ==> 0 <= Val(q[i]) by { Vals(q, pads); }
    var v0, v1 := Val(q[0]), Val(q[1]);
    var v2, v3 := if pads < 2 then Val(q[2]) else 0, if pads < 1 then Val(q[3]) else 0;
    var x, y, z := v0 * 4 + v1 / 16, v1 % 16 * 16 + v2 / 4, v2 % 4 * 64 + v3;
    DigitsOf(v0, v1, v2, v3);
    b := [x, y, z][..3 - pads];
    GroupDigits(b, x, y, z);
    SameChars(Group(b), q, pads);
  }

  lemma Vals(q: string, pads: nat)
    requires |q| == 4 && Alphabetic(q, pads)
    ensures forall i :: 0 <= i < 4 - pads ==> 0 <= Val(q[i])
  {
    hide D;
  }

  lemma DigitsOf(v0: nat, v1: nat, v2: nat, v3: nat)
    requires v0 < 64 && v1 < 64 && v2 < 64 && v3 < 64
    ensures var x, y, z := v0 * 4 + v1 / 16, v1 % 16 * 16 + v2 / 4, v2 % 4 * 64 + v3;
            && x < 256 && y < 256 && z < 256
            && x / 4 == v0 && x % 4 * 16 + y / 16 == v1 && y % 16 * 4 + z / 64 == v2 && z % 64 == v3
  {
    Quotient(v0, 4, v1 / 16);
    Quotient(v1 % 16, 16, v2 / 4);
    Quotient(v2 % 4, 64, v3);
  }

  lemma SameChars(g: string, q: string, pads: nat)
    requires |g| == |q| == 4 && pads <= 2
    requires forall i :: 0 <= i < 4 - pads ==> Val(g[i]) == Val(q[i]) >= 0
    requires forall i :: 4 - pads <= i < 4 ==> g[i] == q[i]
    ensures g == q
  {
    hide D;
    forall i | 0 <= i < 4 ensures g[i] == q[i] {
      if i < 4 - pads {
        DIsInjective(g[i], q[i]);
      }
    }
  }

  // ---------- The decoder ----------

  /** The characters of the next quad; `ok` when each is a digit or a pad. */
  method TakeQuad(input: string, pos: nat) returns (ok: bool, buf: string, len: nat, pad: nat)
    requires pos < |input|
    ensures ok <==> GoodChars(input[pos..][..Min(4, |input| - pos)])
    ensures ok ==> len == Min(4, |input| - pos) && buf == Quad(input[pos..]) && pad == Pads(input[pos..][..len])
  {
    hide Pads, GoodChars, Quad;
    buf, len, pad := "", 0, 0;
    ghost var s := input[pos..];
    NoneSoFar(s);
    for i := 0 to 4
      invariant |buf| == i && len == Min(i, |s|) && pad == Pads(s[..len]) && GoodChars(s[..len])
      invariant forall k :: 0 <= k < i ==> buf[k] == if k < |s| then s[k] else '\0'
    {
      if pos + i < |input| {
        var c := input[pos + i];
        OneMore(s, i, Min(4, |s|));
        buf := buf + [c];
        if c == PAD {
          pad := pad + 1;
        } else if !IsBase64(c) {
          return false, buf, len, pad;
        }
        len := len + 1;
      } else {
        buf := buf + ['\0'];
      }
    }
    ok := true;
    QuadIs(s, buf);
  }

  lemma QuadIs(s: string, buf: string)
    requires |buf| == 4 && forall k :: 0 <= k < 4 ==> buf[k] == if k < |s| then s[k] else '\0'
    ensures buf == Quad(s)
  {
  }

  lemma NoneSoFar(s: string)
    ensures Pads(s[..0]) == 0 && GoodChars(s[..0])
  {
  }

  /** One character more of a quad */
  lemma OneMore(s: string, i: nat, n: nat)
    requires i < n <= |s|
    ensures Pads(s[..i + 1]) == Pads(s[..i]) + if s[i] == PAD then 1 else 0
    ensures GoodChars(s[..i + 1]) <==> GoodChars(s[..i]) && (s[i] == PAD || IsBase64(s[i]))
    ensures GoodChars(s[..n]) ==> s[i] == PAD || IsBase64(s[i])
  {
    assert s[..i + 1][..i] == s[..i];
    assert s[..n][i] == s[i];
  }

  /** u_b64_decode; three bytes are stored at a time, so that the buffer must go on a little. */
  method Decode(input: string, out: array<Byte>, outSz: nat) returns (rc: int, n: nat)
    requires outSz + 3 <= out.Length
    modifies out
    ensures rc == 0 <==> input != "" && Decoded(input, outSz).Some?
    ensures rc == 0 ==> n <= outSz && out[..n] == Decoded(input, outSz).value
    ensures rc != 0 ==> n == outSz
  {
    hide Decoded, Triple, Pads, GoodChars, Quad;
    n := outSz;
    if input == "" {
      return -1, n;
    }
    var pos, at := 0, 0;
    assert input[0..] == input && out[..0] == [];
    AfterTwo([], [], Decoded(input, outSz));
    while pos < |input|
      invariant 0 <= pos <= |input| && 0 <= at <= outSz
      invariant Decoded(input, outSz) == After(out[..at], Decoded(input[pos..], outSz - at))
    {
      var ok, buf, len, pad := TakeQuad(input, pos);
      DecodedStep(input[pos..], outSz - at);
      if !ok || pad > 3 || outSz - at < 3 - pad {
        return -1, n;
      }
      ghost var done := out[..at];
      assert input[pos..][len..] == input[pos + len..];
      var t := Triple(buf);
      PutThree(out, at, t);
      assert out[..at + (3 - pad)] == done + t[..3 - pad];
      AfterTwo(done, t[..3 - pad], Decoded(input[pos + len..], outSz - at - (3 - pad)));
      pos, at := pos + len, at + (3 - pad);
    }
    assert input[pos..] == "";
    DecodedNothing(outSz - at);
    rc, n := 0, at;
  }

  /** What chunk_decode stores */
  method PutThree(out: array<Byte>, at: nat, t: seq<Byte>)
    requires |t| == 3 && at + 3 <= out.Length
    modifies out
    ensures forall k :: 0 <= k <= 3 ==> out[..at + k] == old(out[..at]) + t[..k]
  {
    out[at], out[at + 1], out[at + 2] := t[0], t[1], t[2];
  }

  lemma DecodedStep(s: string, room: nat)
    requires s != ""
    ensures var k := Min(4, |s|);
            var pad := Pads(s[..k]);
            Decoded(s, room) ==
            if !GoodChars(s[..k]) || pad > 3 || room < 3 - pad then None
            else After(Triple(Quad(s))[..3 - pad], Decoded(s[k..], room - (3 - pad)))
  {
    hide Triple, GoodChars, Pads, Quad;
  }

  function After(a: seq<Byte>, d: Option<seq<Byte>>): Option<seq<Byte>> {
    match d
    case None => None
    case Some(b) => Some(a + b)
  }

  lemma AfterTwo(a: seq<Byte>, b: seq<Byte>, d: Option<seq<Byte>>)
    ensures After([], d) == d && After(a, After(b, d)) == After(a + b, d)
  {
    if d.Some? {
      assert [] + d.value == d.value && a + (b + d.value) == a + b + d.value;
    }
  }
}
