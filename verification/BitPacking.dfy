/** Bit strings packed into bytes, least significant bit first, and back. */
module BitPacking {
  import opened Numbers
  import opened BinaryStrings
  import opened Bytes

  /** The byte whose low bits are s, first character lowest. */
  function ByteOf(s: string): nat
  {
    if |s| == 0 then 0 else Bit(s[0]) + 2 * ByteOf(s[1..])
  }

  /** The k low bits of a number, lowest first. */
  function BitsOf(b: nat, k: nat): (s: string)
    ensures |s| == k && IsBits(s)
  {
    if k == 0 then "" else [if b % 2 == 1 then '1' else '0'] + BitsOf(b / 2, k - 1)
  }

  lemma {:induction false} ByteOfBound(s: string)
    ensures ByteOf(s) < Pow2(|s|)
  {
    if |s| > 0 {
      ByteOfBound(s[1..]);
    }
  }

  lemma {:induction false} BitsOfByte(s: string, k: nat)
    requires IsBits(s) && |s| <= k
    ensures BitsOf(ByteOf(s), k) == s + Zeros(k - |s|)
  {
    if |s| > 0 {
      BitsOfByte(s[1..], k - 1);
      assert ByteOf(s) / 2 == ByteOf(s[1..]);
      assert s == [s[0]] + s[1..];
    } else if k > 0 {
      BitsOfByte(s, k - 1);
      assert Zeros(k) == ['0'] + Zeros(k - 1);
    }
  }

  lemma {:induction false} ByteOfSnoc(s: string, c: char)
    ensures ByteOf(s + [c]) == ByteOf(s) + Weight(c, |s|)
  {
    if |s| == 0 {
      assert s + [c] == [c];
      assert ByteOf([c][1..]) == 0;
    } else {
      ByteOfSnoc(s[1..], c);
      assert (s + [c])[1..] == s[1..] + [c];
    }
  }

  /** Whole bytes first, then one zero-padded byte for the remaining bits. */
  function PackBits(s: string): seq<Byte>
  {
    if |s| == 0 then []
    else if |s| <= 8 then PackByte(s)
    else PackByte(s[..8]) + PackBits(s[8..])
  }

  function PackByte(s: string): (r: seq<Byte>)
    requires |s| <= 8
    ensures r == [ByteOf(s)]
  {
    ByteOfBound(s);
    Pow2Monotone(|s|, 8);
    assert Pow2(8) == 256;
    [ByteOf(s)]
  }

  function UnpackBits(bytes: seq<Byte>): (s: string)
    ensures IsBits(s) && |s| == 8 * |bytes|
  {
    if |bytes| == 0 then "" else BitsOf(bytes[0], 8) + UnpackBits(bytes[1..])
  }

  /** The zero bits needed to fill the last byte. */
  function Padding(length: nat): nat
  {
    (8 - length % 8) % 8
  }

  lemma UnpackCons(b: Byte, bytes: seq<Byte>)
    ensures UnpackBits([b] + bytes) == BitsOf(b, 8) + UnpackBits(bytes)
  {
    assert ([b] + bytes)[1..] == bytes;
  }

  lemma PackLastByte(s: string)
    requires IsBits(s) && 1 <= |s| <= 8
    ensures UnpackBits(PackBits(s)) == s + Zeros(8 - |s|)
  {
    BitsOfByte(s, 8);
    UnpackCons(PackByte(s)[0], []);
  }

  lemma PackFirstByte(s: string)
    requires IsBits(s) && |s| > 8
    ensures UnpackBits(PackBits(s)) == s[..8] + UnpackBits(PackBits(s[8..]))
  {
    BitsOfByte(s[..8], 8);
    UnpackCons(PackByte(s[..8])[0], PackBits(s[8..]));
  }

  lemma PaddingOfRest(n: nat)
    requires n > 8
    ensures Padding(n - 8) == Padding(n)
  {
    assert (n - 8) % 8 == n % 8;
  }

  /** Packing and unpacking returns the bits, followed by the padding. */
  lemma {:induction false} PackRoundTrip(s: string)
    requires IsBits(s)
    ensures UnpackBits(PackBits(s)) == s + Zeros(Padding(|s|))
    decreases |s|
  {
    if |s| == 0 {
    } else if |s| <= 8 {
      PackLastByte(s);
    } else {
      var first, rest := s[..8], s[8..];
      PackFirstByte(s);
      PackRoundTrip(rest);
      PaddingOfRest(|s|);
      assert s == first + rest;
      Append(first, rest, Zeros(Padding(|s|)));
    }
  }

  lemma Append(a: string, b: string, c: string)
    ensures a + (b + c) == a + b + c
  {
  }

  lemma {:induction false} PackedLength(s: string)
    ensures |PackBits(s)| == (|s| + 7) / 8
    decreases |s|
  {
    if |s| > 8 {
      PackedLength(s[8..]);
    }
  }

  /** Appending one full byte's worth of bits to whole bytes appends one byte. */
  lemma {:induction false} PackAppend(s: string, t: string)
    requires |s| % 8 == 0 && 1 <= |t| <= 8
    ensures PackBits(s + t) == PackBits(s) + [ByteOf(t)]
    decreases |s|
  {
    if |s| == 0 {
      assert s + t == t;
    } else if |s| == 8 {
      assert (s + t)[..8] == s && (s + t)[8..] == t;
    } else {
      PackAppend(s[8..], t);
      assert (s + t)[..8] == s[..8] && (s + t)[8..] == s[8..] + t;
    }
  }

  /** Bit i of a byte, as `byte & (1 << i)` tests it. */
  function BitAt(b: nat, i: nat): char
  {
    if (b / Pow2(i)) % 2 == 1 then '1' else '0'
  }

  lemma {:induction false} NthBit(b: nat, k: nat, i: nat)
    requires i < k
    ensures BitsOf(b, k)[i] == BitAt(b, i)
  {
    if i > 0 {
      NthBit(b / 2, k - 1, i - 1);
      DivTwice(b, Pow2(i - 1));
    }
  }

  lemma DivTwice(b: nat, p: nat)
    requires p >= 1
    ensures (b / 2) / p == b / (2 * p)
  {
    var q := b / (2 * p);
    var r := b % (2 * p);
    assert b == q * (2 * p) + r;
    assert b / 2 == q * p + r / 2 by {
      assert q * (2 * p) == 2 * (q * p);
    }
    QuotientUnique(b / 2, p, q, r / 2);
  }

  /** Character 8 * i + j of the unpacked text is bit j of byte i. */
  lemma {:induction false} UnpackedBit(bytes: seq<Byte>, i: nat, j: nat)
    requires i < |bytes| && j < 8
    ensures UnpackBits(bytes)[8 * i + j] == if (bytes[i] / Pow2(j)) % 2 == 1 then '1' else '0'
    decreases i
  {
    if i == 0 {
      NthBit(bytes[0], 8, j);
    } else {
      UnpackedBit(bytes[1..], i - 1, j);
      assert UnpackBits(bytes)[8 * i + j] == UnpackBits(bytes[1..])[8 * (i - 1) + j];
    }
  }

  /** Bit j of packed byte i is set exactly when character 8 * i + j is a one. */
  lemma PackedBitAt(s: string, i: nat, j: nat)
    requires IsBits(s) && i < |PackBits(s)| && j < 8
    ensures (PackBits(s)[i] / Pow2(j)) % 2 == 1 <==> 8 * i + j < |s| && s[8 * i + j] == '1'
  {
    UnpackedBit(PackBits(s), i, j);
    PackRoundTrip(s);
  }

  /** Tests the bits of a byte from the lowest, one character for each. */
  method UnpackByte(untrackedBits: Byte) returns (text: string)
    ensures text == BitsOf(untrackedBits, 8)
  {
    ghost var bits := BitsOf(untrackedBits, 8);
    text := "";
    var i := 0;
    while i < 8
      invariant 0 <= i <= 8
      invariant text == bits[..i]
    {
      NthBit(untrackedBits, 8, i);
      var bit := BitAt(untrackedBits, i);
      assert bits[..i + 1] == bits[..i] + [bit];
      text := text + [bit];
      i := i + 1;
    }
    assert bits[..8] == bits;
  }

  /** Unpacks a file byte by byte into text. */
  method ReadBinaryFile(bytes: seq<Byte>) returns (text: string)
    ensures text == UnpackBits(bytes)
  {
    text := "";
    var binaryFile := bytes;
    while |binaryFile| > 0
      invariant UnpackBits(bytes) == text + UnpackBits(binaryFile)
      decreases |binaryFile|
    {
      var bits := UnpackByte(binaryFile[0]);
      Append(text, bits, UnpackBits(binaryFile[1..]));
      text := text + bits;
      binaryFile := binaryFile[1..];
    }
    assert text + "" == text;
  }
}
