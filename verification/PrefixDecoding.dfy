/** Greedy decoding of a prefix code. */
module PrefixDecoding {
  import opened Sequences
  import opened BinaryStrings
  import opened Bytes
  import opened HuffmanCodes

  function Encode(codes: Codes, text: seq<Byte>): string
    requires forall x | x in text :: x in codes
  {
    if |text| == 0 then "" else codes[text[0]] + Encode(codes, text[1..])
  }

  lemma {:induction false} EncodeSnoc(codes: Codes, text: seq<Byte>, x: Byte)
    requires (forall y | y in text :: y in codes) && x in codes
    ensures forall y | y in text + [x] :: y in codes
    ensures Encode(codes, text + [x]) == Encode(codes, text) + codes[x]
  {
    if |text| == 0 {
      assert text + [x] == [x];
      assert Encode(codes, [x][1..]) == "";
    } else {
      EncodeSnoc(codes, text[1..], x);
      assert (text + [x])[1..] == text[1..] + [x];
    }
  }

  lemma {:induction false} EncodeBits(codes: Codes, text: seq<Byte>)
    requires IsPrefixCode(codes) && forall x | x in text :: x in codes
    ensures IsBits(Encode(codes, text))
  {
    if |text| > 0 {
      EncodeBits(codes, text[1..]);
    }
  }

  /** The reversed map: each code leads to a symbol that has it. */
  ghost predicate Inverts(reverse: map<string, Byte>, codes: Codes)
  {
    && (forall c | c in reverse :: reverse[c] in codes && codes[reverse[c]] == c)
    && (forall x | x in codes :: codes[x] in reverse)
  }

  /** Reads bits until they form a code, outputs its symbol, and starts afresh. */
  function Decode(reverse: map<string, Byte>, current: string, bits: string): seq<Byte>
    decreases |bits|
  {
    if |bits| == 0 then []
    else
      var code := current + [bits[0]];
      if code in reverse then [reverse[code]] + Decode(reverse, "", bits[1..])
      else Decode(reverse, code, bits[1..])
  }

  /** No code is complete within s. */
  ghost predicate Incomplete(reverse: map<string, Byte>, s: string)
  {
    forall k | 1 <= k <= |s| :: s[..k] !in reverse
  }

  /** s is a code with none complete within it before its end. */
  ghost predicate FirstCode(reverse: map<string, Byte>, s: string)
  {
    |s| >= 1 && s in reverse && Incomplete(reverse, s[..|s| - 1])
  }

  function Concat(pieces: seq<string>): string
  {
    if |pieces| == 0 then "" else pieces[0] + Concat(pieces[1..])
  }

  function Symbols(reverse: map<string, Byte>, pieces: seq<string>): seq<Byte>
    requires forall p | p in pieces :: p in reverse
  {
    if |pieces| == 0 then [] else [reverse[pieces[0]]] + Symbols(reverse, pieces[1..])
  }

  lemma {:induction false} DecodePieces(reverse: map<string, Byte>, current: string, bits: string)
    returns (pieces: seq<string>, rest: string)
    requires Incomplete(reverse, current)
    ensures current + bits == Concat(pieces) + rest && Incomplete(reverse, rest)
    ensures forall p | p in pieces :: p in reverse && FirstCode(reverse, p)
    ensures Decode(reverse, current, bits) == Symbols(reverse, pieces)
    decreases |bits|
  {
    if |bits| == 0 {
      pieces, rest := [], current;
      assert current + bits == current;
    } else {
      var code := current + [bits[0]];
      assert code[..|code| - 1] == current;
      assert current + bits == code + bits[1..];
      if code in reverse {
        var more;
        more, rest := DecodePieces(reverse, "", bits[1..]);
        pieces := [code] + more;
        assert pieces[1..] == more;
        assert "" + bits[1..] == bits[1..];
        assert code + (Concat(more) + rest) == (code + Concat(more)) + rest;
      } else {
        IncompleteSnoc(reverse, current, bits[0]);
        pieces, rest := DecodePieces(reverse, code, bits[1..]);
      }
    }
  }

  lemma IncompleteSnoc(reverse: map<string, Byte>, s: string, c: char)
    requires Incomplete(reverse, s) && s + [c] !in reverse
    ensures Incomplete(reverse, s + [c])
  {
    forall k | 1 <= k <= |s| + 1
      ensures (s + [c])[..k] !in reverse
    {
      if k <= |s| {
        assert (s + [c])[..k] == s[..k];
      } else {
        assert (s + [c])[..k] == s + [c];
      }
    }
  }

  /** For any reversed table and any bits: the bits are cut into codes, each ending where it first
      completes one, and a rest that completes none; the output is the codes' symbols. */
  lemma DecodeGreedy(reverse: map<string, Byte>, bits: string) returns (pieces: seq<string>, rest: string)
    ensures bits == Concat(pieces) + rest && Incomplete(reverse, rest)
    ensures forall p | p in pieces :: p in reverse && FirstCode(reverse, p)
    ensures Decode(reverse, "", bits) == Symbols(reverse, pieces)
  {
    assert "" + bits == bits;
    pieces, rest := DecodePieces(reverse, "", bits);
  }

  /** From the middle of a code, decoding runs to the end of that code. */
  lemma {:induction false} DecodeOne(reverse: map<string, Byte>, codes: Codes, x: Byte,
                                        p: string, q: string, rest: string)
    requires IsPrefixCode(codes) && Inverts(reverse, codes)
    requires x in codes && codes[x] == p + q && |q| >= 1
    ensures Decode(reverse, p, q + rest) == [x] + Decode(reverse, "", rest)
    decreases |q|
  {
    var code := p + [q[0]];
    assert (q + rest)[0] == q[0] && (q + rest)[1..] == q[1..] + rest;
    assert code + q[1..] == codes[x];
    if |q| == 1 {
      assert code == codes[x] && q[1..] + rest == rest;
      assert reverse[code] == x;
    } else {
      assert code <= codes[x] && code != codes[x];
      assert code !in reverse;
      DecodeOne(reverse, codes, x, code, q[1..], rest);
    }
  }

  lemma DecodeFirst(reverse: map<string, Byte>, codes: Codes, x: Byte, rest: string)
    requires IsPrefixCode(codes) && Inverts(reverse, codes) && x in codes
    ensures Decode(reverse, "", codes[x] + rest) == [x] + Decode(reverse, "", rest)
  {
    assert "" + codes[x] == codes[x];
    DecodeOne(reverse, codes, x, "", codes[x], rest);
  }

  lemma Prepend(text: seq<Byte>, rest: seq<Byte>)
    requires |text| > 0
    ensures [text[0]] + (text[1..] + rest) == text + rest
  {
  }

  /** Decoding an encoded text gives the text back and goes on with whatever follows. */
  lemma {:induction false} DecodeText(reverse: map<string, Byte>, codes: Codes, text: seq<Byte>, rest: string)
    requires IsPrefixCode(codes) && Inverts(reverse, codes)
    requires forall x | x in text :: x in codes
    ensures Decode(reverse, "", Encode(codes, text) + rest) == text + Decode(reverse, "", rest)
  {
    if |text| == 0 {
      assert "" + rest == rest;
    } else {
      var x := text[0];
      var more := Encode(codes, text[1..]) + rest;
      DecodeText(reverse, codes, text[1..], rest);
      assert Encode(codes, text) + rest == codes[x] + more;
      DecodeFirst(reverse, codes, x, more);
      Prepend(text, Decode(reverse, "", rest));
    }
  }

  /** Fewer zeros than the all-zero code has never complete a code. */
  lemma {:induction false} DecodeFewZeros(reverse: map<string, Byte>, codes: Codes, z: Byte, m: nat, k: nat)
    requires IsPrefixCode(codes) && Inverts(reverse, codes)
    requires z in codes && codes[z] == Zeros(|codes[z]|) && m + k < |codes[z]|
    ensures Decode(reverse, Zeros(m), Zeros(k)) == []
    decreases k
  {
    if k > 0 {
      assert Zeros(m) + [Zeros(k)[0]] == Zeros(m + 1);
      assert Zeros(k)[1..] == Zeros(k - 1);
      assert Zeros(m + 1) <= codes[z] && Zeros(m + 1) != codes[z];
      assert Zeros(m + 1) !in reverse;
      DecodeFewZeros(reverse, codes, z, m + 1, k - 1);
    }
  }

  /** How many whole codes of the given length fit in the padding. */
  function Copies(padding: nat, length: nat): nat
    requires length >= 1
    decreases padding
  {
    if padding < length then 0 else 1 + Copies(padding - length, length)
  }

  /** That is the quotient, rounded down. */
  lemma {:induction false} CopiesQuotient(padding: nat, length: nat)
    requires length >= 1
    ensures Copies(padding, length) * length <= padding < (Copies(padding, length) + 1) * length
    decreases padding
  {
    if padding >= length {
      CopiesQuotient(padding - length, length);
    }
  }

  /** A run of zeros decodes to copies of the symbol with the all-zero code. */
  lemma {:induction false} DecodeZeros(reverse: map<string, Byte>, codes: Codes, z: Byte, k: nat)
    requires IsPrefixCode(codes) && Inverts(reverse, codes)
    requires z in codes && codes[z] == Zeros(|codes[z]|)
    ensures Decode(reverse, "", Zeros(k)) == Repeat(z, Copies(k, |codes[z]|))
    decreases k
  {
    var length := |codes[z]|;
    if k < length {
      DecodeFewZeros(reverse, codes, z, 0, k);
    } else {
      DecodeZeros(reverse, codes, z, k - length);
      DecodeFirst(reverse, codes, z, Zeros(k - length));
      assert Zeros(k) == codes[z] + Zeros(k - length);
      assert [z] + Repeat(z, Copies(k - length, length)) == Repeat(z, Copies(k, length));
    }
  }

  /** The table reversed, for the entries whose signed keys lie below `key`; of two symbols with one
      code, the one later in key order wins. */
  function ReverseBelow(codes: Codes, key: int): map<string, Byte>
    requires -128 <= key <= 128
    decreases key + 128, codes
  {
    if key == -128 then map[]
    else
      var x := Unsigned(key - 1);
      var earlier := ReverseBelow(codes, key - 1);
      if x in codes then earlier[codes[x] := x] else earlier
  }

  function Reverse(codes: Codes): map<string, Byte>
  {
    ReverseBelow(codes, 128)
  }

  lemma {:induction false} ReverseBelowInverts(codes: Codes, key: int, r: map<string, Byte>)
    requires -128 <= key <= 128 && r == ReverseBelow(codes, key)
    ensures forall c | c in r :: r[c] in codes && codes[r[c]] == c && Signed(r[c]) < key
    ensures forall x | x in codes && Signed(x) < key :: codes[x] in r && Signed(x) <= Signed(r[codes[x]])
    decreases key + 128
  {
    if key > -128 {
      var x, earlier := Unsigned(key - 1), ReverseBelow(codes, key - 1);
      ReverseBelowInverts(codes, key - 1, earlier);
      assert Signed(x) == key - 1;
      assert forall y: Byte | Signed(y) == key - 1 :: y == x;
      assert r == if x in codes then earlier[codes[x] := x] else earlier;
    }
  }

  /** Every code leads to a symbol that has it: the last in key order. */
  lemma ReverseInverts(codes: Codes)
    ensures Inverts(Reverse(codes), codes)
    ensures forall x | x in codes :: Signed(x) <= Signed(Reverse(codes)[codes[x]])
  {
    ReverseBelowInverts(codes, 128, Reverse(codes));
    assert forall x | x in codes :: Signed(x) < 128;
  }

  method ReverseTable(codes: Codes) returns (reverse: map<string, Byte>)
    ensures reverse == Reverse(codes)
  {
    reverse := map[];
    for key := -128 to 128
      invariant reverse == ReverseBelow(codes, key)
    {
      var x := Unsigned(key);
      if x in codes {
        reverse := reverse[codes[x] := x];
      }
    }
  }

  method Inflate(text: string, codes: Codes) returns (output: seq<Byte>)
    ensures output == Decode(Reverse(codes), "", text)
  {
    var reverseValue := ReverseTable(codes);
    var currentCode := "";
    output := [];
    var at := 0;
    assert text[0..] == text;
    while at < |text|
      invariant 0 <= at <= |text|
      invariant Decode(reverseValue, "", text) == output + Decode(reverseValue, currentCode, text[at..])
    {
      assert text[at..][1..] == text[at + 1..];
      currentCode := currentCode + [text[at]];
      if currentCode in reverseValue {
        output := output + [reverseValue[currentCode]];
        currentCode := "";
      }
      at := at + 1;
    }
  }
}
