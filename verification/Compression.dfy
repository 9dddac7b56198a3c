/** Deflating a text into a file and inflating it again. */
module Compression {
  import opened Numbers
  import opened LengthAssignments
  import opened HuffmanTree
  import opened Optimality
  import opened HuffmanArray
  import opened BinaryStrings
  import opened CanonicalCodes
  import opened Vectors
  import opened Sequences
  import opened Bytes
  import opened Optional
  import opened KraftInequality
  import opened HuffmanCodes
  import opened BitPacking
  import opened PrefixDecoding
  import opened CodeTable

  // ----- frequencies -----

  method CountFrequencies(text: seq<Byte>) returns (frequency: map<Byte, nat>)
    ensures frequency.Keys == Elements(text)
    ensures forall x | x in frequency :: frequency[x] == multiset(text)[x]
  {
    frequency := map[];
    var at := 0;
    while at < |text|
      invariant 0 <= at <= |text|
      invariant frequency.Keys == Elements(text[..at])
      invariant forall x | x in frequency :: frequency[x] == multiset(text[..at])[x]
    {
      var ch := text[at];
      assert text[..at + 1] == text[..at] + [ch];
      assert ch !in frequency ==> ch !in text[..at];
      frequency := frequency[ch := (if ch in frequency then frequency[ch] else 0) + 1];
      at := at + 1;
    }
    assert text[..at] == text;
  }

  /** Ascending by frequency, and by signed byte value among equal frequencies. */
  ghost predicate Ordered(w: seq<nat>, b: seq<Byte>)
  {
    && |w| == |b|
    && forall i, j | 0 <= i < j < |w| :: w[i] < w[j] || (w[i] == w[j] && Signed(b[i]) < Signed(b[j]))
  }

  lemma OrderedInsert(w: seq<nat>, b: seq<Byte>, f: nat, x: Byte, at: nat)
    requires Ordered(w, b) && at <= |w| && forall i | 0 <= i < |b| :: Signed(b[i]) < Signed(x)
    requires forall k | 0 <= k < at :: w[k] <= f
    requires at < |w| ==> w[at] > f
    ensures Ordered(w[..at] + [f] + w[at..], b[..at] + [x] + b[at..])
  {
    var w', b' := w[..at] + [f] + w[at..], b[..at] + [x] + b[at..];
    forall i, j | 0 <= i < j < |w'|
      ensures w'[i] < w'[j] || (w'[i] == w'[j] && Signed(b'[i]) < Signed(b'[j]))
    {
      var i', j' := if i < at then i else i - 1, if j < at then j else j - 1;
      if i == at {
        assert w'[j] == w[j'];
      } else if j == at {
        assert w'[i] == w[i] && b'[i] == b[i];
      } else {
        assert w'[i] == w[i'] && w'[j] == w[j'] && b'[i] == b[i'] && b'[j] == b[j'];
      }
    }
  }

  /** Inserts after all entries of the same or a lower frequency, as `std::multimap` does. */
  method InsertEntry(w: seq<nat>, b: seq<Byte>, f: nat, x: Byte) returns (w': seq<nat>, b': seq<Byte>, ghost at: nat)
    requires Ordered(w, b) && forall i | 0 <= i < |b| :: Signed(b[i]) < Signed(x)
    ensures Ordered(w', b') && at <= |w|
    ensures w' == w[..at] + [f] + w[at..] && b' == b[..at] + [x] + b[at..]
  {
    var i := 0;
    while i < |w| && w[i] <= f
      invariant 0 <= i <= |w|
      invariant forall k | 0 <= k < i :: w[k] <= f
    {
      i := i + 1;
    }
    at := i;
    OrderedInsert(w, b, f, x, at);
    w', b' := w[..i] + [f] + w[i..], b[..i] + [x] + b[i..];
  }

  /** Every entry of the table is listed with its frequency. */
  ghost predicate Lists(w: seq<nat>, b: seq<Byte>, frequency: map<Byte, nat>, key: int)
  {
    && |w| == |b|
    && (forall i | 0 <= i < |b| :: b[i] in frequency && w[i] == frequency[b[i]] && Signed(b[i]) < key)
    && (forall x | x in frequency && Signed(x) < key :: x in b)
  }

  lemma ListsInserted(w: seq<nat>, b: seq<Byte>, frequency: map<Byte, nat>, x: Byte, at: nat)
    requires Lists(w, b, frequency, Signed(x)) && x in frequency && at <= |w|
    ensures Lists(w[..at] + [frequency[x]] + w[at..], b[..at] + [x] + b[at..], frequency, Signed(x) + 1)
  {
    var w', b' := w[..at] + [frequency[x]] + w[at..], b[..at] + [x] + b[at..];
    forall i | 0 <= i < |b'|
      ensures b'[i] in frequency && w'[i] == frequency[b'[i]] && Signed(b'[i]) < Signed(x) + 1
    {
      if i != at {
        var k := if i < at then i else i - 1;
        assert b'[i] == b[k] && w'[i] == w[k];
      }
    }
    forall y | y in frequency && Signed(y) < Signed(x) + 1
      ensures y in b'
    {
      if y == x {
        assert b'[at] == x;
      } else {
        assert Signed(y) < Signed(x) by {
          assert Unsigned(Signed(y)) == y && Unsigned(Signed(x)) == x;
        }
        var i :| 0 <= i < |b| && b[i] == y;
        assert b'[if i < at then i else i + 1] == y;
      }
    }
  }

  lemma ListsSkipped(w: seq<nat>, b: seq<Byte>, frequency: map<Byte, nat>, x: Byte)
    requires Lists(w, b, frequency, Signed(x)) && x !in frequency
    ensures Lists(w, b, frequency, Signed(x) + 1)
  {
    forall y | y in frequency && Signed(y) < Signed(x) + 1
      ensures y in b
    {
      assert Unsigned(Signed(y)) == y && Unsigned(Signed(x)) == x;
    }
  }

  method SortByFrequency(frequency: map<Byte, nat>) returns (w: seq<nat>, b: seq<Byte>)
    ensures Ordered(w, b)
    ensures Lists(w, b, frequency, 128)
  {
    w, b := [], [];
    for key := -128 to 128
      invariant Ordered(w, b) && Lists(w, b, frequency, key)
    {
      var x := Unsigned(key);
      if x in frequency {
        ghost var w0, b0 := w, b;
        ghost var at;
        w, b, at := InsertEntry(w, b, frequency[x], x);
        ListsInserted(w0, b0, frequency, x, at);
      } else {
        ListsSkipped(w, b, frequency, x);
      }
    }
  }

  /** How often each listed byte occurs in the text. */
  function Counts(b: seq<Byte>, text: seq<Byte>): (w: seq<nat>)
    ensures |w| == |b| && forall i | 0 <= i < |b| :: w[i] == multiset(text)[b[i]]
  {
    seq(|b|, i requires 0 <= i < |b| => multiset(text)[b[i]])
  }

  lemma CountsSnoc(b: seq<Byte>, text: seq<Byte>, x: Byte, i: nat)
    requires Distinct(b) && i < |b| && b[i] == x
    ensures Counts(b, text + [x]) == Counts(b, text)[i := Counts(b, text)[i] + 1]
  {
    assert multiset(text + [x]) == multiset(text) + multiset{x};
  }

  lemma {:induction false} CountsEmpty(b: seq<Byte>, l: seq<nat>)
    requires |l| == |b|
    ensures Sum(Counts(b, [])) == 0 && Cost(Counts(b, []), l) == 0
  {
    if |b| > 0 {
      CountsEmpty(b[1..], l[1..]);
      assert Counts(b, [])[1..] == Counts(b[1..], []);
    }
  }

  lemma CostReweigh(w: seq<nat>, l: seq<nat>, i: nat, x: nat)
    requires i < |w| == |l|
    ensures Cost(w[i := x], l) + w[i] * l[i] == Cost(w, l) + x * l[i]
  {
    CostRemove(w, l, i);
    CostRemove(w[i := x], l, i);
    assert Remove(w[i := x], i) == Remove(w, i);
  }

  lemma OneMore(x: nat, y: nat)
    ensures (x + 1) * y == x * y + y
  {}

  /** One more byte adds one to its count, and its code's length to the cost. */
  lemma CountOneMore(b: seq<Byte>, t: seq<Byte>, x: Byte, l: seq<nat>, i: nat)
    requires Distinct(b) && i < |b| == |l| && b[i] == x
    ensures Sum(Counts(b, t + [x])) == Sum(Counts(b, t)) + 1
    ensures Cost(Counts(b, t + [x]), l) == Cost(Counts(b, t), l) + l[i]
  {
    var w := Counts(b, t);
    CountsSnoc(b, t, x, i);
    SumUpdate(w, i, w[i] + 1);
    CostReweigh(w, l, i, w[i] + 1);
    OneMore(w[i], l[i]);
  }

  /** The frequencies add up to the text's length, and the code's cost is the encoded length. */
  lemma {:induction false} EncodedLength(b: seq<Byte>, text: seq<Byte>, codes: Codes)
    requires Distinct(b) && (forall x | x in text :: x in b) && (forall x | x in b :: x in codes)
    ensures Sum(Counts(b, text)) == |text|
    ensures forall x | x in text :: x in codes
    ensures Cost(Counts(b, text), Lengths(b, codes)) == |Encode(codes, text)|
    decreases |text|
  {
    if |text| == 0 {
      CountsEmpty(b, Lengths(b, codes));
    } else {
      var k := |text| - 1;
      var t, x := text[..k], text[k];
      assert text == t + [x] && x in text;
      var i :| 0 <= i < |b| && b[i] == x;
      EncodedLength(b, t, codes);
      CountOneMore(b, t, x, Lengths(b, codes), i);
      EncodeSnoc(codes, t, x);
    }
  }

  // ----- packing -----

  /** The bits s so far: whole bytes written, the rest held in `packedBits`. */
  ghost predicate Packed(s: string, output: seq<Byte>, packedBits: nat, bitIndex: nat)
  {
    && bitIndex < 8 && bitIndex <= |s| && (|s| - bitIndex) % 8 == 0
    && output == PackBits(s[..|s| - bitIndex])
    && packedBits == ByteOf(s[|s| - bitIndex..])
  }

  lemma PartialByte(partial: string, c: char)
    requires |partial| < 8
    ensures ByteOf(partial + [c]) == ByteOf(partial) + Weight(c, |partial|) < 256
  {
    ByteOfSnoc(partial, c);
    ByteOfBound(partial + [c]);
    Pow2Monotone(|partial| + 1, 8);
    assert Pow2(8) == 256;
  }

  lemma PackedBit(s: string, output: seq<Byte>, packedBits: nat, bitIndex: nat, c: char)
    requires Packed(s, output, packedBits, bitIndex)
    ensures var bits := packedBits + Weight(c, bitIndex);
      && bits < 256
      && if bitIndex == 7 then Packed(s + [c], output + [bits], 0, 0)
         else Packed(s + [c], output, bits, bitIndex + 1)
  {
    var k := |s| - bitIndex;
    PartialByte(s[k..], c);
    if bitIndex == 7 {
      PackedFull(s, s[..k], s[k..] + [c]);
    } else {
      PackedPart(s, k, c);
    }
  }

  lemma PackedPart(s: string, k: nat, c: char)
    requires k <= |s|
    ensures (s + [c])[..k] == s[..k] && (s + [c])[k..] == s[k..] + [c]
  {
  }

  lemma PackedFull(s: string, whole: string, last: string)
    requires |whole| % 8 == 0 && |last| == 8 && |s| == |whole| + 7
    requires s[..|whole|] == whole && s[|whole|..] == last[..7]
    ensures var t := s + [last[7]]; PackBits(t[..|t|]) == PackBits(whole) + [ByteOf(last)] && ByteOf(t[|t|..]) == 0
  {
    var t := s + [last[7]];
    assert last == last[..7] + [last[7]];
    assert t == whole + last && t[..|t|] == t && t[|t|..] == "";
    PackAppend(whole, last);
  }

  lemma PackedEnd(s: string, output: seq<Byte>, packedBits: nat, bitIndex: nat)
    requires Packed(s, output, packedBits, bitIndex)
    ensures packedBits < 256
    ensures PackBits(s) == if bitIndex > 0 then output + [packedBits] else output
  {
    var k := |s| - bitIndex;
    ByteOfBound(s[k..]);
    Pow2Monotone(bitIndex, 8);
    assert Pow2(8) == 256;
    if bitIndex > 0 {
      PackAppend(s[..k], s[k..]);
      assert s == s[..k] + s[k..];
    } else {
      assert s[..k] == s;
    }
  }

  /** Packs the bits of one code: the bit at `bitIndex` is still clear when it is or-ed in, so the
      `|=` is an addition. */
  method PackCode(code: string, output0: seq<Byte>, packedBits0: nat, bitIndex0: nat, ghost s: string)
    returns (output: seq<Byte>, packedBits: nat, bitIndex: nat)
    requires Packed(s, output0, packedBits0, bitIndex0)
    ensures Packed(s + code, output, packedBits, bitIndex)
  {
    output, packedBits, bitIndex := output0, packedBits0, bitIndex0;
    assert s + code[..0] == s;
    var i := 0;
    while i < |code|
      invariant 0 <= i <= |code|
      invariant Packed(s + code[..i], output, packedBits, bitIndex)
    {
      var k := code[i];
      PackedBit(s + code[..i], output, packedBits, bitIndex, k);
      assert s + code[..i + 1] == (s + code[..i]) + [k];
      packedBits := packedBits + Weight(k, bitIndex);
      bitIndex := bitIndex + 1;
      if bitIndex == 8 {
        output := output + [packedBits];
        packedBits := 0;
        bitIndex := 0;
      }
      i := i + 1;
    }
    assert code[..i] == code;
  }

  method PackText(text: seq<Byte>, codes: Codes) returns (output: seq<Byte>)
    requires forall x | x in text :: x in codes
    ensures output == PackBits(Encode(codes, text))
  {
    output := [];
    var packedBits, bitIndex: nat := 0, 0;
    var at := 0;
    while at < |text|
      invariant 0 <= at <= |text|
      invariant forall x | x in text[..at] :: x in codes
      invariant Packed(Encode(codes, text[..at]), output, packedBits, bitIndex)
    {
      var c := text[at];
      EncodeSnoc(codes, text[..at], c);
      assert text[..at + 1] == text[..at] + [c];
      output, packedBits, bitIndex := PackCode(codes[c], output, packedBits, bitIndex, Encode(codes, text[..at]));
      at := at + 1;
    }
    assert text[..at] == text;
    PackedEnd(Encode(codes, text), output, packedBits, bitIndex);
    if bitIndex > 0 {
      output := output + [packedBits];
    }
  }

  // ----- the file -----

  function CompressedFile(codes: Codes, text: seq<Byte>): seq<Byte>
    requires Storable(codes) && forall x | x in text :: x in codes
  {
    EncodeTable(codes) + DELIMITER + PackBits(Encode(codes, text))
  }

  /** The table and the payload; both are empty where there is no delimiter, as no file is written. */
  function Parts(file: seq<Byte>): (seq<Byte>, seq<Byte>)
  {
    match Separate(file, DELIMITER)
    case None => ([], [])
    case Some(parts) => parts
  }

  /** What the reading client makes of a received file; None where the table is cut short. */
  function Decompressed(file: seq<Byte>): Option<seq<Byte>>
  {
    var (table, payload) := Parts(file);
    match ParseTable(table, map[])
    case None => None
    case Some(codes) => Some(Decode(Reverse(codes), "", UnpackBits(payload)))
  }

  /** A file without a delimiter decompresses to an empty one. */
  lemma NoDelimiter(file: seq<Byte>)
    requires forall i: nat :: !OccursAt(file, DELIMITER, i)
    ensures Decompressed(file) == Some([])
  {
    NowhereFound(file, DELIMITER);
    assert UnpackBits([]) == "";
  }

  /** Any entries, written as a table in which the delimiter does not show, and any payload: the file
      decompresses to what the payload's bits decode to with the map those entries make. */
  lemma DecompressesAny(entries: seq<(Byte, string)>, payload: seq<Byte>, file: seq<Byte>)
    requires StorableEntries(entries) && file == Joined(entries) + DELIMITER + payload
    requires forall i | 0 <= i < |Joined(entries)| :: !OccursAt(file, DELIMITER, i)
    ensures Decompressed(file) == Some(Decode(Reverse(Collected(entries, map[])), "", UnpackBits(payload)))
  {
    var at := |Joined(entries)|;
    assert file[at] == 0x7F && file[at + 1] == 0xFE;
    DelimiterAt(file, at);
    FirstFound(file, DELIMITER, at);
    assert file[..at] == Joined(entries) && file[at + |DELIMITER|..] == payload;
    ParseJoined(entries, map[]);
  }

  /** Without entries cut short there is an output, and with one there is none. */
  lemma DecompressesWhen(file: seq<Byte>)
    ensures Decompressed(file).Some? <==>
      exists entries :: StorableEntries(entries) && Parts(file).0 == Joined(entries)
  {
    var table := Parts(file).0;
    if ParseTable(table, map[]).Some? {
      var entries := ParsedIsJoined(table, map[]);
    } else {
      forall entries | StorableEntries(entries)
        ensures table != Joined(entries)
      {
        ParseJoined(entries, map[]);
      }
    }
  }

  method Decompress(file: seq<Byte>) returns (output: Option<seq<Byte>>)
    ensures output == Decompressed(file)
  {
    var parts := SeparateBinaryFile(file, DELIMITER);
    var table, payload: seq<Byte> := [], [];
    if parts.Some? {
      table, payload := parts.value.0, parts.value.1;
    }
    var result := DecodeBinaryFileToMap(table);
    if result.None? {
      return None;
    }
    var bits := ReadBinaryFile(payload);
    var inflated := Inflate(bits, result.value);
    return Some(inflated);
  }

  /** The codes deflate produces for a text: Huffman codes for its bytes in frequency order. */
  ghost predicate CodesFor(codes: Codes, b: seq<Byte>, text: seq<Byte>)
  {
    && Distinct(b)
    && (forall x :: x in b <==> x in text)
    && Ordered(Counts(b, text), b)
    && IsHuffmanCode(Counts(b, text), b, codes)
  }

  lemma HuffmanShort(w: seq<nat>, b: seq<Byte>, codes: Codes)
    requires IsHuffmanCode(w, b, codes)
    ensures ShortCodes(codes) && Storable(codes)
  {
    ShortStorable(codes);
  }

  /** The pipeline's central law, for every short prefix code with an all-zero code: what comes back is
      the text, followed by one copy of that code's symbol for every whole all-zero code in the padding
      of the last byte. */
  lemma PrefixRoundTrip(codes: Codes, z: Byte, text: seq<Byte>)
    requires IsPrefixCode(codes) && ShortCodes(codes) && Storable(codes)
    requires z in codes && codes[z] == Zeros(|codes[z]|)
    requires forall x | x in text :: x in codes
    ensures Decompressed(CompressedFile(codes, text)) ==
      Some(text + Repeat(z, Copies(Padding(|Encode(codes, text)|), |codes[z]|)))
  {
    var bits := Encode(codes, text);
    var payload := PackBits(bits);
    SeparateCombined(codes, payload);
    assert forall x | x in codes :: '\0' !in codes[x];
    TableRoundTrip(codes);
    EncodeBits(codes, text);
    PackRoundTrip(bits);
    DecodePadded(codes, z, text, Padding(|bits|));
  }

  /** For the codes deflate produces, that symbol is the most frequent byte. */
  lemma RoundTrip(codes: Codes, b: seq<Byte>, text: seq<Byte>)
    requires CodesFor(codes, b, text)
    ensures Storable(codes) && (forall x | x in text :: x in codes) && |b| > 0
    ensures b[|b| - 1] in codes && |codes[b[|b| - 1]]| >= 1
    ensures var z := b[|b| - 1];
      Decompressed(CompressedFile(codes, text)) ==
        Some(text + Repeat(z, Copies(Padding(|Encode(codes, text)|), |codes[z]|)))
  {
    HuffmanShort(Counts(b, text), b, codes);
    PrefixRoundTrip(codes, b[|b| - 1], text);
  }

  lemma DecodePadded(codes: Codes, z: Byte, text: seq<Byte>, padding: nat)
    requires IsPrefixCode(codes) && (forall x | x in text :: x in codes)
    requires z in codes && codes[z] == Zeros(|codes[z]|)
    ensures Decode(Reverse(codes), "", Encode(codes, text) + Zeros(padding)) ==
      text + Repeat(z, Copies(padding, |codes[z]|))
  {
    ReverseInverts(codes);
    DecodeText(Reverse(codes), codes, text, Zeros(padding));
    DecodeZeros(Reverse(codes), codes, z, padding);
  }

  /** The text comes back unchanged exactly when the padding is too short for the all-zero code. */
  lemma RoundTripExact(codes: Codes, z: Byte, text: seq<Byte>)
    requires IsPrefixCode(codes) && ShortCodes(codes) && Storable(codes)
    requires z in codes && codes[z] == Zeros(|codes[z]|)
    requires forall x | x in text :: x in codes
    ensures Decompressed(CompressedFile(codes, text)) == Some(text) <==>
      Padding(|Encode(codes, text)|) < |codes[z]|
  {
    PrefixRoundTrip(codes, z, text);
    AppendNothing(text, z, Copies(Padding(|Encode(codes, text)|), |codes[z]|));
  }

  /** For deflate this is decided by the frequencies, which fix the tree: the text comes back unchanged
      exactly when the padding after as many bits as all merged weights add up to is shorter than the
      depth of the heaviest leaf. */
  lemma LosslessByFrequencies(codes: Codes, b: seq<Byte>, text: seq<Byte>, run: Run)
    requires CodesFor(codes, b, text)
    requires Complete(Counts(b, text), run) && WellFormed(run) && Lengths(b, codes) == LeafDepths(run)
    ensures Storable(codes) && (forall x | x in text :: x in codes) && |run.leafParent| == |b|
    ensures Decompressed(CompressedFile(codes, text)) == Some(text) <==>
      Padding(Sum(run.weight)) < LeafDepth(run, |b| - 1)
  {
    HuffmanShort(Counts(b, text), b, codes);
    RoundTripExact(codes, b[|b| - 1], text);
    TreeAttained(Counts(b, text), run);
    EncodedLength(b, text, codes);
    assert Lengths(b, codes)[|b| - 1] == |codes[b[|b| - 1]]|;
  }

  lemma AppendNothing(text: seq<Byte>, z: Byte, q: nat)
    ensures text + Repeat(z, q) == text <==> q == 0
  {
    assert |text + Repeat(z, q)| == |text| + q;
  }

  // ----- a text that does not come back unchanged -----

  lemma {:induction false} UnitAtMostHalf(l: nat)
    requires l >= 1
    ensures Unit(l) <= 0.5 && (l >= 2 ==> Unit(l) <= 0.25)
    decreases l
  {
    if l >= 2 {
      UnitAtMostHalf(l - 1);
    }
  }

  const AAB: seq<Byte> := [97, 97, 98]

  lemma SymbolsOfAab(b: seq<Byte>)
    requires Distinct(b) && (forall x :: x in b <==> x in AAB) && Ordered(Counts(b, AAB), b)
    ensures b == [98, 97]
  {
    assert AAB[0] == 97 && AAB[2] == 98;
    assert 97 in b && 98 in b;
    var i :| 0 <= i < |b| && b[i] == 97;
    var j :| 0 <= j < |b| && b[j] == 98;
    assert multiset(AAB)[97] == 2 && multiset(AAB)[98] == 1;
    assert Counts(b, AAB)[i] == 2 && Counts(b, AAB)[j] == 1;
    assert j < i;
    assert |b| == 2 by {
      ElementsSize(b);
      forall x
        ensures x in Elements(b) <==> x == 97 || x == 98
      {
        assert x in b <==> x in AAB;
      }
      assert Elements(b) == {97, 98};
    }
  }

  /** Two symbols share the code space evenly. */
  lemma TwoCodes(l: seq<nat>)
    requires |l| == 2 && l[0] >= 1 && l[1] >= 1 && KraftSum(l) == 1.0
    ensures l == [1, 1]
  {
    UnitAtMostHalf(l[0]);
    UnitAtMostHalf(l[1]);
    assert KraftSum(l[1..]) == Unit(l[1]) + KraftSum(l[1..][1..]);
  }

  /** The text "aab" comes back with five more a's, decoded from the padding of its only byte. */
  lemma PaddingDecoded(codes: Codes, b: seq<Byte>)
    requires CodesFor(codes, b, AAB)
    ensures Storable(codes) && forall x | x in AAB :: x in codes
    ensures Decompressed(CompressedFile(codes, AAB)) == Some(AAB + [97, 97, 97, 97, 97])
  {
    SymbolsOfAab(b);
    RoundTrip(codes, b, AAB);
    AabLengths(codes, b);
    assert Repeat<Byte>(97, 5) == [97, 97, 97, 97, 97];
  }

  lemma AabLengths(codes: Codes, b: seq<Byte>)
    requires CodesFor(codes, b, AAB) && b == [98, 97]
    ensures forall x | x in AAB :: x in codes
    ensures |codes[97]| == 1 && |Encode(codes, AAB)| == 3 && Padding(|Encode(codes, AAB)|) == 5
    ensures Copies(Padding(|Encode(codes, AAB)|), 1) == 5
  {
    var l := Lengths(b, codes);
    TwoCodes(l);
    assert l[1] == |codes[97]|;
    EncodedLength(b, AAB, codes);
    assert multiset(AAB)[97] == 2 && multiset(AAB)[98] == 1;
    assert Counts(b, AAB) == [1, 2];
    CostOfOnes(1, 2);
  }

  lemma CostOfOnes(x: nat, y: nat)
    ensures Cost([x, y], [1, 1]) == x + y
  {
    CostSnoc([x], [1], y, 1);
    assert [x] + [y] == [x, y];
    var ones: seq<nat> := [1, 1];
    assert [1] + [1] == ones;
    assert Cost([x], [1]) == x * 1 + Cost([], []) by {
      assert [x][1..] == [];
      var one: seq<nat> := [1];
      assert one[1..] == [];
    }
  }

  /** The packed payload is exactly the weighted length, rounded up to bytes. */
  lemma PackedCost(codes: Codes, b: seq<Byte>, text: seq<Byte>)
    requires Distinct(b) && (forall x | x in text :: x in b) && (forall x | x in b :: x in codes)
    ensures forall x | x in text :: x in codes
    ensures |PackBits(Encode(codes, text))| == (Cost(Counts(b, text), Lengths(b, codes)) + 7) / 8
  {
    EncodedLength(b, text, codes);
    PackedLength(Encode(codes, text));
  }

  /** Kraft's inequality for the codes of a list of symbols. */
  lemma CodesKraft(b: seq<Byte>, codes: Codes)
    requires Distinct(b) && IsPrefixCode(codes) && forall x | x in b :: x in codes
    ensures KraftSum(Lengths(b, codes)) <= 1.0
  {
    var list := CodeList(b, codes);
    forall i, j | 0 <= i < |list| && 0 <= j < |list| && i != j
      ensures !(list[i] <= list[j])
    {
      assert b[i] in codes && b[j] in codes && b[i] != b[j];
    }
    assert forall s | s in list :: IsBits(s);
    PrefixFreeKraft(list);
    assert Widths(list) == Lengths(b, codes);
  }

  /** No prefix code encodes the text in fewer bits than deflate's. */
  lemma ShortestEncoding(codes: Codes, b: seq<Byte>, text: seq<Byte>, other: Codes)
    requires CodesFor(codes, b, text)
    requires IsPrefixCode(other) && forall x | x in text :: x in other
    ensures forall x | x in text :: x in codes
    ensures |Encode(codes, text)| <= |Encode(other, text)|
  {
    CodesKraft(b, other);
    EncodedLength(b, text, codes);
    EncodedLength(b, text, other);
  }

  /** With an optimal code the packed payload is never longer than the text. */
  lemma NoExpansion(codes: Codes, b: seq<Byte>, text: seq<Byte>)
    requires Distinct(b) && (forall x | x in text :: x in b) && (forall x | x in b :: x in codes)
    requires Optimal(Counts(b, text), Lengths(b, codes))
    ensures forall x | x in text :: x in codes
    ensures |PackBits(Encode(codes, text))| <= |text|
  {
    var w := Counts(b, text);
    PackedCost(codes, b, text);
    EncodedLength(b, text, codes);
    AtMost256(b);
    EightBits(|b|);
    CostOfEights(w);
    assert Cost(w, Lengths(b, codes)) <= Cost(w, Eights(|b|));
  }

  /** The fixed code of eight bits a byte. */
  function Eights(n: nat): (l: seq<nat>)
    ensures |l| == n
  {
    if n == 0 then [] else [8] + Eights(n - 1)
  }

  lemma {:induction false} CostOfEights(w: seq<nat>)
    ensures Cost(w, Eights(|w|)) == 8 * Sum(w)
  {
    if |w| > 0 {
      CostOfEights(w[1..]);
    }
  }

  lemma {:induction false} KraftOfEights(n: nat)
    ensures KraftSum(Eights(n)) == n as real * Unit(8)
  {
    if n > 0 {
      KraftOfEights(n - 1);
    }
  }

  lemma EightBits(n: nat)
    requires n <= 256
    ensures KraftSum(Eights(n)) <= 1.0
  {
    KraftOfEights(n);
    UnitScaled(8, 8);
    assert Unit(8) == 1.0 / 256.0;
  }

  function UpTo(n: nat): (s: set<int>)
    ensures |s| == n && forall x :: x in s <==> 0 <= x < n
  {
    if n == 0 then {} else UpTo(n - 1) + {n - 1}
  }

  lemma AtMost256(b: seq<Byte>)
    requires Distinct(b)
    ensures |b| <= 256
  {
    ElementsSize(b);
    var used: set<int> := set x | x in b;
    assert used == Elements(b);
    assert used <= UpTo(256);
    assert UpTo(256) == used + (UpTo(256) - used);
  }

  // ----- deflate -----

  lemma SortedCounts(w: seq<nat>, b: seq<Byte>, frequency: map<Byte, nat>, text: seq<Byte>)
    requires frequency.Keys == Elements(text)
    requires forall x | x in frequency :: frequency[x] == multiset(text)[x]
    requires Ordered(w, b) && Lists(w, b, frequency, 128)
    ensures w == Counts(b, text) && Distinct(b) && Elements(b) == Elements(text)
    ensures Nondecreasing(w) && (forall i | 0 <= i < |w| :: w[i] >= 1)
  {
    assert forall x: Byte :: Signed(x) < 128;
    assert forall x :: x in Elements(text) <==> x in text;
    assert forall x :: x in Elements(b) <==> x in b;
    forall i | 0 <= i < |w|
      ensures w[i] == Counts(b, text)[i] >= 1
    {
      assert b[i] in text;
    }
  }

  lemma CountsTotal(b: seq<Byte>, text: seq<Byte>)
    requires Distinct(b) && Elements(b) == Elements(text)
    ensures Sum(Counts(b, text)) == |text| && |b| == |Elements(text)|
  {
    ElementsSize(b);
    var codes := map x | x in b :: "0";
    forall x | x in text
      ensures x in b
    {
      assert x in Elements(text);
    }
    EncodedLength(b, text, codes);
  }

  /** The frequencies of the text's bytes, ascending. */
  method SortedFrequencies(text: seq<Byte>) returns (w: seq<nat>, b: seq<Byte>)
    ensures w == Counts(b, text) && Ordered(w, b)
    ensures Distinct(b) && Elements(b) == Elements(text) && |b| == |Elements(text)|
    ensures Nondecreasing(w) && (forall i | 0 <= i < |w| :: w[i] >= 1) && Sum(w) == |text|
  {
    var frequency := CountFrequencies(text);
    w, b := SortByFrequency(frequency);
    SortedCounts(w, b, frequency, text);
    CountsTotal(b, text);
  }

  /** The codes count upwards from the heaviest symbol, as the canonical codes of the tree's depths. */
  ghost predicate Canonical(codes: Codes, b: seq<Byte>, run: Run)
    requires WellFormed(run)
  {
    (forall x | x in Reversed(b) :: x in codes) && IsCanonical(Reversed(LeafDepths(run)), CodeList(Reversed(b), codes))
  }

  /** What deflate makes of a text: its bytes by frequency, their Huffman tree, and its canonical codes. */
  ghost predicate Deflated(codes: Codes, b: seq<Byte>, run: Run, text: seq<Byte>)
  {
    && CodesFor(codes, b, text)
    && Complete(Counts(b, text), run) && WellFormed(run)
    && (forall x | x in b :: x in codes) && Lengths(b, codes) == LeafDepths(run)
    && Canonical(codes, b, run)
  }

  lemma NotBefore(b1: seq<Byte>, b2: seq<Byte>, text: seq<Byte>, i: nat)
    requires Ordered(Counts(b1, text), b1) && i < |b1| && i <= |b2| && b1[..i] == b2[..i]
    ensures forall k | 0 <= k < i :: b2[k] != b1[i]
  {
    forall k | 0 <= k < i
      ensures b2[k] != b1[i]
    {
      assert b2[k] == b2[..i][k] == b1[..i][k] == b1[k];
      assert Counts(b1, text)[k] <= Counts(b1, text)[i];
    }
  }

  lemma InOrder(b1: seq<Byte>, b2: seq<Byte>, text: seq<Byte>, i: nat)
    requires Ordered(Counts(b1, text), b1) && Ordered(Counts(b2, text), b2)
    requires forall x :: x in b1 <==> x in b2
    requires i < |b1| && i < |b2| && b1[..i] == b2[..i]
    ensures b1[i] == b2[i]
  {
    assert b1[i] in b1 && b2[i] in b2;
    var j :| 0 <= j < |b2| && b2[j] == b1[i];
    var m :| 0 <= m < |b1| && b1[m] == b2[i];
    NotBefore(b1, b2, text, i);
    NotBefore(b2, b1, text, i);
    var w1, w2 := Counts(b1, text), Counts(b2, text);
    assert w2[j] == w1[i] && w1[m] == w2[i];
  }

  lemma {:induction false} SameOrder(b1: seq<Byte>, b2: seq<Byte>, text: seq<Byte>, i: nat)
    requires Ordered(Counts(b1, text), b1) && Ordered(Counts(b2, text), b2)
    requires forall x :: x in b1 <==> x in b2
    requires i <= |b1| && i <= |b2|
    ensures b1[..i] == b2[..i]
  {
    if i > 0 {
      SameOrder(b1, b2, text, i - 1);
      InOrder(b1, b2, text, i - 1);
      assert b1[..i] == b1[..i - 1] + [b1[i - 1]] && b2[..i] == b2[..i - 1] + [b2[i - 1]];
    }
  }

  lemma SameCodes(codes1: Codes, codes2: Codes, b: seq<Byte>, run: Run)
    requires WellFormed(run) && |b| == |run.leafParent|
    requires Canonical(codes1, b, run) && Canonical(codes2, b, run)
    requires codes1.Keys == Elements(b) && codes2.Keys == Elements(b)
    ensures codes1 == codes2
  {
    var r := Reversed(b);
    var list1, list2 := CodeList(r, codes1), CodeList(r, codes2);
    forall x | x in codes1
      ensures codes1[x] == codes2[x]
    {
      assert x in Elements(b);
      ReversedMember(b, x);
      var i :| 0 <= i < |r| && r[i] == x;
      ValueInjective(list1[i], list2[i]);
    }
  }

  /** The text alone decides what deflate makes of it. */
  lemma DeflateDecided(codes1: Codes, b1: seq<Byte>, run1: Run,
                       codes2: Codes, b2: seq<Byte>, run2: Run, text: seq<Byte>)
    requires Deflated(codes1, b1, run1, text) && Deflated(codes2, b2, run2, text)
    ensures codes1 == codes2 && b1 == b2 && run1 == run2
  {
    OrderDecided(codes1, b1, codes2, b2, text);
    RunUnique(Counts(b1, text), run1, run2);
    CompleteWellFormed(Counts(b1, text), run1);
    SameCodes(codes1, codes2, b1, run1);
  }

  lemma OrderDecided(codes1: Codes, b1: seq<Byte>, codes2: Codes, b2: seq<Byte>, text: seq<Byte>)
    requires CodesFor(codes1, b1, text) && CodesFor(codes2, b2, text)
    ensures b1 == b2
  {
    ElementsSize(b1);
    ElementsSize(b2);
    assert Elements(b1) == Elements(b2) by {
      forall x
        ensures x in Elements(b1) <==> x in Elements(b2)
      {
        assert x in b1 <==> x in text;
        assert x in b2 <==> x in text;
      }
    }
    SameOrder(b1, b2, text, |b1|);
    assert b1[..|b1|] == b1 && b2[..|b1|] == b2;
  }

  method CodesOf(w: seq<nat>, b: seq<Byte>) returns (codes: Codes, ghost run: Run)
    requires |w| == |b| >= 2 && Distinct(b)
    requires Nondecreasing(w) && (forall i | 0 <= i < |w| :: w[i] >= 1) && Sum(w) < MAX_TOTAL
    ensures IsHuffmanCode(w, b, codes)
    ensures Complete(w, run) && WellFormed(run) && codes.Keys == Elements(b)
    ensures forall x | x in b :: x in codes
    ensures Lengths(b, codes) == LeafDepths(run) && Canonical(codes, b, run)
  {
    var A := new nat[|w|](i requires 0 <= i < |w| => w[i]);
    var B := new Byte[|b|](i requires 0 <= i < |b| => b[i]);
    assert A[..] == w && B[..] == b;
    codes, run := GenerateHuffmanCodes(A, B);
  }

  /** Compresses a text of at least two distinct bytes. */
  method Deflate(text: seq<Byte>) returns (file: seq<Byte>, codes: Codes, ghost b: seq<Byte>, ghost run: Run)
    requires |Elements(text)| >= 2 && |text| < MAX_TOTAL
    ensures Deflated(codes, b, run, text)
    ensures Storable(codes) && (forall x | x in text :: x in codes)
    ensures file == CompressedFile(codes, text)
  {
    var weights, symbols := SortedFrequencies(text);
    b := symbols;
    codes, run := CodesOf(weights, symbols);
    assert forall x :: x in b <==> x in text by {
      assert forall x :: x in b <==> x in Elements(b);
      assert forall x :: x in text <==> x in Elements(text);
    }
    HuffmanShort(weights, symbols, codes);
    var payload := PackText(text, codes);
    var table := EncodeMapToBinaryFile(codes);
    file := CombineBinaryFiles(table, payload);
  }

  /** The writing client and the reading client together, on any text of at least two distinct bytes
      and less than 2^31 bytes. */
  method DeflateThenInflate(text: seq<Byte>) returns (output: Option<seq<Byte>>, codes: Codes,
                                                      ghost b: seq<Byte>, ghost run: Run, ghost z: Byte)
    requires |Elements(text)| >= 2 && |text| < MAX_TOTAL
    ensures Deflated(codes, b, run, text)
    ensures forall x | x in text :: x in codes
    ensures z in codes && codes[z] == Zeros(|codes[z]|) && 1 <= |codes[z]| <= MAX_CODE_LENGTH
    ensures forall x | x in text :: multiset(text)[x] <= multiset(text)[z]
    ensures output == Some(text + Repeat(z, Copies(Padding(|Encode(codes, text)|), |codes[z]|)))
  {
    var file;
    file, codes, b, run := Deflate(text);
    z := b[|b| - 1];
    RoundTrip(codes, b, text);
    MostFrequentLast(b, text);
    output := Decompress(file);
  }

  lemma MostFrequentLast(b: seq<Byte>, text: seq<Byte>)
    requires |b| > 0 && Ordered(Counts(b, text), b) && forall x :: x in b <==> x in text
    ensures forall x | x in text :: multiset(text)[x] <= multiset(text)[b[|b| - 1]]
  {
    forall x | x in text
      ensures multiset(text)[x] <= multiset(text)[b[|b| - 1]]
    {
      var i :| 0 <= i < |b| && b[i] == x;
      assert Counts(b, text)[i] <= Counts(b, text)[|b| - 1];
    }
  }
}
