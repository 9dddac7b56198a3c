/** Packet buffers: requests, data blocks and acknowledgments. */
module Packets {
  import opened Bytes
  import opened Sequences

  type UInt16 = x: int | 0 <= x < 0x1_0000

  const BLOCK_SIZE: nat := 512
  const MAX_PACKET_SIZE: nat := 516
  const OPCODE_DATA: UInt16 := 3
  const OPCODE_ACK: UInt16 := 4
  const OPCODE_ERROR: UInt16 := 5

  // ----- headers -----

  function BigEndian(x: UInt16): (r: seq<Byte>)
    ensures |r| == 2
  {
    [x / 256, x % 256]
  }

  /** Reads two bytes, masking each with 0xFF, as most parsers do. */
  function Masked(hi: Byte, lo: Byte): UInt16
  {
    hi * 256 + lo
  }

  /** Reads two signed chars without masking, as the read handler does with an acknowledgment: a low
      byte of 128 or more is sign-extended, and its ones drown the high byte. */
  function Unmasked(hi: Byte, lo: Byte): UInt16
  {
    if lo >= 128 then 0xFF00 + lo else hi * 256 + lo
  }

  lemma MaskedReadsBack(x: UInt16)
    ensures Masked(BigEndian(x)[0], BigEndian(x)[1]) == x
  {
  }

  /** The unmasked reading keeps the low byte, and the high byte unless its ones are drowned; it is right
      exactly for the numbers whose low byte is below 128, or whose high byte is all ones already. */
  lemma UnmaskedReadsBack(x: UInt16)
    ensures Unmasked(BigEndian(x)[0], BigEndian(x)[1]) % 256 == x % 256
    ensures Unmasked(BigEndian(x)[0], BigEndian(x)[1]) / 256 == if x % 256 < 128 then x / 256 else 0xFF
    ensures Unmasked(BigEndian(x)[0], BigEndian(x)[1]) == x <==> x % 256 < 128 || x >= 0xFF00
  {
  }

  method CreateDataPacket(packet: array<Byte>, blockNumber: UInt16, data: array<Byte>, dataSize: nat)
    requires packet != data && dataSize <= data.Length && 4 + dataSize <= packet.Length
    modifies packet
    ensures packet[..4 + dataSize] == BigEndian(OPCODE_DATA) + BigEndian(blockNumber) + data[..dataSize]
    ensures packet[4 + dataSize..] == old(packet[4 + dataSize..])
  {
    packet[0] := 0x00;
    packet[1] := 0x03;
    packet[2] := blockNumber / 256;
    packet[3] := blockNumber % 256;
    for i := 0 to dataSize
      invariant packet[0] == 0 && packet[1] == 3 && packet[2] == blockNumber / 256 && packet[3] == blockNumber % 256
      invariant forall k | 0 <= k < i :: packet[4 + k] == data[k]
      invariant forall k | 4 + dataSize <= k < packet.Length :: packet[k] == old(packet[k])
    {
      packet[4 + i] := data[i];
    }
  }

  method CreateACKPacket(packet: array<Byte>, blockNumber: UInt16)
    requires packet.Length >= 4
    modifies packet
    ensures packet[..4] == BigEndian(OPCODE_ACK) + BigEndian(blockNumber)
    ensures packet[4..] == old(packet[4..])
  {
    packet[0] := 0x00;
    packet[1] := 0x04;
    packet[2] := blockNumber / 256;
    packet[3] := blockNumber % 256;
  }

  // ----- file blocks -----

  /** A file cut into blocks of 512 bytes, the last of which may be shorter. */
  function Blocks(file: seq<Byte>): (blocks: seq<seq<Byte>>)
    ensures forall i | 0 <= i < |blocks| :: 1 <= |blocks[i]| <= BLOCK_SIZE
    decreases |file|, 1
  {
    if file == [] then [] else FirstAndRest(file)
  }

  function FirstAndRest(file: seq<Byte>): (blocks: seq<seq<Byte>>)
    requires file != []
    ensures forall i | 0 <= i < |blocks| :: 1 <= |blocks[i]| <= BLOCK_SIZE
    decreases |file|, 0
  {
    if |file| <= BLOCK_SIZE then [file] else [file[..BLOCK_SIZE]] + Blocks(file[BLOCK_SIZE..])
  }

  /** Block n of a file, counting from 1; empty where there is none. */
  function Block(file: seq<Byte>, n: nat): (block: seq<Byte>)
    ensures |block| <= BLOCK_SIZE
  {
    if 1 <= n <= |Blocks(file)| then Blocks(file)[n - 1] else []
  }

  /** Up to 512 bytes from an offset. */
  function BytesFrom(file: seq<Byte>, from: nat): (block: seq<Byte>)
  {
    if from >= |file| then []
    else if from + BLOCK_SIZE <= |file| then file[from..from + BLOCK_SIZE]
    else file[from..]
  }

  /** Block n starts at offset (n - 1) * 512. */
  lemma {:induction false} BlockAt(file: seq<Byte>, n: nat)
    requires n >= 1
    ensures Block(file, n) == BytesFrom(file, (n - 1) * BLOCK_SIZE)
    decreases n
  {
    assert file != [] ==> Blocks(file) == FirstAndRest(file);
    if |file| > BLOCK_SIZE && n > 1 {
      var rest := file[BLOCK_SIZE..];
      BlockAt(rest, n - 1);
      assert Block(file, n) == Block(rest, n - 1);
      assert BytesFrom(file, (n - 1) * BLOCK_SIZE) == BytesFrom(rest, (n - 2) * BLOCK_SIZE);
    }
  }

  /** Consecutive blocks put the file together. */
  lemma NextBlock(file: seq<Byte>, n: nat)
    requires n >= 1 && ((n - 1) * BLOCK_SIZE <= |file| || Block(file, n) != [])
    ensures (n - 1) * BLOCK_SIZE <= |file|
    ensures file[..(n - 1) * BLOCK_SIZE] + Block(file, n) ==
      if n * BLOCK_SIZE <= |file| then file[..n * BLOCK_SIZE] else file
    ensures |Block(file, n)| == BLOCK_SIZE <==> n * BLOCK_SIZE <= |file|
    ensures |Block(file, n)| == 0 <==> (n - 1) * BLOCK_SIZE == |file|
  {
    BlockAt(file, n);
  }

  method ReadDataBlock(file: seq<Byte>, blockNumber: UInt16, data: array<Byte>) returns (dataSize: nat)
    requires data.Length >= BLOCK_SIZE
    modifies data
    ensures dataSize <= BLOCK_SIZE && data[..dataSize] == Block(file, blockNumber)
    ensures forall k | dataSize <= k < data.Length :: data[k] == old(data[k])
  {
    dataSize := 0;
    var position: int := (blockNumber - 1) * BLOCK_SIZE;
    if position < 0 {
      return;
    }
    while dataSize < BLOCK_SIZE && position + dataSize < |file|
      invariant dataSize <= BLOCK_SIZE
      invariant dataSize > 0 ==> position + dataSize <= |file|
      invariant forall k | 0 <= k < dataSize :: data[k] == file[position + k]
      invariant forall k | dataSize <= k < data.Length :: data[k] == old(data[k])
    {
      data[dataSize] := file[position + dataSize];
      dataSize := dataSize + 1;
    }
    BlockAt(file, blockNumber);
  }

  /** Loads a block through the caller's buffer. */
  method LoadBlock(file: seq<Byte>, blockNumber: UInt16, dataBuffer: array<Byte>) returns (block: seq<Byte>)
    requires dataBuffer.Length >= BLOCK_SIZE
    modifies dataBuffer
    ensures block == Block(file, blockNumber)
  {
    var dataSize := ReadDataBlock(file, blockNumber, dataBuffer);
    block := dataBuffer[..dataSize];
  }

  // ----- requests -----

  /** What the builder writes for a string: it stops after a NUL inside, and adds one of its own. */
  function Terminated(s: seq<Byte>): (r: seq<Byte>)
    ensures |r| <= |s| + 1
  {
    Until(s, 0) + (if |Until(s, 0)| < |s| then [0, 0] else [0])
  }

  function RequestPacket(opcode: UInt16, filename: seq<Byte>, mode: seq<Byte>): seq<Byte>
  {
    BigEndian(opcode) + Terminated(filename) + Terminated(mode)
  }

  lemma TerminatedAt(s: seq<Byte>, i: nat)
    requires i <= |Until(s, 0)|
    ensures i < |Until(s, 0)| ==> i < |s| && Terminated(s)[i] == s[i] && s[i] != 0
    ensures i == |Until(s, 0)| < |s| ==>
      s[i] == 0 && |Terminated(s)| == i + 2 && Terminated(s)[i] == Terminated(s)[i + 1] == 0
    ensures i == |Until(s, 0)| == |s| ==> |Terminated(s)| == i + 1 && Terminated(s)[i] == 0
  {
  }

  /** Copies one string into the buffer, NUL and all. */
  method WriteString(packet: array<Byte>, index0: nat, s: seq<Byte>) returns (index: nat)
    requires index0 + |Terminated(s)| <= packet.Length
    modifies packet
    ensures index == index0 + |Terminated(s)|
    ensures forall k | 0 <= k < |Terminated(s)| :: packet[index0 + k] == Terminated(s)[k]
    ensures forall k | 0 <= k < packet.Length && !(index0 <= k < index) :: packet[k] == old(packet[k])
  {
    index := index0;
    ghost var t := Terminated(s);
    ghost var length := |Until(s, 0)|;
    var i := 0;
    TerminatedAt(s, length);
    while i < |s|
      invariant 0 <= i <= length && index == index0 + i
      invariant forall k | 0 <= k < i :: packet[index0 + k] == t[k]
      invariant forall k | 0 <= k < packet.Length && !(index0 <= k < index) :: packet[k] == old(packet[k])
    {
      TerminatedAt(s, i);
      packet[index] := s[i];
      index := index + 1;
      if s[i] == 0 {
        break;
      }
      i := i + 1;
    }
    packet[index] := 0x00;
    index := index + 1;
  }

  lemma Split(packet: seq<Byte>, i: nat, j: nat)
    requires 2 <= i <= j <= |packet|
    ensures packet[..j] == packet[..2] + packet[2..i] + packet[i..j]
  {
  }

  method CreateRequestPacket(packet: array<Byte>, opcode: UInt16, filename: seq<Byte>, mode: seq<Byte>)
    returns (length: nat)
    requires opcode < 256 && |RequestPacket(opcode, filename, mode)| <= packet.Length
    modifies packet
    ensures length <= packet.Length && packet[..length] == RequestPacket(opcode, filename, mode)
  {
    packet[0] := 0x00;
    packet[1] := opcode;
    var index := WriteString(packet, 2, filename);
    length := WriteString(packet, index, mode);
    assert packet[2..index] == Terminated(filename);
    assert packet[index..length] == Terminated(mode);
    Split(packet[..], index, length);
  }

  datatype Request = Request(opcode: UInt16, filename: seq<Byte>, mode: seq<Byte>)

  /** The opcode, and two C strings from offset 2. */
  function ParseBuffer(buffer: seq<Byte>): Request
    requires |buffer| >= 3 && buffer[|buffer| - 1] == 0
  {
    var text := buffer[2..];
    var filename := Until(text, 0);
    assert text[|text| - 1] == 0;
    Request(Masked(buffer[0], buffer[1]), filename, Until(text[|filename| + 1..], 0))
  }

  /** The server's parse of a request in its zeroed 1024-byte buffer. */
  function ParseRequest(received: seq<Byte>): Request
    requires 2 <= |received| <= MAX_PACKET_SIZE
  {
    ParseBuffer(received + Repeat(0, 1024 - |received|))
  }

  /** A written string is read back up to its first NUL, whatever follows. */
  lemma TerminatedReadsBack(s: seq<Byte>, rest: seq<Byte>)
    ensures Until(Terminated(s) + rest, 0) == Until(s, 0)
  {
    var f := Until(s, 0);
    if |f| < |s| {
      assert Terminated(s) + rest == f + [0] + ([0] + rest);
      UntilStops(s, 0, [0] + rest);
    } else {
      UntilStops(s, 0, rest);
    }
  }

  lemma AfterHeader(opcode: UInt16, filename: seq<Byte>, mode: seq<Byte>, pad: seq<Byte>)
    ensures (RequestPacket(opcode, filename, mode) + pad)[2..] == Terminated(filename) + (Terminated(mode) + pad)
  {
    var head, f, m := BigEndian(opcode), Terminated(filename), Terminated(mode);
    assert (head + f + m) + pad == head + (f + (m + pad));
  }

  lemma AfterFilename(filename: seq<Byte>, rest: seq<Byte>)
    requires 0 !in filename
    ensures |Terminated(filename)| == |filename| + 1
    ensures (Terminated(filename) + rest)[|filename| + 1..] == rest
  {
    UntilWhole(filename, 0);
  }

  /** What the parse finds in a request followed by zeros. */
  lemma ParsedRequest(opcode: UInt16, filename: seq<Byte>, mode: seq<Byte>, pad: seq<Byte>)
    requires |pad| > 0 && pad[|pad| - 1] == 0
    ensures var parsed := ParseBuffer(RequestPacket(opcode, filename, mode) + pad);
      && parsed.opcode == opcode && parsed.filename == Until(filename, 0)
      && (0 !in filename ==> parsed.mode == Until(mode, 0))
  {
    var rest := Terminated(mode) + pad;
    AfterHeader(opcode, filename, mode, pad);
    MaskedReadsBack(opcode);
    TerminatedReadsBack(filename, rest);
    if 0 !in filename {
      UntilWhole(filename, 0);
      AfterFilename(filename, rest);
      TerminatedReadsBack(mode, pad);
    }
  }

  lemma RequestLength(opcode: UInt16, filename: seq<Byte>, mode: seq<Byte>)
    ensures 4 <= |RequestPacket(opcode, filename, mode)| <= 4 + |filename| + |mode|
  {
  }

  /** The opcode always comes through, and the whole request exactly when neither string holds a NUL. */
  lemma RequestRoundTrip(opcode: UInt16, filename: seq<Byte>, mode: seq<Byte>)
    requires 4 + |filename| + |mode| <= MAX_PACKET_SIZE
    ensures 2 <= |RequestPacket(opcode, filename, mode)| <= 4 + |filename| + |mode|
    ensures ParseRequest(RequestPacket(opcode, filename, mode)).opcode == opcode
    ensures ParseRequest(RequestPacket(opcode, filename, mode)) == Request(opcode, filename, mode) <==>
      0 !in filename && 0 !in mode
  {
    RequestLength(opcode, filename, mode);
    var received := RequestPacket(opcode, filename, mode);
    var pad: seq<Byte> := Repeat(0, 1024 - |received|);
    ParsedRequest(opcode, filename, mode, pad);
    var parsed := ParseBuffer(received + pad);
    assert ParseRequest(received) == parsed;
    UntilWhole(filename, 0);
    UntilWhole(mode, 0);
  }
}
