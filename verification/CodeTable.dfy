/** The serialised code table and the file layout: table, delimiter, packed bits. */
module CodeTable {
  import opened Sequences
  import opened BinaryStrings
  import opened Bytes
  import opened Optional
  import opened HuffmanCodes

  const LENGTH_BYTES: nat := 8
  const DELIMITER: seq<Byte> := [0x7F, 0xFE]

  // ----- writing -----

  function LittleEndian(n: nat, k: nat): (r: seq<Byte>)
    ensures |r| == k
  {
    if k == 0 then [] else [n % 256] + LittleEndian(n / 256, k - 1)
  }

  function FromLittleEndian(bytes: seq<Byte>): nat
  {
    if |bytes| == 0 then 0 else bytes[0] + 256 * FromLittleEndian(bytes[1..])
  }

  function Pow256(k: nat): nat
  {
    if k == 0 then 1 else 256 * Pow256(k - 1)
  }

  lemma {:induction false} LittleEndianRoundTrip(n: nat, k: nat)
    requires n < Pow256(k)
    ensures FromLittleEndian(LittleEndian(n, k)) == n
  {
    if k > 0 {
      LittleEndianRoundTrip(n / 256, k - 1);
      assert LittleEndian(n, k)[1..] == LittleEndian(n / 256, k - 1);
    }
  }

  /** Strings of bytes, the only strings a C++ `std::string` holds. */
  predicate IsByteString(s: string)
  {
    forall i | 0 <= i < |s| :: s[i] as int < 256
  }

  function ToBytes(s: string): (r: seq<Byte>)
    requires IsByteString(s)
    ensures |r| == |s| && forall i | 0 <= i < |s| :: r[i] == s[i] as int
  {
    seq(|s|, i requires 0 <= i < |s| => s[i] as int)
  }

  function FromBytes(b: seq<Byte>): (s: string)
    ensures |s| == |b| && IsByteString(s)
    ensures forall i | 0 <= i < |s| :: s[i] as int == b[i]
  {
    seq(|b|, i requires 0 <= i < |b| => b[i] as char)
  }

  /** Tables a C++ program can hold: byte strings shorter than 2^64. */
  ghost predicate Storable(codes: Codes)
  {
    forall x | x in codes :: IsByteString(codes[x]) && |codes[x]| < Pow256(LENGTH_BYTES)
  }

  function Entry(key: Byte, code: string): seq<Byte>
    requires IsByteString(code)
  {
    [key] + LittleEndian(|code|, LENGTH_BYTES) + ToBytes(code)
  }

  /** The entries with signed keys from `key` up, in ascending order. */
  function EncodeFrom(codes: Codes, key: int): seq<Byte>
    requires Storable(codes) && -128 <= key <= 128
    decreases 128 - key, codes
  {
    if key == 128 then []
    else
      var x := Unsigned(key);
      (if x in codes then Entry(x, codes[x]) else []) + EncodeFrom(codes, key + 1)
  }

  function EncodeTable(codes: Codes): seq<Byte>
    requires Storable(codes)
  {
    EncodeFrom(codes, -128)
  }

  /** Writes one key, its length as eight bytes, and its characters. */
  method WriteEntry(file: seq<Byte>, key: Byte, code: string) returns (r: seq<Byte>)
    requires IsByteString(code)
    ensures r == file + Entry(key, code)
  {
    r := file + [key];
    var len := |code|;
    r := r + LittleEndian(len, LENGTH_BYTES);
    r := r + ToBytes(code);
  }

  lemma EncodeStep(codes: Codes, key: int)
    requires Storable(codes) && -128 <= key < 128
    ensures var x := Unsigned(key);
      EncodeFrom(codes, key) ==
        if x in codes then Entry(x, codes[x]) + EncodeFrom(codes, key + 1) else EncodeFrom(codes, key + 1)
  {
    assert [] + EncodeFrom(codes, key + 1) == EncodeFrom(codes, key + 1);
  }

  method EncodeMapToBinaryFile(codes: Codes) returns (file: seq<Byte>)
    requires Storable(codes)
    ensures file == EncodeTable(codes)
  {
    file := [];
    ghost var whole := EncodeTable(codes);
    assert [] + whole == whole;
    for key := -128 to 128
      invariant whole == file + EncodeFrom(codes, key)
    {
      var x := Unsigned(key);
      EncodeStep(codes, key);
      if x in codes {
        Associate(file, Entry(x, codes[x]), EncodeFrom(codes, key + 1));
        file := WriteEntry(file, x, codes[x]);
      }
    }
    assert file + [] == file;
  }

  lemma Associate(a: seq<Byte>, b: seq<Byte>, c: seq<Byte>)
    ensures a + (b + c) == (a + b) + c
  {
  }

  // ----- reading -----

  /** Reads entries until the file ends; None when an entry is cut short. */
  function ParseTable(bytes: seq<Byte>, table: Codes): Option<Codes>
    decreases |bytes|
  {
    if |bytes| == 0 then Some(table)
    else if |bytes| < 1 + LENGTH_BYTES then None
    else
      var len := FromLittleEndian(bytes[1..1 + LENGTH_BYTES]);
      var rest := bytes[1 + LENGTH_BYTES..];
      if len > |rest| then None
      else ParseTable(rest[len..], table[bytes[0] := Until(FromBytes(rest[..len]), '\0')])
  }

  /** Reads the file as a stream, entry by entry, until a key read meets its end. */
  method DecodeBinaryFileToMap(bytes: seq<Byte>) returns (result: Option<Codes>)
    ensures result == ParseTable(bytes, map[])
  {
    var myMap: Codes := map[];
    var inFile := bytes;
    while |inFile| > 0
      invariant ParseTable(bytes, map[]) == ParseTable(inFile, myMap)
      decreases |inFile|
    {
      var key := inFile[0];
      if |inFile| < 1 + LENGTH_BYTES {
        return None;
      }
      var len := FromLittleEndian(inFile[1..1 + LENGTH_BYTES]);
      var rest := inFile[1 + LENGTH_BYTES..];
      if len > |rest| {
        return None;
      }
      var buffer := FromBytes(rest[..len]);
      myMap := myMap[key := Until(buffer, '\0')];
      inFile := rest[len..];
    }
    return Some(myMap);
  }

  lemma BytesRoundTrip(s: string)
    requires IsByteString(s)
    ensures FromBytes(ToBytes(s)) == s
  {
  }

  lemma ParseEntry(key: Byte, code: string, rest: seq<Byte>, table: Codes)
    requires IsByteString(code) && |code| < Pow256(LENGTH_BYTES)
    ensures ParseTable(Entry(key, code) + rest, table) == ParseTable(rest, table[key := Until(code, '\0')])
  {
    var len := LittleEndian(|code|, LENGTH_BYTES);
    var bytes := Entry(key, code) + rest;
    assert bytes[1..1 + LENGTH_BYTES] == len;
    LittleEndianRoundTrip(|code|, LENGTH_BYTES);
    assert bytes[1 + LENGTH_BYTES..] == ToBytes(code) + rest;
    assert (ToBytes(code) + rest)[..|code|] == ToBytes(code);
    assert (ToBytes(code) + rest)[|code|..] == rest;
    BytesRoundTrip(code);
  }

  /** What reading the table back yields: every string cut at its first NUL. */
  function Truncated(codes: Codes): Codes
  {
    map x | x in codes :: Until(codes[x], '\0')
  }

  function KeysFrom(codes: Codes, key: int): Codes
  {
    map x | x in codes && Signed(x) >= key :: codes[x]
  }

  lemma KeyStep(full: Codes, key: int, table: Codes)
    requires -128 <= key < 128
    ensures var x := Unsigned(key);
      if x in full
      then table[x := full[x]] + KeysFrom(full, key + 1) == table + KeysFrom(full, key)
      else KeysFrom(full, key + 1) == KeysFrom(full, key)
  {
    var x := Unsigned(key);
    assert Signed(x) == key;
    assert forall y: Byte | Signed(y) == key :: y == x;
    if x in full {
      var left, right := table[x := full[x]] + KeysFrom(full, key + 1), table + KeysFrom(full, key);
      assert left.Keys == right.Keys;
    }
  }

  lemma ParseOne(codes: Codes, key: int, table: Codes)
    requires Storable(codes) && -128 <= key < 128
    ensures var x := Unsigned(key);
      ParseTable(EncodeFrom(codes, key), table) ==
        ParseTable(EncodeFrom(codes, key + 1), if x in codes then table[x := Until(codes[x], '\0')] else table)
  {
    var x := Unsigned(key);
    EncodeStep(codes, key);
    if x in codes {
      ParseEntry(x, codes[x], EncodeFrom(codes, key + 1), table);
    }
  }

  lemma {:induction false} ParseFrom(codes: Codes, key: int, table: Codes)
    requires Storable(codes) && -128 <= key <= 128
    ensures ParseTable(EncodeFrom(codes, key), table) == Some(table + KeysFrom(Truncated(codes), key))
    decreases 128 - key
  {
    var full := Truncated(codes);
    if key == 128 {
      assert KeysFrom(full, key) == map[];
      assert table + map[] == table;
    } else {
      var x := Unsigned(key);
      ParseOne(codes, key, table);
      KeyStep(full, key, table);
      ParseFrom(codes, key + 1, if x in codes then table[x := full[x]] else table);
    }
  }

  /** Reading a written table gives every entry back, cut at its first NUL. */
  lemma TableReadsBack(codes: Codes)
    requires Storable(codes)
    ensures ParseTable(EncodeTable(codes), map[]) == Some(Truncated(codes))
  {
    ParseFrom(codes, -128, map[]);
    assert KeysFrom(Truncated(codes), -128) == Truncated(codes);
    assert map[] + Truncated(codes) == Truncated(codes);
  }

  /** The table round-trips exactly when no string contains a NUL. */
  lemma TableRoundTrip(codes: Codes)
    requires Storable(codes)
    ensures ParseTable(EncodeTable(codes), map[]) == Some(codes) <==> forall x | x in codes :: '\0' !in codes[x]
  {
    TableReadsBack(codes);
    forall x | x in codes
      ensures Truncated(codes)[x] == codes[x] <==> '\0' !in codes[x]
    {
      UntilWhole(codes[x], '\0');
    }
    if forall x | x in codes :: '\0' !in codes[x] {
      assert Truncated(codes) == codes;
    } else {
      var x :| x in codes && '\0' in codes[x];
      assert Truncated(codes)[x] != codes[x];
    }
  }

  // ----- which files are tables -----

  /** Entries a C++ program can hold. */
  ghost predicate StorableEntries(entries: seq<(Byte, string)>)
  {
    forall i | 0 <= i < |entries| :: IsByteString(entries[i].1) && |entries[i].1| < Pow256(LENGTH_BYTES)
  }

  /** Entries one after another. */
  function Joined(entries: seq<(Byte, string)>): seq<Byte>
    requires StorableEntries(entries)
  {
    if |entries| == 0 then [] else Entry(entries[0].0, entries[0].1) + Joined(entries[1..])
  }

  /** The table that entries make: later entries replace earlier ones of the same key. */
  function Collected(entries: seq<(Byte, string)>, table: Codes): Codes
    decreases |entries|
  {
    if |entries| == 0 then table
    else Collected(entries[1..], table[entries[0].0 := Until(entries[0].1, '\0')])
  }

  lemma {:induction false} ParseJoined(entries: seq<(Byte, string)>, table: Codes)
    requires StorableEntries(entries)
    ensures ParseTable(Joined(entries), table) == Some(Collected(entries, table))
    decreases |entries|
  {
    if |entries| > 0 {
      var (key, code) := entries[0];
      ParseEntry(key, code, Joined(entries[1..]), table);
      ParseJoined(entries[1..], table[key := Until(code, '\0')]);
    }
  }

  lemma {:induction false} FromLittleEndianRoundTrip(bytes: seq<Byte>)
    ensures FromLittleEndian(bytes) < Pow256(|bytes|)
    ensures LittleEndian(FromLittleEndian(bytes), |bytes|) == bytes
  {
    if |bytes| > 0 {
      FromLittleEndianRoundTrip(bytes[1..]);
      var n := FromLittleEndian(bytes);
      assert n % 256 == bytes[0] && n / 256 == FromLittleEndian(bytes[1..]);
      assert bytes == [bytes[0]] + bytes[1..];
    }
  }

  /** The first entry of a file that holds one. */
  lemma FirstEntry(bytes: seq<Byte>) returns (code: string, rest: seq<Byte>)
    requires |bytes| >= 1 + LENGTH_BYTES
    requires FromLittleEndian(bytes[1..1 + LENGTH_BYTES]) <= |bytes| - 1 - LENGTH_BYTES
    ensures IsByteString(code) && |code| < Pow256(LENGTH_BYTES)
    ensures bytes == Entry(bytes[0], code) + rest
  {
    var length, after := bytes[1..1 + LENGTH_BYTES], bytes[1 + LENGTH_BYTES..];
    var len := FromLittleEndian(length);
    FromLittleEndianRoundTrip(length);
    code, rest := FromBytes(after[..len]), after[len..];
    assert ToBytes(code) == after[..len];
    assert bytes == [bytes[0]] + length + (after[..len] + rest);
    assert [bytes[0]] + length + (after[..len] + rest) == ([bytes[0]] + length + after[..len]) + rest;
  }

  lemma {:induction false} ParsedIsJoined(bytes: seq<Byte>, table: Codes) returns (entries: seq<(Byte, string)>)
    requires ParseTable(bytes, table).Some?
    ensures StorableEntries(entries) && bytes == Joined(entries)
    decreases |bytes|
  {
    if |bytes| == 0 {
      entries := [];
    } else {
      var code, rest := FirstEntry(bytes);
      ParseEntry(bytes[0], code, rest, table);
      var more := ParsedIsJoined(rest, table[bytes[0] := Until(code, '\0')]);
      entries := [(bytes[0], code)] + more;
      assert entries[1..] == more;
    }
  }

  /** A file is read as a table exactly when it is some entries one after another; the table is then
      what those entries make. */
  lemma TableParses(bytes: seq<Byte>, table: Codes)
    ensures ParseTable(bytes, map[]) == Some(table) <==>
      exists entries :: StorableEntries(entries) && bytes == Joined(entries) && table == Collected(entries, map[])
  {
    if ParseTable(bytes, map[]) == Some(table) {
      var entries := ParsedIsJoined(bytes, map[]);
      ParseJoined(entries, map[]);
    } else {
      forall entries | StorableEntries(entries) && bytes == Joined(entries)
        ensures table != Collected(entries, map[])
      {
        ParseJoined(entries, map[]);
      }
    }
  }

  /** The entries with signed keys from `key` up, each once, ascending. */
  ghost predicate ListsFrom(codes: Codes, key: int, entries: seq<(Byte, string)>)
  {
    && (forall i | 0 <= i < |entries| ::
          Signed(entries[i].0) >= key && entries[i].0 in codes && codes[entries[i].0] == entries[i].1)
    && (forall i, j | 0 <= i < j < |entries| :: Signed(entries[i].0) < Signed(entries[j].0))
    && (forall x | x in codes && Signed(x) >= key :: (x, codes[x]) in entries)
  }

  lemma OneKey(key: int)
    requires -128 <= key < 128
    ensures forall y: Byte :: Signed(y) == key <==> y == Unsigned(key)
  {
  }

  lemma ListOneMore(codes: Codes, key: int, x: Byte, more: seq<(Byte, string)>)
    requires x in codes && Signed(x) == key && (forall y: Byte :: Signed(y) == key <==> y == x)
    requires ListsFrom(codes, key + 1, more)
    ensures ListsFrom(codes, key, [(x, codes[x])] + more)
  {
    var entries := [(x, codes[x])] + more;
    assert entries[0] in entries && forall e | e in more :: e in entries;
  }

  lemma ListSame(codes: Codes, key: int, x: Byte, more: seq<(Byte, string)>)
    requires x !in codes && (forall y: Byte :: Signed(y) == key <==> y == x)
    requires ListsFrom(codes, key + 1, more)
    ensures ListsFrom(codes, key, more)
  {
  }

  lemma JoinedCons(x: Byte, code: string, more: seq<(Byte, string)>)
    requires StorableEntries(more) && IsByteString(code) && |code| < Pow256(LENGTH_BYTES)
    ensures StorableEntries([(x, code)] + more)
    ensures Joined([(x, code)] + more) == Entry(x, code) + Joined(more)
  {
    assert ([(x, code)] + more)[1..] == more;
  }

  lemma {:induction false} EncodedEntries(codes: Codes, key: int) returns (entries: seq<(Byte, string)>)
    requires Storable(codes) && -128 <= key <= 128
    ensures StorableEntries(entries) && EncodeFrom(codes, key) == Joined(entries)
    ensures ListsFrom(codes, key, entries)
    decreases 128 - key
  {
    if key == 128 {
      entries := [];
    } else {
      var x := Unsigned(key);
      EncodeStep(codes, key);
      OneKey(key);
      var more := EncodedEntries(codes, key + 1);
      if x in codes {
        ListOneMore(codes, key, x, more);
        JoinedCons(x, codes[x], more);
        entries := [(x, codes[x])] + more;
      } else {
        ListSame(codes, key, x, more);
        entries := more;
      }
    }
  }

  /** A written table lists the map's entries, each once, by ascending signed key. */
  lemma TableSorted(codes: Codes) returns (entries: seq<(Byte, string)>)
    requires Storable(codes)
    ensures StorableEntries(entries) && EncodeTable(codes) == Joined(entries)
    ensures forall e :: e in entries <==> e.0 in codes && codes[e.0] == e.1
    ensures forall i, j | 0 <= i < j < |entries| :: Signed(entries[i].0) < Signed(entries[j].0)
  {
    entries := EncodedEntries(codes, -128);
  }

  // ----- the delimiter -----

  /** No delimiter inside, and none can begin at the last byte. */
  ghost predicate Clean(s: seq<Byte>)
  {
    && (forall i | 0 <= i < |s| - 1 :: !(s[i] == 0x7F && s[i + 1] == 0xFE))
    && (|s| > 0 ==> s[|s| - 1] != 0x7F)
  }

  lemma CleanConcat(a: seq<Byte>, b: seq<Byte>)
    requires Clean(a) && Clean(b)
    ensures Clean(a + b)
  {
    var s := a + b;
    forall i | 0 <= i < |s| - 1
      ensures !(s[i] == 0x7F && s[i + 1] == 0xFE)
    {
      if i + 1 < |a| {
        assert s[i] == a[i] && s[i + 1] == a[i + 1];
      } else if i >= |a| {
        assert s[i] == b[i - |a|] && s[i + 1] == b[i - |a| + 1];
      }
    }
  }

  /** Codes short enough that their length byte is neither delimiter byte. */
  ghost predicate ShortCodes(codes: Codes)
  {
    forall x | x in codes :: IsBits(codes[x]) && 1 <= |codes[x]| < 0x7F
  }

  lemma ShortStorable(codes: Codes)
    requires ShortCodes(codes)
    ensures Storable(codes)
  {
    assert Pow256(1) == 256;
    assert Pow256(LENGTH_BYTES) >= 256;
  }

  lemma SmallLength(n: nat)
    requires n < 256
    ensures LittleEndian(n, LENGTH_BYTES) == [n, 0, 0, 0, 0, 0, 0, 0]
  {
    assert n / 256 == 0 && n % 256 == n;
    ZeroLength(7);
  }

  lemma {:induction false} ZeroLength(k: nat)
    ensures LittleEndian(0, k) == Repeat(0, k)
  {
    if k > 0 {
      ZeroLength(k - 1);
    }
  }

  lemma EntryClean(key: Byte, code: string)
    requires IsBits(code) && 1 <= |code| < 0x7F
    ensures Clean(Entry(key, code))
  {
    SmallLength(|code|);
    var e := Entry(key, code);
    assert e[1] == |code|;
    assert forall i | 2 <= i < 9 :: e[i] == 0;
    assert forall i | 9 <= i < |e| :: e[i] == 48 || e[i] == 49;
  }

  lemma {:induction false} TableClean(codes: Codes, key: int)
    requires ShortCodes(codes) && Storable(codes) && -128 <= key <= 128
    ensures Clean(EncodeFrom(codes, key))
    decreases 128 - key
  {
    if key < 128 {
      TableClean(codes, key + 1);
      var x := Unsigned(key);
      if x in codes {
        EntryClean(x, codes[x]);
        CleanConcat(Entry(x, codes[x]), EncodeFrom(codes, key + 1));
      } else {
        CleanConcat([], EncodeFrom(codes, key + 1));
      }
    }
  }

  method CombineBinaryFiles(data1: seq<Byte>, data2: seq<Byte>) returns (output: seq<Byte>)
    ensures output == data1 + DELIMITER + data2
  {
    output := data1;
    output := output + DELIMITER;
    output := output + data2;
  }

  ghost predicate OccursAt(combined: seq<Byte>, delimiter: seq<Byte>, i: nat)
  {
    i + |delimiter| <= |combined| && forall k | 0 <= k < |delimiter| :: combined[i + k] == delimiter[k]
  }

  lemma OccursLater(combined: seq<Byte>, delimiter: seq<Byte>, i: nat)
    requires i >= 1 && |combined| >= 1
    ensures OccursAt(combined, delimiter, i) <==> OccursAt(combined[1..], delimiter, i - 1)
  {
    assert forall k | i <= k < |combined| :: combined[1..][k - 1] == combined[k];
  }

  /** What lies before and after the first occurrence of the delimiter. */
  function Separate(combined: seq<Byte>, delimiter: seq<Byte>): Option<(seq<Byte>, seq<Byte>)>
  {
    if |combined| < |delimiter| then None
    else if combined[..|delimiter|] == delimiter then Some(([], combined[|delimiter|..]))
    else if |combined| == 0 then None
    else
      match Separate(combined[1..], delimiter)
      case None => None
      case Some((before, after)) => Some(([combined[0]] + before, after))
  }

  /** An occurrence with none before it decides the split. */
  lemma {:induction false} FirstFound(combined: seq<Byte>, delimiter: seq<Byte>, at: nat)
    requires OccursAt(combined, delimiter, at)
    requires forall i | 0 <= i < at :: !OccursAt(combined, delimiter, i)
    ensures Separate(combined, delimiter) == Some((combined[..at], combined[at + |delimiter|..]))
    decreases |combined|
  {
    if at == 0 {
      assert combined[..|delimiter|] == delimiter;
      assert combined[..0] == [];
    } else {
      assert !OccursAt(combined, delimiter, 0);
      OccursLater(combined, delimiter, at);
      forall i | 0 <= i < at - 1
        ensures !OccursAt(combined[1..], delimiter, i)
      {
        OccursLater(combined, delimiter, i + 1);
      }
      FirstFound(combined[1..], delimiter, at - 1);
      assert combined[..at] == [combined[0]] + combined[1..][..at - 1];
      assert combined[at + |delimiter|..] == combined[1..][at - 1 + |delimiter|..];
    }
  }

  lemma {:induction false} NowhereFound(combined: seq<Byte>, delimiter: seq<Byte>)
    requires forall i: nat :: !OccursAt(combined, delimiter, i)
    ensures Separate(combined, delimiter) == None
    decreases |combined|
  {
    assert !OccursAt(combined, delimiter, 0);
    if |combined| >= |delimiter| && |combined| > 0 {
      forall i: nat
        ensures !OccursAt(combined[1..], delimiter, i)
      {
        OccursLater(combined, delimiter, i + 1);
      }
      NowhereFound(combined[1..], delimiter);
    }
  }

  lemma SplitAt(combined: seq<Byte>, delimiter: seq<Byte>, at: nat)
    requires OccursAt(combined, delimiter, at)
    ensures combined == combined[..at] + delimiter + combined[at + |delimiter|..]
  {
    assert combined[at..at + |delimiter|] == delimiter;
    assert combined == combined[..at] + combined[at..at + |delimiter|] + combined[at + |delimiter|..];
  }

  /** The split is at the delimiter's first occurrence, and there is none exactly when it does not occur. */
  lemma SeparateExact(combined: seq<Byte>, delimiter: seq<Byte>)
    ensures match Separate(combined, delimiter)
      case None => forall i: nat :: !OccursAt(combined, delimiter, i)
      case Some((before, after)) =>
        && combined == before + delimiter + after
        && forall i | 0 <= i < |before| :: !OccursAt(combined, delimiter, i)
  {
    if i: nat :| OccursAt(combined, delimiter, i) {
      var at := FirstOccurrence(combined, delimiter, i);
      FirstFound(combined, delimiter, at);
      SplitAt(combined, delimiter, at);
    } else {
      NowhereFound(combined, delimiter);
    }
  }

  lemma {:induction false} FirstOccurrence(combined: seq<Byte>, delimiter: seq<Byte>, i: nat) returns (at: nat)
    requires OccursAt(combined, delimiter, i)
    ensures OccursAt(combined, delimiter, at)
    ensures forall k | 0 <= k < at :: !OccursAt(combined, delimiter, k)
    decreases i
  {
    if k :| 0 <= k < i && OccursAt(combined, delimiter, k) {
      at := FirstOccurrence(combined, delimiter, k);
    } else {
      at := i;
    }
  }

  method SeparateBinaryFile(combined: seq<Byte>, delimiter: seq<Byte>)
    returns (result: Option<(seq<Byte>, seq<Byte>)>)
    ensures result == Separate(combined, delimiter)
  {
    var delimiterIndex := 0;
    while delimiterIndex + |delimiter| <= |combined|
      invariant 0 <= delimiterIndex <= |combined| + 1
      invariant forall i | 0 <= i < delimiterIndex :: !OccursAt(combined, delimiter, i)
    {
      if combined[delimiterIndex..delimiterIndex + |delimiter|] == delimiter {
        break;
      }
      delimiterIndex := delimiterIndex + 1;
    }
    if delimiterIndex + |delimiter| > |combined| {
      NowhereFound(combined, delimiter);
      return None;
    }
    var end := delimiterIndex + |delimiter|;
    FirstFound(combined, delimiter, delimiterIndex);
    return Some((combined[..delimiterIndex], combined[end..]));
  }

  /** Whatever the payload contains, a serialised table is split off where it ends. */
  lemma SeparateCombined(codes: Codes, payload: seq<Byte>)
    requires ShortCodes(codes) && Storable(codes)
    ensures Separate(EncodeTable(codes) + DELIMITER + payload, DELIMITER) == Some((EncodeTable(codes), payload))
  {
    var table := EncodeTable(codes);
    TableClean(codes, -128);
    SeparateClean(table, payload);
  }

  lemma DelimiterAt(combined: seq<Byte>, i: nat)
    requires i + 2 <= |combined|
    ensures OccursAt(combined, DELIMITER, i) <==> combined[i] == 0x7F && combined[i + 1] == 0xFE
  {
    assert DELIMITER[0] == 0x7F && DELIMITER[1] == 0xFE;
    assert OccursAt(combined, DELIMITER, i) ==> combined[i + 0] == DELIMITER[0] && combined[i + 1] == DELIMITER[1];
  }

  lemma SeparateClean(table: seq<Byte>, payload: seq<Byte>)
    requires Clean(table)
    ensures Separate(table + DELIMITER + payload, DELIMITER) == Some((table, payload))
  {
    var combined := table + DELIMITER + payload;
    forall i | 0 <= i < |table|
      ensures !OccursAt(combined, DELIMITER, i)
    {
      DelimiterAt(combined, i);
      assert combined[i] == table[i];
      assert i + 1 < |table| ==> combined[i + 1] == table[i + 1];
    }
    DelimiterAt(combined, |table|);
    FirstFound(combined, DELIMITER, |table|);
    assert combined[..|table|] == table && combined[|table| + 2..] == payload;
  }
}
