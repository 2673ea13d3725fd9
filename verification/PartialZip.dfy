/**
 Walking a ZIP file from local header to local header, without its directory. The layout is
 that of section 4.3.7 of the PKWARE ZIP application note; all numbers are little-endian.
 */
module PartialZip {
  import opened Wire

  const HEADER_BYTES: nat := 30
  const STORED: nat := 0
  const DEFLATED: nat := 8
  const SIGNATURE: nat := 0x0403_4b50

  type uint32 = x: int | 0 <= x < 0x1_0000_0000

  function Le16(data: bytes, at: nat): (n: nat)
    requires at + 2 <= |data|
    ensures n < 0x1_0000
  {
    var b0: int, b1: int := data[at], data[at + 1];
    b0 + 0x100 * b1
  }

  function Le32(data: bytes, at: nat): uint32
    requires at + 4 <= |data|
  {
    Le16(data, at) + 0x1_0000 * Le16(data, at + 2)
  }

  /** A complete local header starts here. */
  predicate HeaderAt(data: bytes, offset: nat)
  {
    offset + HEADER_BYTES <= |data| && Le32(data, offset) == SIGNATURE
  }

  function DataStart(data: bytes, offset: nat): nat
    requires HeaderAt(data, offset)
  {
    offset + HEADER_BYTES + Le16(data, offset + 26) + Le16(data, offset + 28)
  }

  /** The name and the extra field of the header lie within the data. */
  predicate EntryFits(data: bytes, offset: nat)
    requires HeaderAt(data, offset)
  {
    DataStart(data, offset) <= |data|
  }

  /** An entry as the walk sees it. `content` ends with the data when the claimed size is 0 or too large;
      then, or with a data descriptor, the entry is incomplete and the walk ends. */
  datatype Entry = Entry(encrypted: bool, compression: nat, uncompressedSize: uint32, name: bytes, content: bytes,
                         incomplete: bool, next: nat)

  function EntryAt(data: bytes, offset: nat): (e: Entry)
    requires HeaderAt(data, offset) && EntryFits(data, offset)
    ensures !e.incomplete ==> offset < e.next <= |data|
  {
    var flags, start, size := Le16(data, offset + 6), DataStart(data, offset), Le32(data, offset + 18);
    var complete := 0 < size <= |data| - start;
    var end := if complete then start + size else |data|;
    Entry(flags % 2 == 1, Le16(data, offset + 8), Le32(data, offset + 22),
          data[offset + HEADER_BYTES..offset + HEADER_BYTES + Le16(data, offset + 26)], data[start..end],
          !complete || flags / 8 % 2 == 1, end)
  }

  // ---------------------------------------------------------------- byte by byte

  /** A local header is 30 bytes that begin with PK, 3, 4. */
  lemma HeaderBytes(data: bytes, offset: nat)
    ensures HeaderAt(data, offset) <==>
      offset + 30 <= |data| && data[offset] == 80 && data[offset + 1] == 75 && data[offset + 2] == 3 && data[offset + 3] == 4
  {
  }

  /** A byte as a number. */
  function At(data: bytes, i: nat): int
    requires i < |data|
  {
    data[i]
  }

  /** Where the fields of an entry lie, counted from its header, and what they are worth. */
  lemma EntryBytes(data: bytes, o: nat)
    requires HeaderAt(data, o)
    ensures o + 30 <= |data|
    ensures var name, extra := At(data, o + 26) + 256 * At(data, o + 27), At(data, o + 28) + 256 * At(data, o + 29);
      var claimed := At(data, o + 18) + 256 * At(data, o + 19) + 65_536 * At(data, o + 20) + 16_777_216 * At(data, o + 21);
      var start := o + 30 + name + extra;
      && (EntryFits(data, o) <==> start <= |data|)
      && (EntryFits(data, o) ==>
            var e := EntryAt(data, o);
            && (e.encrypted <==> At(data, o + 6) % 2 == 1) && e.compression == At(data, o + 8) + 256 * At(data, o + 9)
            && e.uncompressedSize == At(data, o + 22) + 256 * At(data, o + 23) + 65_536 * At(data, o + 24) + 16_777_216 * At(data, o + 25)
            && e.name == data[o + 30..o + 30 + name]
            && (e.incomplete <==> claimed == 0 || start + claimed > |data| || At(data, o + 6) / 8 % 2 == 1)
            && e.next == (if claimed == 0 || start + claimed > |data| then |data| else start + claimed)
            && e.content == data[start..e.next])
  {
    hide Le16, Le32, EntryAt, EntryFits, HeaderAt, At;
    EntryNumbers(data, o);
    Bits(data, o + 6);
    Bytes16(data, o + 8);
    Bytes32(data, o + 18);
    Bytes32(data, o + 22);
    Bytes16(data, o + 26);
    Bytes16(data, o + 28);
  }

  /** The same by number, each read where it lies. */
  lemma EntryNumbers(data: bytes, offset: nat)
    requires HeaderAt(data, offset)
    ensures offset + 30 <= |data|
    ensures var start, claimed := offset + 30 + Le16(data, offset + 26) + Le16(data, offset + 28), Le32(data, offset + 18);
      && (EntryFits(data, offset) <==> start <= |data|)
      && (EntryFits(data, offset) ==>
            var e := EntryAt(data, offset);
            && (e.encrypted <==> Le16(data, offset + 6) % 2 == 1) && e.compression == Le16(data, offset + 8)
            && e.uncompressedSize == Le32(data, offset + 22) && e.name == data[offset + 30..offset + 30 + Le16(data, offset + 26)]
            && (e.incomplete <==> claimed == 0 || start + claimed > |data| || Le16(data, offset + 6) / 8 % 2 == 1)
            && e.next == (if claimed == 0 || start + claimed > |data| then |data| else start + claimed)
            && e.content == data[start..e.next])
  {
    hide Le16, Le32;
  }

  lemma Bytes16(data: bytes, at: nat)
    requires at + 2 <= |data|
    ensures Le16(data, at) == At(data, at) + 256 * At(data, at + 1)
  {
  }

  lemma Bytes32(data: bytes, at: nat)
    requires at + 4 <= |data|
    ensures Le32(data, at) == At(data, at) + 256 * At(data, at + 1) + 65_536 * At(data, at + 2) + 16_777_216 * At(data, at + 3)
  {
  }

  /** The two flags are in the first of their two bytes. */
  lemma Bits(data: bytes, at: nat)
    requires at + 2 <= |data|
    ensures Le16(data, at) % 2 == At(data, at) % 2 && Le16(data, at) / 8 % 2 == At(data, at) / 8 % 2
  {
    var low: int, high: int := data[at], data[at + 1];
    assert (low + 256 * high) % 2 == low % 2 && (low + 256 * high) / 8 == low / 8 + 32 * high;
    assert (low / 8 + 32 * high) % 2 == low / 8 % 2;
  }
}
