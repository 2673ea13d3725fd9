/**
 Damaged ZIP files that begin with intact entries: the walk visits all of them in order, and
 whatever follows, the file never counts as inspected.
 */
module PartialZipEntries {
  import opened Attachments
  import opened Options
  import opened PartialZip
  import opened Scanner
  import opened ScannerClean
  import opened ScannerTree
  import opened Wire

  type uint16 = x: int | 0 <= x < 0x1_0000

  /** A stored file with its local header. The fields in `other` (version, time, date and checksum) do not matter. */
  datatype StoredFile = StoredFile(name: bytes, extra: bytes, content: bytes, flags: uint16, other: seq<byte>)
  {
    /** Not encrypted, without a data descriptor, not empty, and with lengths that fit their fields. */
    predicate Plain()
    {
      && flags % 2 == 0 && flags / 8 % 2 == 0
      && |name| < 0x1_0000 && |extra| < 0x1_0000 && 0 < |content| < 0x1_0000_0000 && |other| == 10
    }
  }

  function Lo(n: uint16): byte { n % 0x100 }
  function Hi(n: uint16): byte { n / 0x100 }

  /** A local header as section 4.3.7 of the application note lays it out. */
  function Header(f: StoredFile): (h: bytes)
    requires f.Plain()
    ensures |h| == HEADER_BYTES
  {
    var low: uint16, high: uint16 := |f.content| % 0x1_0000, |f.content| / 0x1_0000;
    [80, 75, 3, 4] + f.other[..2]
    + [Lo(f.flags), Hi(f.flags), Lo(STORED), Hi(STORED)] + f.other[2..]
    + [Lo(low), Hi(low), Lo(high), Hi(high), Lo(low), Hi(low), Lo(high), Hi(high),
       Lo(|f.name|), Hi(|f.name|), Lo(|f.extra|), Hi(|f.extra|)]
  }

  function Encode(f: StoredFile): bytes
    requires f.Plain()
  {
    Header(f) + f.name + f.extra + f.content
  }

  function EncodeAll(files: seq<StoredFile>): bytes
    requires forall i :: 0 <= i < |files| ==> files[i].Plain()
  {
    if files == [] then [] else Encode(files[0]) + EncodeAll(files[1..])
  }

  /** The walk sees an entry for what it is. */
  predicate IsEntryOf(e: Entry, f: StoredFile)
  {
    && !e.encrypted && !e.incomplete && e.compression == STORED
    && e.name == f.name && e.content == f.content && e.uncompressedSize == |f.content|
  }

  lemma HeaderFields(data: bytes, f: StoredFile)
    requires f.Plain() && |data| >= HEADER_BYTES && data[..HEADER_BYTES] == Header(f)
    ensures Le32(data, 0) == SIGNATURE && Le16(data, 6) == f.flags && Le16(data, 8) == STORED
    ensures Le32(data, 18) == |f.content| && Le32(data, 22) == |f.content|
    ensures Le16(data, 26) == |f.name| && Le16(data, 28) == |f.extra|
  {
    var h := Header(f);
    assert forall i :: 0 <= i < HEADER_BYTES ==> data[i] == data[..HEADER_BYTES][i] == h[i];
  }

  lemma Le16Shift(data: bytes, offset: nat, at: nat)
    requires offset + at + 2 <= |data|
    ensures Le16(data, offset + at) == Le16(data[offset..], at)
  {
  }

  lemma Le32Shift(data: bytes, offset: nat, at: nat)
    requires offset + at + 4 <= |data|
    ensures Le32(data, offset + at) == Le32(data[offset..], at)
  {
  }

  lemma FirstEntry(data: bytes, offset: nat, f: StoredFile, rest: bytes)
    requires f.Plain() && offset <= |data| && data[offset..] == Encode(f) + rest
    ensures HeaderAt(data, offset) && EntryFits(data, offset) && IsEntryOf(EntryAt(data, offset), f)
    ensures EntryAt(data, offset).next == offset + |Encode(f)| && data[EntryAt(data, offset).next..] == rest
  {
    hide Header, Le16, Le32;
    var d := data[offset..];
    assert d[..HEADER_BYTES] == Header(f);
    HeaderFields(d, f);
    Le32Shift(data, offset, 0);
    Le16Shift(data, offset, 6);
    Le16Shift(data, offset, 8);
    Le32Shift(data, offset, 18);
    Le32Shift(data, offset, 22);
    Le16Shift(data, offset, 26);
    Le16Shift(data, offset, 28);
    var start := HEADER_BYTES + |f.name| + |f.extra|;
    assert data[offset + HEADER_BYTES..offset + HEADER_BYTES + |f.name|] == d[HEADER_BYTES..HEADER_BYTES + |f.name|] == f.name;
    assert data[offset + start..offset + start + |f.content|] == d[start..start + |f.content|] == f.content;
    assert data[offset + |Encode(f)|..] == d[|Encode(f)|..] == rest;
  }

  /** The walk lists intact entries completely and in order, wherever the damage begins. */
  lemma {:induction false} EntriesInOrder(data: bytes, offset: nat, files: seq<StoredFile>, rest: bytes)
    requires forall i :: 0 <= i < |files| ==> files[i].Plain()
    requires offset <= |data| && data[offset..] == EncodeAll(files) + rest && !HeaderAt(rest, 0)
    ensures var entries := PartialEntries(data, offset);
      |entries| == |files| && forall i :: 0 <= i < |files| ==> IsEntryOf(entries[i], files[i])
    decreases |files|
  {
    hide Encode, EntryAt, IsEntryOf;
    if files == [] {
      assert data[offset..] == rest;
      if HeaderAt(data, offset) {
        Le32Shift(data, offset, 0);
      }
    } else {
      assert data[offset..] == Encode(files[0]) + (EncodeAll(files[1..]) + rest);
      FirstEntry(data, offset, files[0], EncodeAll(files[1..]) + rest);
      PlainIsComplete(EntryAt(data, offset), files[0]);
      EntriesInOrder(data, EntryAt(data, offset).next, files[1..], rest);
    }
  }

  lemma PlainIsComplete(e: Entry, f: StoredFile)
    requires IsEntryOf(e, f)
    ensures !e.incomplete
  {
  }

  // ---------------------------------------------------------------- scanning them

  /** Nothing in the file is a reason to stop before the next one. */
  predicate Harmless(env: Env, f: StoredFile)
  {
    var name := env.text(f.name);
    && Detection(env, name, f.content).None?
    && (!env.inspectArchives || ArchiveFormat(env, name, OCTET_STREAM, f.content) == NoFormat)
    && |f.content| <= env.maxAttachment
  }

  function TotalSize(files: seq<StoredFile>): nat
  {
    if files == [] then 0 else |files[0].content| + TotalSize(files[1..])
  }

  lemma HarmlessEntry(env: Env, location: string, e: Entry, f: StoredFile, depth: nat, b: Budget)
    requires IsEntryOf(e, f) && f.Plain() && Harmless(env, f) && Fits(env, b, 1, |f.content|)
    ensures ScanPartialEntry(env, location, e, depth, b) == Outcome(Clean, Plus(b, 1, |f.content|))
  {
    hide ScanFile, ArchiveFormat, BlockedExtension, ExecutableSignature;
  }

  /** Harmless entries within the limits are all visited and counted, and then the file is reported as incomplete. */
  lemma {:induction false} AllEntriesAreScanned(env: Env, location: string, data: bytes, offset: nat, files: seq<StoredFile>, rest: bytes,
                                                depth: nat, b: Budget)
    requires forall i :: 0 <= i < |files| ==> files[i].Plain() && Harmless(env, files[i])
    requires offset <= |data| && data[offset..] == EncodeAll(files) + rest && !HeaderAt(rest, 0)
    requires Fits(env, b, |files|, TotalSize(files))
    ensures ScanPartialFrom(env, location, data, offset, depth, b)
         == Outcome(Failed(env.cleanLocation(location), false), Plus(b, |files|, TotalSize(files)))
    decreases |files|
  {
    hide Encode, EntryAt, IsEntryOf, Harmless, ScanPartialEntry, HeaderAt;
    if files == [] {
      assert data[offset..] == rest;
      HeaderShift(data, offset);
    } else {
      assert data[offset..] == Encode(files[0]) + (EncodeAll(files[1..]) + rest);
      FirstEntry(data, offset, files[0], EncodeAll(files[1..]) + rest);
      var e := EntryAt(data, offset);
      HarmlessEntry(env, env.join(location, env.text(e.name)), e, files[0], depth, b);
      PlainIsComplete(e, files[0]);
      AllEntriesAreScanned(env, location, data, e.next, files[1..], rest, depth, Plus(b, 1, |files[0].content|));
    }
  }

  lemma HeaderShift(data: bytes, offset: nat)
    requires offset <= |data|
    ensures HeaderAt(data, offset) <==> HeaderAt(data[offset..], 0)
  {
    if offset + HEADER_BYTES <= |data| {
      Le32Shift(data, offset, 0);
    }
  }
}
