/**
 What a message with a program, a blocked name, an encrypted entry or too large an archive in
 it is answered, wherever in the message it is, and which of several reasons is the answer.
 */
module ScannerAnswers {
  import opened Attachments
  import opened Options
  import opened PartialZip
  import opened Recognition
  import opened Scanner
  import opened ScannerClean
  import opened ScannerContents
  import opened ScannerTree
  import opened Wire

  /** A message with this node somewhere in it. */
  ghost predicate Contains(env: Env, contentType: string, encoding: string, disposition: string, body: bytes, n: Node)
  {
    Reachable(env, MimeNode(Part(contentType, encoding, disposition, body, false), "message", 0), n)
  }

  lemma BadIsNeverClean(env: Env, contentType: string, encoding: string, disposition: string, body: bytes, n: Node)
    requires Contains(env, contentType, encoding, disposition, body, n) && (Forbidden(env, n).Some? || Broken(env, n))
    ensures !Scan(env, contentType, encoding, disposition, body).Clean?
  {
    hide Scan, Reachable, Forbidden, Broken, Fits, FilesBelow, BytesBelow;
    CleanIffHarmless(env, contentType, encoding, disposition, body);
  }

  /** With signatures inspected, no message is clean that has a file, at any depth, that begins like a program or is a script. */
  lemma ProgramsAreNeverClean(env: Env, contentType: string, encoding: string, disposition: string, body: bytes, n: Node)
    requires env.inspectSignatures && n.FileNode? && Contains(env, contentType, encoding, disposition, body, n)
    requires StartsLikeProgram(n.data) || env.script(n.data).Some?
    ensures !Scan(env, contentType, encoding, disposition, body).Clean?
  {
    hide Scan, Reachable, ExecutableSignature, BlockedExtension, StartsLikeProgram, Broken;
    DetectionIff(env, n.name, n.data);
    BadIsNeverClean(env, contentType, encoding, disposition, body, n);
  }

  /** No message is clean that has a file, at any depth, with a blocked extension anywhere in its name. */
  lemma BlockedIsNeverClean(env: Env, contentType: string, encoding: string, disposition: string, body: bytes, n: Node,
                            t: string, tail: string, i: nat, j: nat)
    requires n.FileNode? && Contains(env, contentType, encoding, disposition, body, n)
    requires env.lower(env.cleanName(n.name)) == t + tail && forall k :: 0 <= k < |tail| ==> tail[k] == '.' || tail[k] == ' '
    requires i < j <= |t| && t[i] == '.' && (j == |t| || t[j] == '.') && t[i + 1..j] in env.blocked
    requires (forall k :: i < k < j ==> t[k] != '.') && t[|t| - 1] != '.' && t[|t| - 1] != ' '
    ensures !Scan(env, contentType, encoding, disposition, body).Clean?
  {
    hide Scan, Reachable, ExecutableSignature, BlockedExtension, StartsLikeProgram, Broken;
    assert BlockedAt(env, t, i, j);
    BlockedNames(env, n.name, t, tail);
    DetectionIff(env, n.name, n.data);
    BadIsNeverClean(env, contentType, encoding, disposition, body, n);
  }

  /** With archives inspected, no message is clean that has an archive below the depth limit, a ZIP file without a directory,
      or an archive with an encrypted, unreadable, oversized or oversize-claiming entry. */
  lemma UninspectableIsNeverClean(env: Env, contentType: string, encoding: string, disposition: string, body: bytes, n: Node)
    requires env.inspectArchives && n.FileNode? && Contains(env, contentType, encoding, disposition, body, n)
    requires var format := ArchiveFormat(env, n.name, n.media, n.data);
      || (format != NoFormat && n.depth >= env.maxDepth)
      || (format == ZipFormat && env.zip(n.data).None?)
      || (format == ZipFormat && exists i :: 0 <= i < |env.zip(n.data).value| && ZipEntryFails(env, env.zip(n.data).value[i]))
      || (format == TarFormat && (env.tar(n.data).broken || exists i :: 0 <= i < |env.tar(n.data).files| && TarEntryFails(env, env.tar(n.data).files[i])))
      || (format == GzipFormat && (env.gzip(n.data).None? || !Readable(env, env.gzip(n.data).value.content)))
      || (format == Bzip2Format && !Readable(env, env.bzip2(n.data)))
    ensures !Scan(env, contentType, encoding, disposition, body).Clean?
  {
    hide Scan, Reachable, ArchiveFormat, Broken, Children, Sizes, ZipEntryFails, TarEntryFails, Readable;
    if n.depth >= env.maxDepth {
      UnopenedContents(env, n);
    } else {
      match ArchiveFormat(env, n.name, n.media, n.data) {
        case NoFormat =>
        case ZipFormat =>
          if env.zip(n.data).Some? {
            var at := ZipContents(env, n);
          } else {
            var at := DamagedZipContents(env, n);
          }
        case TarFormat => var at := TarContents(env, n);
        case GzipFormat => GzipContents(env, n);
        case Bzip2Format => Bzip2Contents(env, n);
      }
    }
    BadIsNeverClean(env, contentType, encoding, disposition, body, n);
  }

  // ---------------------------------------------------------------- limits

  lemma {:induction false} BelowPath(env: Env, root: Node, path: seq<nat>)
    requires NodeAt(env, root, path).Some?
    ensures var n := NodeAt(env, root, path).value;
      |Sizes(env, n)| <= FilesBelow(env, root) && Sum(Sizes(env, n)) <= BytesBelow(env, root)
    decreases |path|
  {
    hide Children, Sizes;
    if path != [] {
      var cs := Children(env, root);
      BelowPath(env, cs[path[0]], path[1..]);
      SumBounds(seq(|cs|, i requires 0 <= i < |cs| => FilesBelow(env, cs[i])), path[0]);
      SumBounds(seq(|cs|, i requires 0 <= i < |cs| => BytesBelow(env, cs[i])), path[0]);
    }
  }

  /** No message is clean that has, at any depth, an archive with more entries than the file limit, or with entries that
      are together charged with more than the size limit. */
  lemma OversizeIsNeverClean(env: Env, contentType: string, encoding: string, disposition: string, body: bytes, n: Node)
    requires n.FileNode? && Contains(env, contentType, encoding, disposition, body, n)
    requires Sizes(env, n) != [] && (|Sizes(env, n)| > env.maxFiles || Sum(Sizes(env, n)) > env.maxBytes)
    ensures !Scan(env, contentType, encoding, disposition, body).Clean?
  {
    hide Scan, ScanMime, Forbidden, Broken, FilesBelow, BytesBelow, Sizes, Sum, NodeAt, Children;
    var root := Root(contentType, encoding, disposition, body);
    var path :| NodeAt(env, root, path) == Some(n);
    BelowPath(env, root, path);
    assert NodeAt(env, root, path).value == n;
    assert !Fits(env, Budget(0, 0), FilesBelow(env, root), BytesBelow(env, root));
    CleanIffHarmless(env, contentType, encoding, disposition, body);
  }

  // ---------------------------------------------------------------- which answer

  /** The first part with something to report is what is reported, whatever follows it and even if the parts end abruptly. */
  lemma {:induction false} FirstPartDecides(env: Env, before: seq<Part>, p: Part, after: seq<Part>, index: nat, broken: bool,
                                            location: string, depth: nat, b: Budget)
    requires depth <= 16 && ScanParts(env, before, index, false, location, depth, b).verdict.Clean?
    ensures var o := ScanParts(env, before, index, false, location, depth, b);
      var where := PartLocation(env, location, index + |before|, p);
      var here := ScanMime(env, p, where, depth + 1, o.budget);
      && (!here.verdict.Clean? ==> ScanParts(env, before + [p] + after, index, broken, location, depth, b) == here)
      && (here.verdict.Clean? && p.readFailed ==>
            ScanParts(env, before + [p] + after, index, broken, location, depth, b) == Outcome(Failed(where, false), here.budget))
    decreases |before|
  {
    hide ScanMime, PartLocation;
    var all := before + [p] + after;
    if before == [] {
      assert all[0] == p && all[1..] == after;
    } else {
      assert all[0] == before[0] && all[1..] == before[1..] + [p] + after;
      var o := ScanMime(env, before[0], PartLocation(env, location, index, before[0]), depth + 1, b);
      FirstPartDecides(env, before[1..], p, after, index + 1, broken, location, depth, o.budget);
    }
  }

  /** The same for the entries of a ZIP file, of which directories are skipped. */
  lemma {:induction false} FirstZipEntryDecides(env: Env, before: seq<ZipFile>, f: ZipFile, after: seq<ZipFile>, location: string,
                                                depth: nat, b: Budget)
    requires !f.isDir && ScanZipFiles(env, location, before, depth, b).verdict.Clean?
    ensures var o := ScanZipFiles(env, location, before, depth, b);
      var here := ScanZipFile(env, env.join(location, f.name), f, depth, o.budget);
      !here.verdict.Clean? ==> ScanZipFiles(env, location, before + [f] + after, depth, b) == here
    decreases |before|
  {
    hide ScanZipFile;
    var all := before + [f] + after;
    if before == [] {
      assert all[0] == f && all[1..] == after;
    } else {
      assert all[0] == before[0] && all[1..] == before[1..] + [f] + after;
      if before[0].isDir {
        FirstZipEntryDecides(env, before[1..], f, after, location, depth, b);
      } else {
        var o := ScanZipFile(env, env.join(location, before[0].name), before[0], depth, b);
        FirstZipEntryDecides(env, before[1..], f, after, location, depth, o.budget);
      }
    }
  }

  /** The answer names the place and the kind of program. */
  predicate FoundProgram(env: Env, o: Outcome, where: string, data: bytes)
  {
    o.verdict.Found? && o.verdict.path == where && ExecutableSignature(env, data) == Some(o.verdict.detection)
  }

  /** What could be decoded of a damaged part is reported before the damage: a program first, then whatever there is to
      report in it as attached mail, then a finding in it as an archive. */
  lemma DamagedAnswer(env: Env, name: string, kind: string, data: bytes, location: string, depth: nat, b: Budget)
    requires depth <= 16
    ensures var o, program := ScanDamaged(env, name, kind, data, location, depth, b),
                              env.inspectSignatures && (StartsLikeProgram(data) || env.script(data).Some?);
      var mail := if MailName(env, kind, name) then ScanMail(env, data, location, depth, b) else Outcome(Clean, b);
      var unpacked := env.inspectArchives && ArchiveFormat(env, name, kind, data) != NoFormat;
      var archive := ScanFile(env, location, name, kind, data, 0, mail.budget);
      && (program ==> FoundProgram(env, o, env.cleanLocation(location), data) && o.budget == b)
      && (!program && !mail.verdict.Clean? ==> o == mail)
      && (!program && mail.verdict.Clean? && unpacked && archive.verdict.Found? ==> o == archive)
      && (!program && mail.verdict.Clean? && !(unpacked && archive.verdict.Found?) ==> o.verdict == Failed(location, false))
  {
    hide ExecutableSignature, StartsLikeProgram, ScanMail, ScanFile, ArchiveFormat;
    ExecutableIff(env, data);
    SuffixIff(env.lower(name), ".eml");
  }

  /** A blocked name is found without decoding, a program also in what could be decoded of a damaged part; a message
      text without a file name is left alone. */
  lemma LeafAnswer(env: Env, p: Part, m: Media, location: string, depth: nat, b: Budget)
    requires depth <= 16 && MediaOf(env, p.contentType) == Some(m) && !("multipart/" <= m.kind)
    ensures var name, r := env.filename(p.disposition, p.contentType), DecodeTransfer(env, p.encoding, p.data);
      var where := env.cleanLocation(if name != "" then env.replaceBase(location, name) else location);
      var blocked, program := BlockedExtension(env, name), env.inspectSignatures && (StartsLikeProgram(r.data) || env.script(r.data).Some?);
      var o := ScanMime(env, p, location, depth, b);
      && (name != "" && blocked.Some? ==> o == Outcome(Found(where, "blocked extension ." + blocked.value), b))
      && (!(name != "" && blocked.Some?) && r.failed && program ==> FoundProgram(env, o, where, r.data) && o.budget == b)
      && (!r.failed && name == "" && (m.kind == "text/plain" || m.kind == "text/html") ==> o == Outcome(Clean, b))
      && ((!r.failed && !(name == "" && (m.kind == "text/plain" || m.kind == "text/html")) && !MailName(env, m.kind, name)
           && blocked.None? && program) ==>
            FoundProgram(env, o, where, r.data) && o.budget == b)
  {
    hide BlockedExtension, ExecutableSignature, DecodeTransfer, StartsLikeProgram, MediaOf, IsMultipart, ScanMail, ScanParts, ScanZip, ScanTar, ScanInner,
      ArchiveFormat;
    var name, r := env.filename(p.disposition, p.contentType), DecodeTransfer(env, p.encoding, p.data);
    MultipartIff(m);
    assert ScanMime(env, p, location, depth, b) == ScanLeaf(env, p, m.kind, location, depth, b);
    DamagedAnswer(env, name, m.kind, r.data, LeafLocation(env, location, name), depth, b);
    hide ScanDamaged;
    ExecutableIff(env, r.data);
    SuffixIff(env.lower(name), ".eml");
  }

  /** Of a ZIP entry, encryption is reported first, then its name, without decompression, then a program, whatever size the
      entry claims; only then a limit or an error. */
  lemma ZipEntryAnswer(env: Env, location: string, f: ZipFile, depth: nat, b: Budget)
    ensures var o, blocked, r := ScanZipFile(env, location, f, depth, b), BlockedExtension(env, f.name), ZipData(env, f);
      && (f.encrypted ==> o == Outcome(Failed(location, true), b))
      && (!f.encrypted && blocked.Some? ==> o == Outcome(Found(location, "blocked extension ." + blocked.value), b))
      && (!f.encrypted && blocked.None? && f.content.Some? ==> IsBeginning(env, r.data, f.content.value))
      && (!f.encrypted && blocked.None? && f.content.Some? && env.inspectSignatures && (StartsLikeProgram(r.data) || env.script(r.data).Some?) ==>
            FoundProgram(env, o, location, r.data))
      && (!f.encrypted && blocked.None? && (f.content.None? || (!env.inspectSignatures && f.declared > env.maxAttachment >= 0)) ==>
            o.verdict == Failed(location, false))
  {
    hide BlockedExtension, ExecutableSignature, StartsLikeProgram, ScanFile;
    ExecutableIff(env, ZipData(env, f).data);
  }

  /** A TAR entry is counted before its name is looked at, and its name before it is read. */
  lemma TarEntryAnswer(env: Env, location: string, f: TarFile, depth: nat, b: Budget)
    ensures var o, blocked := ScanTarFile(env, location, f, depth, b), BlockedExtension(env, f.name);
      var fits := 0 <= f.size <= env.maxAttachment && b.files < env.maxFiles && b.bytes + f.size <= env.maxBytes;
      var after := Budget(b.files + 1, if f.size < 0 then 0 else b.bytes + f.size);
      && (!fits && (f.size < 0 || env.maxAttachment >= 0) ==> o == Outcome(Failed(location, false), b))
      && (fits && blocked.Some? ==> o == Outcome(Found(location, "blocked extension ." + blocked.value), after))
      && (fits && blocked.None? && !Readable(env, f.content) ==> o == Outcome(Failed(location, false), after))
  {
    hide BlockedExtension, ScanFile;
  }

  /** The first entry of a TAR file with something to report is what is reported; entries that are no regular files are skipped. */
  lemma {:induction false} FirstTarEntryDecides(env: Env, before: seq<TarFile>, f: TarFile, after: seq<TarFile>, broken: bool,
                                                location: string, depth: nat, b: Budget)
    requires f.regular && ScanTar(env, location, before, false, depth, b).verdict.Clean?
    ensures var o := ScanTar(env, location, before, false, depth, b);
      var here := ScanTarFile(env, env.join(location, f.name), f, depth, o.budget);
      !here.verdict.Clean? ==> ScanTar(env, location, before + [f] + after, broken, depth, b) == here
    decreases |before|
  {
    hide ScanTarFile;
    var all := before + [f] + after;
    if before == [] {
      assert all[0] == f && all[1..] == after;
    } else {
      assert all[0] == before[0] && all[1..] == before[1..] + [f] + after;
      if !before[0].regular {
        FirstTarEntryDecides(env, before[1..], f, after, broken, location, depth, b);
      } else {
        var o := ScanTarFile(env, env.join(location, before[0].name), before[0], depth, b);
        FirstTarEntryDecides(env, before[1..], f, after, broken, location, depth, o.budget);
      }
    }
  }

  /** An entry of a damaged ZIP file that begins like a program is found, even though the entry is incomplete. */
  lemma PartialEntryAnswer(env: Env, location: string, e: Entry, depth: nat, b: Budget)
    ensures var o, blocked, r := ScanPartialEntry(env, location, e, depth, b), BlockedExtension(env, env.text(e.name)), PartialData(env, e);
      && (e.encrypted ==> o == Outcome(Failed(location, true), b))
      && (!e.encrypted && blocked.Some? ==> o == Outcome(Found(location, "blocked extension ." + blocked.value), b))
      && ((!e.encrypted && blocked.None? && (e.compression == 0 || e.compression == 8) && env.inspectSignatures
           && (StartsLikeProgram(r.data) || env.script(r.data).Some?)) ==>
            FoundProgram(env, o, location, r.data))
      && (e.compression == 0 ==> IsBeginning(env, r.data, Stream(e.content, false)))
      && (e.compression == 8 ==> IsBeginning(env, r.data, env.inflate(e.content)))
      && (!e.encrypted && blocked.None? && e.compression != 0 && e.compression != 8 ==> o.verdict == Failed(location, false))
  {
    hide BlockedExtension, ExecutableSignature, StartsLikeProgram, ScanFile, ArchiveFormat;
    ExecutableIff(env, PartialData(env, e).data);
  }

  /** So is what there is to find in such an entry when it is an archive itself. */
  lemma NestedPartialAnswer(env: Env, location: string, e: Entry, depth: nat, b: Budget)
    requires !e.encrypted && BlockedExtension(env, env.text(e.name)).None? && (e.compression == 0 || e.compression == 8)
    requires var data := PartialData(env, e).data; !(env.inspectSignatures && (StartsLikeProgram(data) || env.script(data).Some?))
    requires env.inspectArchives && ArchiveFormat(env, env.text(e.name), "application/octet-stream", PartialData(env, e).data) != NoFormat
    ensures var counted := Count(env, b, e.uncompressedSize);
      var nested := ScanFile(env, location, env.text(e.name), "application/octet-stream", PartialData(env, e).data, depth,
                             if counted.Some? then counted.value else b);
      nested.verdict.Found? ==> ScanPartialEntry(env, location, e, depth, b) == nested
  {
    hide BlockedExtension, ExecutableSignature, StartsLikeProgram, ScanFile, ArchiveFormat, Count;
    ExecutableIff(env, PartialData(env, e).data);
  }

  /** Of a ZIP file without a directory the first entry with something to report decides; when there is none, or no entry
      at all, the file is reported as uninspectable. */
  lemma DamagedZipAnswer(env: Env, location: string, data: bytes, depth: nat, b: Budget)
    requires env.zip(data).None?
    ensures !HeaderAt(data, 0) ==> ScanZip(env, location, data, depth, b) == Outcome(Failed(env.cleanLocation(location), false), b)
    ensures HeaderAt(data, 0) ==> ScanZip(env, location, data, depth, b) == ScanPartialFrom(env, location, data, 0, depth, b)
  {
    hide ScanPartialFrom;
  }

  /** The walk from a position: the entry there decides if there is something to report in it, and what follows it otherwise. */
  lemma PartialWalkAnswer(env: Env, location: string, data: bytes, offset: nat, depth: nat, b: Budget)
    requires offset <= |data|
    ensures var o := ScanPartialFrom(env, location, data, offset, depth, b);
      if !HeaderAt(data, offset) || !EntryFits(data, offset) then o == Outcome(Failed(env.cleanLocation(location), false), b)
      else
        var e := EntryAt(data, offset);
        var here := ScanPartialEntry(env, env.join(location, env.text(e.name)), e, depth, b);
        o == if here.verdict.Clean? then ScanPartialFrom(env, location, data, e.next, depth, here.budget) else here
  {
    hide HeaderAt, EntryFits, EntryAt, ScanPartialEntry;
  }
}
