/**
 Verdicts that are not clean are justified: a finding names a forbidden file that is really
 reachable, an encryption error an archive that really has an encrypted entry, and any other
 error something uninspectable or a tree whose archive entries together exceed the limits.
 */
module ScannerFindings {
  import opened Attachments
  import opened Options
  import opened PartialZip
  import opened Scanner
  import opened ScannerClean
  import opened ScannerTree
  import opened Wire

  predicate AnyEncrypted(files: seq<ZipFile>) { exists i :: 0 <= i < |files| && !files[i].isDir && files[i].encrypted }

  predicate AnyEncryptedEntry(entries: seq<Entry>) { exists i :: 0 <= i < |entries| && entries[i].encrypted }

  /** A ZIP file, intact or damaged, with an encrypted entry. */
  predicate HasEncrypted(env: Env, n: Node)
  {
    n.FileNode? && FormatOf(env, n) == ZipFormat &&
    match env.zip(n.data)
    case Some(files) => AnyEncrypted(files)
    case None => AnyEncryptedEntry(PartialEntries(n.data, 0))
  }

  /** The places a finding in a node can be reported at. */
  predicate ReportedAt(env: Env, n: Node, path: string)
  {
    match n
    case FileNode(location, _, _, _, _) => path == location || path == env.cleanLocation(location)
    case MailNode(_, _, _) => false
    case MimeNode(part, location, _) => path == env.cleanLocation(LeafLocation(env, location, LeafName(env, part)))
  }

  /** A node that is reason enough for a verdict. */
  predicate Explains(env: Env, n: Node, v: Verdict)
  {
    match v
    case Clean => false
    case Found(path, detection) => Forbidden(env, n) == Some(detection) && ReportedAt(env, n, path)
    case Failed(_, encrypted) => if encrypted then HasEncrypted(env, n) else Broken(env, n)
  }

  ghost predicate Explained(env: Env, root: Node, v: Verdict)
  {
    exists n :: Reachable(env, root, n) && Explains(env, n, v)
  }

  ghost predicate OneExplains(env: Env, nodes: seq<Node>, v: Verdict)
  {
    exists i :: 0 <= i < |nodes| && Explained(env, nodes[i], v)
  }

  /** The other reason for an error: counting. */
  predicate OverLimits(env: Env, v: Verdict, b: Budget, files: nat, bytes: nat)
  {
    v.Failed? && !v.encrypted && !Fits(env, b, files, bytes)
  }

  /** A verdict on a node and everything below it. */
  ghost predicate Justified(env: Env, n: Node, b: Budget, v: Verdict)
  {
    v.Clean? || Explained(env, n, v) || OverLimits(env, v, b, FilesBelow(env, n), BytesBelow(env, n))
  }

  lemma ExplainedBySelf(env: Env, n: Node, v: Verdict)
    requires Explains(env, n, v)
    ensures Explained(env, n, v)
  {
    ReachableSelf(env, n);
  }

  lemma ExplainedByChild(env: Env, n: Node, v: Verdict)
    requires OneExplains(env, Children(env, n), v)
    ensures Explained(env, n, v)
  {
    hide Explains, Children, Reachable;
    var i :| 0 <= i < |Children(env, n)| && Explained(env, Children(env, n)[i], v);
    var m :| Reachable(env, Children(env, n)[i], m) && Explains(env, m, v);
    ReachableThrough(env, n, i, m);
  }

  lemma OneExplainsCons(env: Env, n: Node, more: seq<Node>, v: Verdict)
    ensures OneExplains(env, [n] + more, v) <==> Explained(env, n, v) || OneExplains(env, more, v)
  {
    hide Explained;
    var all := [n] + more;
    if Explained(env, n, v) {
      assert Explained(env, all[0], v);
    }
    if i :| 0 <= i < |more| && Explained(env, more[i], v) {
      assert Explained(env, all[i + 1], v);
    }
    if i :| 0 <= i < |all| && Explained(env, all[i], v) {
      assert i > 0 ==> all[i] == more[i - 1];
    }
  }

  // ---------------------------------------------------------------- files and archives

  lemma {:induction false} FileJustified(env: Env, n: Node, b: Budget)
    requires n.FileNode?
    ensures Justified(env, n, b, ScanFile(env, n.location, n.name, n.media, n.data, n.depth, b).verdict)
    decreases Levels(env, n.depth), 0, 0
  {
    hide ScanZipFiles, ScanTar, ScanInner, ScanPartialFrom, ZipNodes, TarNodes, ZipSizes, TarSizes, PartialEntries, FilesBelow,
      BytesBelow, Detection, ArchiveFormat, ReadLimited, ZipFileOk, TarFileOk, StripExtension, GzipName, FilesOf, BytesOf,
      Explained, OneExplains, AnyEncrypted, AnyEncryptedEntry;
    var v := ScanFile(env, n.location, n.name, n.media, n.data, n.depth, b).verdict;
    Below(env, n);
    if Explains(env, n, v) {
      ExplainedBySelf(env, n, v);
    } else if Detection(env, n.name, n.data).None? && FormatOf(env, n) != NoFormat && n.depth < env.maxDepth {
      var d := n.depth + 1;
      match FormatOf(env, n) {
        case ZipFormat =>
          if env.zip(n.data).Some? {
            ZipJustified(env, n.location, env.zip(n.data).value, d, b);
          } else {
            PartialJustified(env, n.location, n.data, 0, d, b);
            assert ScanFile(env, n.location, n.name, n.media, n.data, n.depth, b) == ScanZip(env, n.location, n.data, d, b);
            var o := ScanPartial(env, n.location, n.data, d, b);
            assert !o.verdict.Clean? ==> v == o.verdict;
          }
        case TarFormat => TarJustified(env, n.location, env.tar(n.data).files, env.tar(n.data).broken, d, b);
        case GzipFormat =>
          if env.gzip(n.data).Some? {
            InnerJustified(env, n.location, Inner(env, n).0, Inner(env, n).1, d, b);
          }
        case Bzip2Format => InnerJustified(env, n.location, Inner(env, n).0, Inner(env, n).1, d, b);
      }
      if OneExplains(env, Children(env, n), v) {
        ExplainedByChild(env, n, v);
      }
    }
  }

  lemma {:induction false} InnerJustified(env: Env, location: string, name: string, content: Stream, depth: nat, b: Budget)
    ensures var nodes, r := [InnerNode(env, location, name, content, depth)], ReadLimited(content, env.maxAttachment);
      var v := ScanInner(env, location, name, content, depth, b).verdict;
      v.Clean? || OneExplains(env, nodes, v) || (v.Failed? && !v.encrypted && r.failed)
      || OverLimits(env, v, b, |[|r.data|]| + FilesOf(env, nodes), Sum([|r.data|]) + BytesOf(env, nodes))
    decreases Levels(env, depth), 1, 0
  {
    hide ScanFile, FilesBelow, BytesBelow, FilesOf, BytesOf, Explained, OneExplains;
    var n, r := InnerNode(env, location, name, content, depth), ReadLimited(content, env.maxAttachment);
    OfCons(env, n, []);
    OfNone(env);
    assert [n] + [] == [n];
    assert Sum([|r.data|]) == |r.data| by { assert [|r.data|][1..] == []; }
    OneExplainsCons(env, n, [], ScanInner(env, location, name, content, depth, b).verdict);
    if Count(env, b, |r.data|).Some? {
      FileJustified(env, n, Count(env, b, |r.data|).value);
    }
  }

  lemma {:induction false} ZipFileJustified(env: Env, location: string, f: ZipFile, depth: nat, b: Budget)
    requires !f.isDir
    ensures var n, v := ZipNode(env, location, f, depth), ScanZipFile(env, env.join(location, f.name), f, depth, b).verdict;
      v.Clean? || Explained(env, n, v) || (v.Failed? && if v.encrypted then f.encrypted else !ZipFileOk(env, f))
      || OverLimits(env, v, b, 1 + FilesBelow(env, n), f.declared + BytesBelow(env, n))
    decreases Levels(env, depth), 1, 0
  {
    hide ScanFile, FilesBelow, BytesBelow, ReadLimited, Explained, BlockedExtension, ExecutableSignature;
    var n, v := ZipNode(env, location, f, depth), ScanZipFile(env, env.join(location, f.name), f, depth, b).verdict;
    var counted := Count(env, b, f.declared);
    if Explains(env, n, v) {
      ExplainedBySelf(env, n, v);
    }
    FileJustified(env, n, if counted.Some? then counted.value else b);
  }

  lemma {:induction false} ZipJustified(env: Env, location: string, files: seq<ZipFile>, depth: nat, b: Budget)
    ensures var nodes, v := ZipNodes(env, location, files, depth), ScanZipFiles(env, location, files, depth, b).verdict;
      v.Clean? || OneExplains(env, nodes, v) || (v.Failed? && if v.encrypted then AnyEncrypted(files) else !ZipFilesOk(env, files))
      || OverLimits(env, v, b, |ZipSizes(files)| + FilesOf(env, nodes), Sum(ZipSizes(files)) + BytesOf(env, nodes))
    decreases Levels(env, depth), 2, |files|
  {
    hide ScanZipFile, FilesBelow, BytesBelow, ZipNode, ZipFileOk, FilesOf, BytesOf, Explained, OneExplains, AllOk, AllGood;
    if files != [] {
      var more := files[1..];
      if files[0].isDir {
        ZipJustified(env, location, more, depth, b);
      } else {
        var n, rest := ZipNode(env, location, files[0], depth), ZipNodes(env, location, more, depth);
        var o := ScanZipFile(env, env.join(location, files[0].name), files[0], depth, b);
        ZipFileJustified(env, location, files[0], depth, b);
        ZipFileCleanExactly(env, location, files[0], depth, b);
        if o.verdict.Clean? {
          ZipJustified(env, location, more, depth, o.budget);
        }
        OfCons(env, n, rest);
        OneExplainsCons(env, n, rest, ScanZipFiles(env, location, files, depth, b).verdict);
        assert ZipSizes(files)[1..] == ZipSizes(more);
      }
    }
  }

  lemma {:induction false} TarFileJustified(env: Env, location: string, f: TarFile, depth: nat, b: Budget)
    requires f.regular
    ensures var n, v := TarNode(env, location, f, depth), ScanTarFile(env, env.join(location, f.name), f, depth, b).verdict;
      v.Clean? || Explained(env, n, v) || (v.Failed? && !v.encrypted && !TarFileOk(env, f))
      || OverLimits(env, v, b, 1 + FilesBelow(env, n), (if f.size < 0 then 0 else f.size) + BytesBelow(env, n))
    decreases Levels(env, depth), 1, 0
  {
    hide ScanFile, FilesBelow, BytesBelow, ReadLimited, Explained, BlockedExtension, ExecutableSignature;
    var n, v := TarNode(env, location, f, depth), ScanTarFile(env, env.join(location, f.name), f, depth, b).verdict;
    if Explains(env, n, v) {
      ExplainedBySelf(env, n, v);
    }
    if f.size >= 0 && Count(env, b, f.size).Some? {
      FileJustified(env, n, Count(env, b, f.size).value);
    }
  }

  lemma {:induction false} TarJustified(env: Env, location: string, files: seq<TarFile>, broken: bool, depth: nat, b: Budget)
    ensures var nodes, v := TarNodes(env, location, files, depth), ScanTar(env, location, files, broken, depth, b).verdict;
      v.Clean? || OneExplains(env, nodes, v) || (v.Failed? && !v.encrypted && (broken || !TarFilesOk(env, files)))
      || OverLimits(env, v, b, |TarSizes(files)| + FilesOf(env, nodes), Sum(TarSizes(files)) + BytesOf(env, nodes))
    decreases Levels(env, depth), 2, |files|
  {
    hide ScanTarFile, FilesBelow, BytesBelow, TarNode, TarFileOk, FilesOf, BytesOf, Explained, OneExplains, AllOk, AllGood;
    if files != [] {
      var more := files[1..];
      if !files[0].regular {
        TarJustified(env, location, more, broken, depth, b);
      } else {
        var n, rest := TarNode(env, location, files[0], depth), TarNodes(env, location, more, depth);
        var o := ScanTarFile(env, env.join(location, files[0].name), files[0], depth, b);
        TarFileJustified(env, location, files[0], depth, b);
        TarFileCleanExactly(env, location, files[0], depth, b);
        if o.verdict.Clean? {
          TarJustified(env, location, more, broken, depth, o.budget);
        }
        OfCons(env, n, rest);
        OneExplainsCons(env, n, rest, ScanTar(env, location, files, broken, depth, b).verdict);
        assert TarSizes(files)[1..] == TarSizes(more);
      }
    }
  }

  // ---------------------------------------------------------------- damaged ZIP files

  lemma {:induction false} PartialEntryJustified(env: Env, location: string, e: Entry, depth: nat, b: Budget)
    ensures var n := PartialNode(env, location, e, depth);
      var v := ScanPartialEntry(env, env.join(location, env.text(e.name)), e, depth, b).verdict;
      v.Clean? || Explained(env, n, v) || (v.Failed? && (v.encrypted ==> e.encrypted))
    decreases Levels(env, depth), 1, 0
  {
    hide ScanFile, ReadLimited, Explained, BlockedExtension, ExecutableSignature, PartialData, ArchiveFormat;
    var n := PartialNode(env, location, e, depth);
    var v := ScanPartialEntry(env, env.join(location, env.text(e.name)), e, depth, b).verdict;
    if Explains(env, n, v) {
      ExplainedBySelf(env, n, v);
    }
    var counted := Count(env, b, e.uncompressedSize);
    FileJustified(env, n, if counted.Some? then counted.value else b);
  }

  lemma PartialNodesCons(env: Env, location: string, e: Entry, more: seq<Entry>, depth: nat)
    ensures PartialNodes(env, location, [e] + more, depth)
         == [PartialNode(env, location, e, depth)] + PartialNodes(env, location, more, depth)
  {
  }

  lemma {:induction false} PartialJustified(env: Env, location: string, data: bytes, offset: nat, depth: nat, b: Budget)
    requires offset <= |data|
    ensures var entries, v := PartialEntries(data, offset), ScanPartialFrom(env, location, data, offset, depth, b).verdict;
      OneExplains(env, PartialNodes(env, location, entries, depth), v) || (v.Failed? && (v.encrypted ==> AnyEncryptedEntry(entries)))
    decreases Levels(env, depth), 2, |data| - offset
  {
    hide ScanPartialEntry, Explained, OneExplains, PartialNodes, PartialNode, EntryAt, HeaderAt, EntryFits, AnyEncryptedEntry;
    if HeaderAt(data, offset) && EntryFits(data, offset) {
      var e := EntryAt(data, offset);
      var o := ScanPartialEntry(env, env.join(location, env.text(e.name)), e, depth, b);
      var v := ScanPartialFrom(env, location, data, offset, depth, b).verdict;
      var more := if e.incomplete then [] else PartialEntries(data, e.next);
      PartialEntryJustified(env, location, e, depth, b);
      if o.verdict.Clean? {
        PartialJustified(env, location, data, e.next, depth, o.budget);
      }
      PartialNodesCons(env, location, e, more, depth);
      OneExplainsCons(env, PartialNode(env, location, e, depth), PartialNodes(env, location, more, depth), v);
      EncryptedCons(e, more);
    }
  }

  lemma EncryptedCons(e: Entry, more: seq<Entry>)
    ensures AnyEncryptedEntry([e] + more) <==> e.encrypted || AnyEncryptedEntry(more)
  {
    var all := [e] + more;
    if e.encrypted {
      assert all[0].encrypted;
    }
    if i :| 0 <= i < |more| && more[i].encrypted {
      assert all[i + 1].encrypted;
    }
  }

  // ---------------------------------------------------------------- parts and mail

  lemma {:induction false} MimeJustified(env: Env, n: Node, b: Budget)
    requires n.MimeNode?
    ensures Justified(env, n, b, ScanMime(env, n.part, n.location, n.depth, b).verdict)
    decreases MimeLevel(n), 3, 0
  {
    hide ScanParts, ScanLeaf, FilesBelow, BytesBelow, FilesOf, BytesOf, Explained, OneExplains, LeafChildren, PartNodes,
      BlockedExtension, ExecutableSignature, DecodeTransfer;
    var v := ScanMime(env, n.part, n.location, n.depth, b).verdict;
    Below(env, n);
    if n.depth <= MAX_MIME_DEPTH && MediaOf(env, n.part.contentType).Some? {
      var m := MediaOf(env, n.part.contentType).value;
      if !IsMultipart(m) {
        LeafJustified(env, n, m, b);
      } else if m.boundary != "" {
        var ps := env.parts(m.boundary, n.part.data);
        PartsJustified(env, ps.parts, 1, ps.broken, n.location, n.depth, b);
      }
    }
    if OneExplains(env, Children(env, n), v) {
      ExplainedByChild(env, n, v);
    } else if Explains(env, n, v) {
      ExplainedBySelf(env, n, v);
    }
  }

  lemma {:induction false} PartsJustified(env: Env, parts: seq<Part>, index: nat, broken: bool, location: string, depth: nat, b: Budget)
    requires depth <= MAX_MIME_DEPTH
    ensures var nodes := PartNodes(env, location, parts, index, depth + 1);
      var v := ScanParts(env, parts, index, broken, location, depth, b).verdict;
      v.Clean? || OneExplains(env, nodes, v) || (v.Failed? && !v.encrypted && (broken || !PartsRead(parts)))
      || OverLimits(env, v, b, FilesOf(env, nodes), BytesOf(env, nodes))
    decreases MAX_MIME_DEPTH + 1 - depth, 2, |parts|
  {
    hide ScanMime, FilesBelow, BytesBelow, FilesOf, BytesOf, AllOk, AllGood, PartNodes, Explained, OneExplains;
    if parts != [] {
      var more, rest := parts[1..], PartNodes(env, location, parts[1..], index + 1, depth + 1);
      var n := MimeNode(parts[0], PartLocation(env, location, index, parts[0]), depth + 1);
      var o := ScanMime(env, n.part, n.location, n.depth, b);
      PartNodesCons(env, location, parts, index, depth + 1);
      MimeJustified(env, n, b);
      MimeCleanExactly(env, n, b);
      if o.verdict.Clean? {
        PartsJustified(env, more, index + 1, broken, location, depth, o.budget);
      }
      OfCons(env, n, rest);
      OneExplainsCons(env, n, rest, ScanParts(env, parts, index, broken, location, depth, b).verdict);
      NoFilesNoBytes(env, n);
      NoFilesNoBytesOf(env, rest);
    }
  }

  lemma {:induction false} LeafJustified(env: Env, n: Node, m: Media, b: Budget)
    requires IsLeaf(env, n) && MediaOf(env, n.part.contentType) == Some(m)
    ensures var nodes, v := LeafChildren(env, n, m), ScanLeaf(env, n.part, m.kind, n.location, n.depth, b).verdict;
      v.Clean? || OneExplains(env, nodes, v) || Explains(env, n, v) || OverLimits(env, v, b, FilesOf(env, nodes), BytesOf(env, nodes))
    decreases MimeLevel(n), 2, 1
  {
    hide ScanFile, ScanMail, ScanDamaged, FilesBelow, BytesBelow, FilesOf, BytesOf, BlockedExtension, ExecutableSignature,
      DecodeTransfer, MediaOf, IsMail, IsMultipart, ArchiveFormat, Explained, OneExplains;
    var name := LeafName(env, n.part);
    var where, r := LeafLocation(env, n.location, name), DecodeTransfer(env, n.part.encoding, n.part.data);
    if name != "" && BlockedExtension(env, name).Some? {
    } else if r.failed {
      DamagedJustified(env, n, m, b);
    } else if !(name == "" && (m.kind == "text/plain" || m.kind == "text/html")) {
      var child := if IsMail(env, m.kind, name) then MailNode(r.data, where, n.depth) else FileNode(where, name, m.kind, r.data, 0);
      OfCons(env, child, []);
      OfNone(env);
      OneExplainsCons(env, child, [], ScanLeaf(env, n.part, m.kind, n.location, n.depth, b).verdict);
      assert [child] + [] == [child];
      if IsMail(env, m.kind, name) {
        MailJustified(env, child, b);
      } else {
        FileJustified(env, child, b);
      }
    }
  }

  lemma {:induction false} DamagedJustified(env: Env, n: Node, m: Media, b: Budget)
    requires IsLeaf(env, n) && MediaOf(env, n.part.contentType) == Some(m)
    requires DecodeTransfer(env, n.part.encoding, n.part.data).failed
    requires LeafName(env, n.part) == "" || BlockedExtension(env, LeafName(env, n.part)).None?
    ensures var name, r := LeafName(env, n.part), DecodeTransfer(env, n.part.encoding, n.part.data);
      var v := ScanDamaged(env, name, m.kind, r.data, LeafLocation(env, n.location, name), n.depth, b).verdict;
      OneExplains(env, LeafChildren(env, n, m), v) || Explains(env, n, v)
    decreases MimeLevel(n), 2, 0
  {
    hide ScanFile, ScanMail, FilesBelow, BytesBelow, BlockedExtension, ExecutableSignature, DecodeTransfer, MediaOf, IsMail, IsMultipart,
      ArchiveFormat, Explained;
    var name, r := LeafName(env, n.part), DecodeTransfer(env, n.part.encoding, n.part.data);
    var where := LeafLocation(env, n.location, name);
    var mail, file := MailNode(r.data, where, n.depth), FileNode(where, name, m.kind, r.data, 0);
    var o := if IsMail(env, m.kind, name) then ScanMail(env, r.data, where, n.depth, b) else Outcome(Clean, b);
    MailJustified(env, mail, b);
    FileJustified(env, file, o.budget);
    var nodes := LeafChildren(env, n, m);
    if IsMail(env, m.kind, name) {
      assert nodes[0] == mail;
    }
    if env.inspectArchives && ArchiveFormat(env, name, m.kind, r.data) != NoFormat {
      assert nodes[|nodes| - 1] == file;
    }
  }

  lemma {:induction false} MailJustified(env: Env, n: Node, b: Budget)
    requires n.MailNode? && n.depth <= MAX_MIME_DEPTH
    ensures Justified(env, n, b, ScanMail(env, n.data, n.location, n.depth, b).verdict)
    decreases MimeLevel(n), 1, 0
  {
    hide ScanMime, FilesBelow, BytesBelow, FilesOf, BytesOf, Explained, OneExplains;
    var v := ScanMail(env, n.data, n.location, n.depth, b).verdict;
    Below(env, n);
    if Broken(env, n) {
      ExplainedBySelf(env, n, v);
    } else {
      var child := Children(env, n)[0];
      OfCons(env, child, []);
      OfNone(env);
      OneExplainsCons(env, child, [], v);
      assert [child] + [] == [child];
      MimeJustified(env, child, b);
      if OneExplains(env, Children(env, n), v) {
        ExplainedByChild(env, n, v);
      }
    }
  }

  // ---------------------------------------------------------------- the message

  /** Every finding and every error about a message has its reason in the tree of the message. */
  lemma VerdictIsJustified(env: Env, contentType: string, encoding: string, disposition: string, body: bytes)
    ensures var root := Root(contentType, encoding, disposition, body);
      match Scan(env, contentType, encoding, disposition, body)
      case Clean => true
      case Found(path, detection) =>
        exists n :: Reachable(env, root, n) && Forbidden(env, n) == Some(detection) && ReportedAt(env, n, path)
      case Failed(_, true) => exists n :: Reachable(env, root, n) && HasEncrypted(env, n)
      case Failed(_, false) =>
        !Fits(env, Budget(0, 0), FilesBelow(env, root), BytesBelow(env, root)) || exists n :: Reachable(env, root, n) && Broken(env, n)
  {
    hide ScanMime, FilesBelow, BytesBelow, Reachable, Forbidden, Broken, HasEncrypted, ReportedAt;
    var root := Root(contentType, encoding, disposition, body);
    MimeJustified(env, root, Budget(0, 0));
  }

  /** When everything can be inspected within the limits, there is a finding exactly when there is something to find. */
  lemma FoundIffForbidden(env: Env, contentType: string, encoding: string, disposition: string, body: bytes)
    requires forall n :: Reachable(env, Root(contentType, encoding, disposition, body), n) ==> !Broken(env, n)
    requires var root := Root(contentType, encoding, disposition, body);
      Fits(env, Budget(0, 0), FilesBelow(env, root), BytesBelow(env, root))
    ensures Scan(env, contentType, encoding, disposition, body).Found?
       <==> exists n :: Reachable(env, Root(contentType, encoding, disposition, body), n) && Forbidden(env, n).Some?
  {
    hide Scan, FilesBelow, BytesBelow, Reachable, Forbidden, Broken, HasEncrypted, ReportedAt;
    CleanIffHarmless(env, contentType, encoding, disposition, body);
    VerdictIsJustified(env, contentType, encoding, disposition, body);
    EncryptedIsBroken(env);
  }

  lemma EncryptedIsBroken(env: Env)
    ensures forall n :: HasEncrypted(env, n) ==> Broken(env, n)
  {
    hide ArchiveFormat, PartialEntries;
    forall n | HasEncrypted(env, n) ensures Broken(env, n) {
      if env.zip(n.data).Some? {
        var files := env.zip(n.data).value;
        var i :| 0 <= i < |files| && !files[i].isDir && files[i].encrypted;
        assert !ZipFileOk(env, files[i]);
      }
    }
  }
}
