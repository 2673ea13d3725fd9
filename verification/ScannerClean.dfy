/**
 A clean verdict, exactly: the scanner calls a message clean if and only if nothing reachable
 in its tree is forbidden or uninspectable and all archive entries together fit the limits.
 The counters then hold exactly the number and the summed sizes of those entries.
 */
module ScannerClean {
  import opened Attachments
  import opened Options
  import opened PartialZip
  import opened Scanner
  import opened ScannerTree
  import opened Wire

  /** Counting this many entries with this many bytes succeeds; counting nothing always does. */
  predicate Fits(env: Env, b: Budget, files: nat, bytes: nat)
  {
    files == 0 || (b.files + files <= env.maxFiles && b.bytes + bytes <= env.maxBytes)
  }

  function Plus(b: Budget, files: nat, bytes: nat): Budget { Budget(b.files + files, b.bytes + bytes) }

  /** `o` is clean exactly when `good` holds and the entries fit, and has then counted exactly them. */
  predicate CleanExactly(env: Env, o: Outcome, b: Budget, good: bool, files: nat, bytes: nat)
  {
    && (o.verdict.Clean? <==> good && Fits(env, b, files, bytes))
    && (o.verdict.Clean? ==> o.budget == Plus(b, files, bytes))
  }

  /** Doing one thing after the other. */
  lemma Sequence(env: Env, o: Outcome, b: Budget, good: bool, files: nat, bytes: nat,
                 o': Outcome, good': bool, files': nat, bytes': nat)
    requires CleanExactly(env, o, b, good, files, bytes)
    requires o.verdict.Clean? ==> CleanExactly(env, o', o.budget, good', files', bytes')
    requires (files == 0 ==> bytes == 0) && (files' == 0 ==> bytes' == 0)
    ensures CleanExactly(env, if o.verdict.Clean? then o' else o, b, good && good', files + files', bytes + bytes')
  {
  }

  // ---------------------------------------------------------------- sums over lists of nodes

  function FilesOf(env: Env, nodes: seq<Node>): nat
  {
    Sum(seq(|nodes|, i requires 0 <= i < |nodes| => FilesBelow(env, nodes[i])))
  }

  function BytesOf(env: Env, nodes: seq<Node>): nat
  {
    Sum(seq(|nodes|, i requires 0 <= i < |nodes| => BytesBelow(env, nodes[i])))
  }

  ghost predicate AllOk(env: Env, nodes: seq<Node>)
  {
    forall i :: 0 <= i < |nodes| ==> AllGood(env, nodes[i])
  }

  lemma OfCons(env: Env, n: Node, more: seq<Node>)
    ensures FilesOf(env, [n] + more) == FilesBelow(env, n) + FilesOf(env, more)
    ensures BytesOf(env, [n] + more) == BytesBelow(env, n) + BytesOf(env, more)
    ensures AllOk(env, [n] + more) <==> AllGood(env, n) && AllOk(env, more)
  {
    hide FilesBelow, BytesBelow, AllGood;
    var all := [n] + more;
    var fs := seq(|all|, i requires 0 <= i < |all| => FilesBelow(env, all[i]));
    assert fs[1..] == seq(|more|, i requires 0 <= i < |more| => FilesBelow(env, more[i]));
    var bs := seq(|all|, i requires 0 <= i < |all| => BytesBelow(env, all[i]));
    assert bs[1..] == seq(|more|, i requires 0 <= i < |more| => BytesBelow(env, more[i]));
    assert all[0] == n;
    assert forall i :: 0 <= i < |more| ==> all[i + 1] == more[i];
    if AllGood(env, n) && AllOk(env, more) {
      forall i | 0 <= i < |all| ensures AllGood(env, all[i]) {
        assert i > 0 ==> all[i] == more[i - 1];
      }
    }
  }

  lemma OfNone(env: Env)
    ensures FilesOf(env, []) == 0 && BytesOf(env, []) == 0 && AllOk(env, [])
  {
  }

  lemma {:induction false} SumZero(s: seq<nat>)
    requires forall i :: 0 <= i < |s| ==> s[i] == 0
    ensures Sum(s) == 0
  {
    if s != [] {
      SumZero(s[1..]);
    }
  }

  lemma {:induction false} SumBounds(s: seq<nat>, i: nat)
    requires i < |s|
    ensures s[i] <= Sum(s)
  {
    if i > 0 {
      SumBounds(s[1..], i - 1);
    }
  }

  /** Without entries there are no bytes. */
  lemma {:induction false} NoFilesNoBytes(env: Env, n: Node)
    ensures FilesBelow(env, n) == 0 ==> BytesBelow(env, n) == 0
    decreases Rank(env, n)
  {
    hide Children, Sizes;
    if FilesBelow(env, n) == 0 {
      var cs := Children(env, n);
      var fs := seq(|cs|, i requires 0 <= i < |cs| => FilesBelow(env, cs[i]));
      var bs := seq(|cs|, i requires 0 <= i < |cs| => BytesBelow(env, cs[i]));
      forall i | 0 <= i < |cs| ensures bs[i] == 0 {
        SumBounds(fs, i);
        NoFilesNoBytes(env, cs[i]);
      }
      SumZero(bs);
    }
  }

  lemma {:induction false} NoFilesNoBytesOf(env: Env, nodes: seq<Node>)
    ensures FilesOf(env, nodes) == 0 ==> BytesOf(env, nodes) == 0
  {
    hide FilesBelow, BytesBelow, AllGood, FilesOf, BytesOf;
    if nodes == [] {
      OfNone(env);
    } else {
      assert nodes == [nodes[0]] + nodes[1..];
      OfCons(env, nodes[0], nodes[1..]);
      NoFilesNoBytes(env, nodes[0]);
      NoFilesNoBytesOf(env, nodes[1..]);
    }
  }

  /** A node in terms of its children. */
  lemma Below(env: Env, n: Node)
    ensures AllGood(env, n) <==> NodeOk(env, n) && AllOk(env, Children(env, n))
    ensures FilesBelow(env, n) == |Sizes(env, n)| + FilesOf(env, Children(env, n))
    ensures BytesBelow(env, n) == Sum(Sizes(env, n)) + BytesOf(env, Children(env, n))
  {
    hide Children, Sizes, NodeOk;
  }

  // ---------------------------------------------------------------- files and archives


  predicate ZipFilesOk(env: Env, files: seq<ZipFile>) { forall i :: 0 <= i < |files| ==> ZipFileOk(env, files[i]) }
  predicate TarFilesOk(env: Env, files: seq<TarFile>) { forall i :: 0 <= i < |files| ==> TarFileOk(env, files[i]) }

  lemma {:induction false} FileCleanExactly(env: Env, n: Node, b: Budget)
    requires n.FileNode?
    ensures CleanExactly(env, ScanFile(env, n.location, n.name, n.media, n.data, n.depth, b), b,
                         AllGood(env, n), FilesBelow(env, n), BytesBelow(env, n))
    decreases Levels(env, n.depth), 0, 0
  {
    hide ScanZipFiles, ScanTar, ScanInner, ScanPartial, ZipNodes, TarNodes, ZipSizes, TarSizes, PartialEntries, AllGood, FilesBelow,
      BytesBelow, Detection, ArchiveFormat, ReadLimited, ZipFileOk, TarFileOk, StripExtension, GzipName, FilesOf, BytesOf, AllOk;
    Below(env, n);
    OfNone(env);
    if Detection(env, n.name, n.data).None? && FormatOf(env, n) != NoFormat && n.depth < env.maxDepth {
      var d := n.depth + 1;
      match FormatOf(env, n) {
        case ZipFormat =>
          if env.zip(n.data).Some? {
            ZipCleanExactly(env, n.location, env.zip(n.data).value, d, b);
          }
        case TarFormat => TarCleanExactly(env, n.location, env.tar(n.data).files, env.tar(n.data).broken, d, b);
        case GzipFormat =>
          if env.gzip(n.data).Some? {
            InnerCleanExactly(env, n.location, Inner(env, n).0, Inner(env, n).1, d, b);
          }
        case Bzip2Format => InnerCleanExactly(env, n.location, Inner(env, n).0, Inner(env, n).1, d, b);
      }
    }
  }

  lemma {:induction false} InnerCleanExactly(env: Env, location: string, name: string, content: Stream, depth: nat, b: Budget)
    ensures var nodes, r := [InnerNode(env, location, name, content, depth)], ReadLimited(content, env.maxAttachment);
      CleanExactly(env, ScanInner(env, location, name, content, depth, b), b, !r.failed && AllOk(env, nodes),
                   |[|r.data|]| + FilesOf(env, nodes), Sum([|r.data|]) + BytesOf(env, nodes))
    decreases Levels(env, depth), 1, 0
  {
    hide ScanFile, AllGood, FilesBelow, BytesBelow, FilesOf, BytesOf, AllOk;
    var n, r := InnerNode(env, location, name, content, depth), ReadLimited(content, env.maxAttachment);
    OfCons(env, n, []);
    OfNone(env);
    assert [n] + [] == [n];
    assert Sum([|r.data|]) == |r.data| by { assert [|r.data|][1..] == []; }
    if Count(env, b, |r.data|).Some? {
      FileCleanExactly(env, n, Count(env, b, |r.data|).value);
    }
    NoFilesNoBytes(env, n);
  }

  lemma {:induction false} ZipFileCleanExactly(env: Env, location: string, f: ZipFile, depth: nat, b: Budget)
    requires !f.isDir
    ensures var n := ZipNode(env, location, f, depth);
      CleanExactly(env, ScanZipFile(env, env.join(location, f.name), f, depth, b), b, ZipFileOk(env, f) && AllGood(env, n),
                   1 + FilesBelow(env, n), f.declared + BytesBelow(env, n))
    decreases Levels(env, depth), 1, 0
  {
    hide ScanFile, FilesBelow, BytesBelow, ReadLimited, AllGood, BlockedExtension, ExecutableSignature;
    var n := ZipNode(env, location, f, depth);
    GoodIsHarmless(env, n);
    var counted := Count(env, b, f.declared);
    FileCleanExactly(env, n, if counted.Some? then counted.value else b);
    NoFilesNoBytes(env, n);
  }

  lemma GoodIsHarmless(env: Env, n: Node)
    requires n.FileNode?
    ensures AllGood(env, n) ==> Detection(env, n.name, n.data).None?
  {
    hide Detection, FileBroken;
  }

  lemma {:induction false} ZipCleanExactly(env: Env, location: string, files: seq<ZipFile>, depth: nat, b: Budget)
    ensures var nodes := ZipNodes(env, location, files, depth);
      CleanExactly(env, ScanZipFiles(env, location, files, depth, b), b, ZipFilesOk(env, files) && AllOk(env, nodes),
                   |ZipSizes(files)| + FilesOf(env, nodes), Sum(ZipSizes(files)) + BytesOf(env, nodes))
    decreases Levels(env, depth), 2, |files|
  {
    hide ScanZipFile, AllGood, FilesBelow, BytesBelow, ZipNode, ZipFileOk, FilesOf, BytesOf, AllOk;
    if files == [] {
      OfNone(env);
    } else {
      var more := files[1..];
      assert ZipFilesOk(env, files) <==> ZipFileOk(env, files[0]) && ZipFilesOk(env, more);
      if files[0].isDir {
        ZipCleanExactly(env, location, more, depth, b);
        DirectoriesAreOk(env, files[0]);
      } else {
        var n, rest := ZipNode(env, location, files[0], depth), ZipNodes(env, location, more, depth);
        var o := ScanZipFile(env, env.join(location, files[0].name), files[0], depth, b);
        ZipFileCleanExactly(env, location, files[0], depth, b);
        if o.verdict.Clean? {
          ZipCleanExactly(env, location, more, depth, o.budget);
        }
        OfCons(env, n, rest);
        NoFilesNoBytesOf(env, rest);
        SizesNoneNoBytes(ZipSizes(more));
        Sequence(env, o, b, ZipFileOk(env, files[0]) && AllGood(env, n), 1 + FilesBelow(env, n), files[0].declared + BytesBelow(env, n),
                 ScanZipFiles(env, location, more, depth, o.budget), ZipFilesOk(env, more) && AllOk(env, rest),
                 |ZipSizes(more)| + FilesOf(env, rest), Sum(ZipSizes(more)) + BytesOf(env, rest));
        assert ZipSizes(files)[1..] == ZipSizes(more);
      }
    }
  }

  lemma DirectoriesAreOk(env: Env, f: ZipFile)
    ensures f.isDir ==> ZipFileOk(env, f)
  {
  }

  lemma SizesNoneNoBytes(s: seq<nat>)
    ensures |s| == 0 ==> Sum(s) == 0
  {
  }

  lemma {:induction false} TarFileCleanExactly(env: Env, location: string, f: TarFile, depth: nat, b: Budget)
    requires f.regular
    ensures var n := TarNode(env, location, f, depth);
      CleanExactly(env, ScanTarFile(env, env.join(location, f.name), f, depth, b), b, TarFileOk(env, f) && AllGood(env, n),
                   1 + FilesBelow(env, n), (if f.size < 0 then 0 else f.size) + BytesBelow(env, n))
    decreases Levels(env, depth), 1, 0
  {
    hide ScanFile, FilesBelow, BytesBelow, ReadLimited, AllGood, BlockedExtension, ExecutableSignature;
    var n := TarNode(env, location, f, depth);
    GoodIsHarmless(env, n);
    NoFilesNoBytes(env, n);
    if f.size >= 0 {
      if Count(env, b, f.size).Some? {
        FileCleanExactly(env, n, Count(env, b, f.size).value);
      }
    }
  }

  lemma {:induction false} TarCleanExactly(env: Env, location: string, files: seq<TarFile>, broken: bool, depth: nat, b: Budget)
    ensures var nodes := TarNodes(env, location, files, depth);
      CleanExactly(env, ScanTar(env, location, files, broken, depth, b), b, !broken && TarFilesOk(env, files) && AllOk(env, nodes),
                   |TarSizes(files)| + FilesOf(env, nodes), Sum(TarSizes(files)) + BytesOf(env, nodes))
    decreases Levels(env, depth), 2, |files|
  {
    hide ScanTarFile, AllGood, FilesBelow, BytesBelow, TarNode, TarFileOk, FilesOf, BytesOf, AllOk;
    if files == [] {
      OfNone(env);
    } else {
      var more := files[1..];
      assert TarFilesOk(env, files) <==> TarFileOk(env, files[0]) && TarFilesOk(env, more);
      if !files[0].regular {
        TarCleanExactly(env, location, more, broken, depth, b);
        SpecialFilesAreOk(env, files[0]);
      } else {
        var n, rest := TarNode(env, location, files[0], depth), TarNodes(env, location, more, depth);
        var o := ScanTarFile(env, env.join(location, files[0].name), files[0], depth, b);
        var size := if files[0].size < 0 then 0 else files[0].size;
        TarFileCleanExactly(env, location, files[0], depth, b);
        if o.verdict.Clean? {
          TarCleanExactly(env, location, more, broken, depth, o.budget);
        }
        OfCons(env, n, rest);
        NoFilesNoBytesOf(env, rest);
        SizesNoneNoBytes(TarSizes(more));
        Sequence(env, o, b, TarFileOk(env, files[0]) && AllGood(env, n), 1 + FilesBelow(env, n), size + BytesBelow(env, n),
                 ScanTar(env, location, more, broken, depth, o.budget), !broken && TarFilesOk(env, more) && AllOk(env, rest),
                 |TarSizes(more)| + FilesOf(env, rest), Sum(TarSizes(more)) + BytesOf(env, rest));
        assert TarSizes(files)[1..] == TarSizes(more);
      }
    }
  }

  lemma SpecialFilesAreOk(env: Env, f: TarFile)
    ensures !f.regular ==> TarFileOk(env, f)
  {
  }

  // ---------------------------------------------------------------- parts and mail

  predicate PartsRead(parts: seq<Part>) { forall i :: 0 <= i < |parts| ==> !parts[i].readFailed }

  function MimeLevel(n: Node): nat
  {
    if n.FileNode? || n.depth > MAX_MIME_DEPTH then 0 else MAX_MIME_DEPTH + 1 - n.depth
  }

  lemma {:induction false} MimeCleanExactly(env: Env, n: Node, b: Budget)
    requires n.MimeNode?
    ensures CleanExactly(env, ScanMime(env, n.part, n.location, n.depth, b), b,
                         AllGood(env, n), FilesBelow(env, n), BytesBelow(env, n))
    decreases MimeLevel(n), 3, 0
  {
    hide ScanParts, ScanLeaf, AllGood, FilesBelow, BytesBelow, FilesOf, BytesOf, AllOk, BlockedExtension, ExecutableSignature, DecodeTransfer;
    Below(env, n);
    OfNone(env);
    if n.depth <= MAX_MIME_DEPTH && MediaOf(env, n.part.contentType).Some? {
      var m := MediaOf(env, n.part.contentType).value;
      if !IsMultipart(m) {
        LeafCleanExactly(env, n, m, b);
      } else if m.boundary != "" {
        var ps := env.parts(m.boundary, n.part.data);
        PartsCleanExactly(env, ps.parts, 1, ps.broken, n.location, n.depth, b);
      }
    }
  }

  lemma PartNodesCons(env: Env, location: string, parts: seq<Part>, index: nat, depth: nat)
    requires parts != []
    ensures PartNodes(env, location, parts, index, depth)
         == [MimeNode(parts[0], PartLocation(env, location, index, parts[0]), depth)]
            + PartNodes(env, location, parts[1..], index + 1, depth)
  {
  }

  lemma {:induction false} PartsCleanExactly(env: Env, parts: seq<Part>, index: nat, broken: bool, location: string, depth: nat, b: Budget)
    requires depth <= MAX_MIME_DEPTH
    ensures var nodes := PartNodes(env, location, parts, index, depth + 1);
      CleanExactly(env, ScanParts(env, parts, index, broken, location, depth, b), b, !broken && PartsRead(parts) && AllOk(env, nodes),
                   FilesOf(env, nodes), BytesOf(env, nodes))
    decreases MAX_MIME_DEPTH + 1 - depth, 2, |parts|
  {
    hide ScanMime, AllGood, FilesBelow, BytesBelow, FilesOf, BytesOf, AllOk, PartNodes;
    if parts == [] {
      OfNone(env);
      assert PartNodes(env, location, parts, index, depth + 1) == [] by { NoPartNodes(env, location, index, depth + 1); }
    } else {
      var more, rest := parts[1..], PartNodes(env, location, parts[1..], index + 1, depth + 1);
      var n := MimeNode(parts[0], PartLocation(env, location, index, parts[0]), depth + 1);
      var o := ScanMime(env, n.part, n.location, n.depth, b);
      PartNodesCons(env, location, parts, index, depth + 1);
      MimeCleanExactly(env, n, b);
      if o.verdict.Clean? {
        PartsCleanExactly(env, more, index + 1, broken, location, depth, o.budget);
      }
      OfCons(env, n, rest);
      NoFilesNoBytes(env, n);
      NoFilesNoBytesOf(env, rest);
      assert PartsRead(parts) <==> !parts[0].readFailed && PartsRead(more);
      Sequence(env, o, b, AllGood(env, n), FilesBelow(env, n), BytesBelow(env, n),
               ScanParts(env, more, index + 1, broken, location, depth, o.budget), !broken && PartsRead(more) && AllOk(env, rest),
               FilesOf(env, rest), BytesOf(env, rest));
    }
  }

  lemma NoPartNodes(env: Env, location: string, index: nat, depth: nat)
    ensures PartNodes(env, location, [], index, depth) == []
  {
  }

  lemma {:induction false} LeafCleanExactly(env: Env, n: Node, m: Media, b: Budget)
    requires IsLeaf(env, n) && MediaOf(env, n.part.contentType) == Some(m)
    ensures CleanExactly(env, ScanLeaf(env, n.part, m.kind, n.location, n.depth, b), b,
                         NodeOk(env, n) && AllOk(env, LeafChildren(env, n, m)),
                         FilesOf(env, LeafChildren(env, n, m)), BytesOf(env, LeafChildren(env, n, m)))
    decreases MimeLevel(n), 2, 0
  {
    hide ScanFile, ScanMail, ScanDamaged, AllGood, FilesBelow, BytesBelow, FilesOf, BytesOf, AllOk, BlockedExtension, ExecutableSignature,
      DecodeTransfer, MediaOf, IsMail, IsMultipart, ArchiveFormat;
    OfNone(env);
    var name := LeafName(env, n.part);
    var where, r := LeafLocation(env, n.location, name), DecodeTransfer(env, n.part.encoding, n.part.data);
    if r.failed {
      DamagedIsNeverClean(env, name, m.kind, r.data, where, n.depth, b);
    } else if !(name == "" && (m.kind == "text/plain" || m.kind == "text/html")) {
      var child := if IsMail(env, m.kind, name) then MailNode(r.data, where, n.depth) else FileNode(where, name, m.kind, r.data, 0);
      OfCons(env, child, []);
      assert [child] + [] == [child];
      if IsMail(env, m.kind, name) {
        MailCleanExactly(env, child, b);
      } else {
        FileCleanExactly(env, child, b);
      }
    }
  }

  lemma DamagedIsNeverClean(env: Env, name: string, kind: string, data: bytes, location: string, depth: nat, b: Budget)
    requires depth <= MAX_MIME_DEPTH
    ensures !ScanDamaged(env, name, kind, data, location, depth, b).verdict.Clean?
  {
    hide ScanFile, ScanMail, ExecutableSignature, ArchiveFormat;
  }

  lemma {:induction false} MailCleanExactly(env: Env, n: Node, b: Budget)
    requires n.MailNode? && n.depth <= MAX_MIME_DEPTH
    ensures CleanExactly(env, ScanMail(env, n.data, n.location, n.depth, b), b,
                         AllGood(env, n), FilesBelow(env, n), BytesBelow(env, n))
    decreases MimeLevel(n), 1, 0
  {
    hide ScanMime, AllGood, FilesBelow, BytesBelow, FilesOf, BytesOf, AllOk;
    Below(env, n);
    OfNone(env);
    if NodeOk(env, n) {
      var child := Children(env, n)[0];
      OfCons(env, child, []);
      assert [child] + [] == [child];
      MimeCleanExactly(env, child, b);
    }
  }

  // ---------------------------------------------------------------- the message

  /** The message as the root of its tree. */
  function Root(contentType: string, encoding: string, disposition: string, body: bytes): Node
  {
    MimeNode(Part(contentType, encoding, disposition, body, false), "message", 0)
  }

  /** A message is clean exactly when every reachable node is harmless and inspectable and its archives hold,
      all together, no more entries and bytes than the limits allow. Then the counters have counted just these. */
  lemma CleanIffHarmless(env: Env, contentType: string, encoding: string, disposition: string, body: bytes)
    ensures var root := MimeNode(Part(contentType, encoding, disposition, body, false), "message", 0);
      var files, bytes := FilesBelow(env, root), BytesBelow(env, root);
      Scan(env, contentType, encoding, disposition, body).Clean? <==>
        && (forall n :: Reachable(env, root, n) ==> Forbidden(env, n).None? && !Broken(env, n))
        && (files == 0 || (files <= env.maxFiles && bytes <= env.maxBytes))
    ensures var root := MimeNode(Part(contentType, encoding, disposition, body, false), "message", 0);
      var o := ScanMime(env, root.part, root.location, root.depth, Budget(0, 0));
      o.verdict.Clean? ==> o.budget == Budget(FilesBelow(env, root), BytesBelow(env, root))
  {
    hide ScanMime, AllGood, FilesBelow, BytesBelow, Reachable, Forbidden, Broken;
    var root := Root(contentType, encoding, disposition, body);
    MimeCleanExactly(env, root, Budget(0, 0));
    GoodIffReachable(env, root);
  }
}
