/**
 What is inside what: the nodes directly below each kind of node, what counting charges for
 them, and when the node itself cannot be inspected, read off the decoded archives and parts.
 */
module ScannerContents {
  import opened Attachments
  import opened Options
  import opened PartialZip
  import opened Recognition
  import opened Scanner
  import opened ScannerTree
  import opened Wire

  /** As much of a stream as the size limit lets through. */
  predicate IsBeginning(env: Env, data: bytes, s: Stream)
  {
    data <= s.data
    && |data| == if env.maxAttachment <= 0 then 0 else if |s.data| > env.maxAttachment then env.maxAttachment else |s.data|
  }

  /** The whole stream can be read within the size limit. */
  predicate Readable(env: Env, s: Stream) { 0 < env.maxAttachment && |s.data| <= env.maxAttachment && !s.failed }

  predicate Increasing(at: seq<nat>) { forall j, k :: 0 <= j < k < |at| ==> at[j] < at[k] }

  /** A file node for an archive entry. */
  predicate IsEntry(env: Env, n: Node, archive: Node, name: string)
    requires archive.FileNode?
  {
    n.FileNode? && n.name == name && n.location == env.join(archive.location, name) && n.media == "application/octet-stream"
    && n.depth == archive.depth + 1
  }

  /** A file is forbidden exactly when its name is blocked or, with signatures inspected, it is a program. */
  lemma FileForbiddenIff(env: Env, n: Node)
    requires n.FileNode?
    ensures Forbidden(env, n).Some? <==>
      BlockedExtension(env, n.name).Some? || (env.inspectSignatures && (StartsLikeProgram(n.data) || env.script(n.data).Some?))
    ensures BlockedExtension(env, n.name).Some? ==>
      Forbidden(env, n) == Some("blocked extension ." + BlockedExtension(env, n.name).value)
    ensures Forbidden(env, n).Some? && BlockedExtension(env, n.name).None? ==> Forbidden(env, n) == ExecutableSignature(env, n.data)
  {
    hide BlockedExtension, ExecutableSignature, StartsLikeProgram;
    DetectionIff(env, n.name, n.data);
  }

  // ---------------------------------------------------------------- archives

  /** A file is opened as an archive when archives are inspected and it is one, and not below the depth limit. */
  predicate Opens(env: Env, n: Node, format: Format)
    requires n.FileNode?
  {
    env.inspectArchives && ArchiveFormat(env, n.name, n.media, n.data) == format && n.depth < env.maxDepth
  }

  lemma UnopenedContents(env: Env, n: Node)
    requires n.FileNode?
    ensures !env.inspectArchives || ArchiveFormat(env, n.name, n.media, n.data) == NoFormat ==>
      Children(env, n) == [] && Sizes(env, n) == [] && !Broken(env, n)
    ensures env.inspectArchives && ArchiveFormat(env, n.name, n.media, n.data) != NoFormat && n.depth >= env.maxDepth ==>
      Children(env, n) == [] && Sizes(env, n) == [] && Broken(env, n)
  {
    hide ArchiveFormat;
  }

  // ---------------------------------------------------------------- positions

  /** The positions from `i` on that are marked. */
  function Positions(marked: seq<bool>, i: nat): (at: seq<nat>)
    requires i <= |marked|
    ensures Increasing(at)
    ensures forall k :: 0 <= k < |at| ==> i <= at[k] < |marked| && marked[at[k]]
    ensures forall p :: p in at <==> i <= p < |marked| && marked[p]
    decreases |marked| - i
  {
    if i == |marked| then [] else (if marked[i] then [i] else []) + Positions(marked, i + 1)
  }

  function Files(files: seq<ZipFile>): seq<bool> { seq(|files|, i requires 0 <= i < |files| => !files[i].isDir) }
  function Regular(files: seq<TarFile>): seq<bool> { seq(|files|, i requires 0 <= i < |files| => files[i].regular) }

  lemma {:induction false} ZipNodesAt(env: Env, location: string, files: seq<ZipFile>, i: nat, depth: nat)
    requires i <= |files|
    ensures var at, nodes := Positions(Files(files), i), ZipNodes(env, location, files[i..], depth);
      |nodes| == |at| && forall j :: 0 <= j < |at| ==> nodes[j] == ZipNode(env, location, files[at[j]], depth)
    decreases |files| - i
  {
    hide ZipNode;
    if i < |files| {
      ZipNodesAt(env, location, files, i + 1, depth);
      assert files[i..][1..] == files[i + 1..] && files[i..][0] == files[i];
      var more, rest := ZipNodes(env, location, files[i + 1..], depth), Positions(Files(files), i + 1);
      assert ZipNodes(env, location, files[i..], depth) == if !files[i].isDir then [ZipNode(env, location, files[i], depth)] + more else more;
      assert Positions(Files(files), i) == if !files[i].isDir then [i] + rest else rest;
      hide ZipNodes, Positions, Files;
    }
  }

  lemma {:induction false} ZipSizesAt(files: seq<ZipFile>, i: nat)
    requires i <= |files|
    ensures var at, sizes := Positions(Files(files), i), ZipSizes(files[i..]);
      |sizes| == |at| && forall j :: 0 <= j < |at| ==> sizes[j] == files[at[j]].declared
    decreases |files| - i
  {
    if i < |files| {
      ZipSizesAt(files, i + 1);
      assert files[i..][1..] == files[i + 1..] && files[i..][0] == files[i];
      var more, rest := ZipSizes(files[i + 1..]), Positions(Files(files), i + 1);
      assert ZipSizes(files[i..]) == if !files[i].isDir then [files[i].declared] + more else more;
      assert Positions(Files(files), i) == if !files[i].isDir then [i] + rest else rest;
      hide ZipSizes, Positions, Files;
    }
  }

  lemma {:induction false} TarNodesAt(env: Env, location: string, files: seq<TarFile>, i: nat, depth: nat)
    requires i <= |files|
    ensures var at, nodes := Positions(Regular(files), i), TarNodes(env, location, files[i..], depth);
      |nodes| == |at| && forall j :: 0 <= j < |at| ==> nodes[j] == TarNode(env, location, files[at[j]], depth)
    decreases |files| - i
  {
    hide TarNode;
    if i < |files| {
      TarNodesAt(env, location, files, i + 1, depth);
      assert files[i..][1..] == files[i + 1..] && files[i..][0] == files[i];
      var more, rest := TarNodes(env, location, files[i + 1..], depth), Positions(Regular(files), i + 1);
      assert TarNodes(env, location, files[i..], depth) == if files[i].regular then [TarNode(env, location, files[i], depth)] + more else more;
      assert Positions(Regular(files), i) == if files[i].regular then [i] + rest else rest;
      hide TarNodes, Positions, Regular;
    }
  }

  function Charged(f: TarFile): nat { if f.size < 0 then 0 else f.size }

  lemma {:induction false} TarSizesAt(files: seq<TarFile>, i: nat)
    requires i <= |files|
    ensures var at, sizes := Positions(Regular(files), i), TarSizes(files[i..]);
      |sizes| == |at| && forall j :: 0 <= j < |at| ==> sizes[j] == Charged(files[at[j]])
    decreases |files| - i
  {
    if i < |files| {
      TarSizesAt(files, i + 1);
      assert files[i..][1..] == files[i + 1..] && files[i..][0] == files[i];
      var more, rest := TarSizes(files[i + 1..]), Positions(Regular(files), i + 1);
      TarSizesStep(files[i..]);
      assert Positions(Regular(files), i) == if files[i].regular then [i] + rest else rest;
      hide TarSizes, Positions, Regular, Charged;
    }
  }

  lemma TarSizesStep(files: seq<TarFile>)
    requires files != []
    ensures TarSizes(files) == if files[0].regular then [Charged(files[0])] + TarSizes(files[1..]) else TarSizes(files[1..])
  {
  }

  // ---------------------------------------------------------------- entries

  /** An entry of an intact ZIP file that cannot be inspected. */
  predicate ZipEntryFails(env: Env, f: ZipFile)
  {
    !f.isDir && (f.encrypted || f.content.None? || !Readable(env, f.content.value) || f.declared > env.maxAttachment)
  }

  /** Below an intact ZIP file are its entries that are not directories, in order, each as far as it may be read and charged
      with the size it claims. */
  lemma ZipContents(env: Env, n: Node) returns (at: seq<nat>)
    requires n.FileNode? && Opens(env, n, ZipFormat) && env.zip(n.data).Some?
    ensures var files := env.zip(n.data).value;
      && Increasing(at) && (forall i :: i in at <==> 0 <= i < |files| && !files[i].isDir)
      && |Children(env, n)| == |at| && |Sizes(env, n)| == |at|
      && (forall j :: 0 <= j < |at| ==>
            (at[j] in at && IsZipEntry(env, Children(env, n)[j], n, files[at[j]]) && Sizes(env, n)[j] == files[at[j]].declared))
      && (Broken(env, n) <==> exists i :: 0 <= i < |files| && ZipEntryFails(env, files[i]))
  {
    hide ArchiveFormat, ZipNodes, ZipSizes, Positions;
    var files := env.zip(n.data).value;
    at := Positions(Files(files), 0);
    ZipNodesAt(env, n.location, files, 0, n.depth + 1);
    ZipSizesAt(files, 0);
    assert files[0..] == files;
    forall i | 0 <= i < |files| ensures ZipFileOk(env, files[i]) <==> !ZipEntryFails(env, files[i]) {
    }
    forall j | 0 <= j < |at| ensures at[j] in at && IsZipEntry(env, Children(env, n)[j], n, files[at[j]]) {
      assert at[j] in at;
    }
  }

  predicate IsZipEntry(env: Env, c: Node, n: Node, f: ZipFile)
    requires n.FileNode?
  {
    IsEntry(env, c, n, f.name) && match f.content case Some(s) => IsBeginning(env, c.data, s) case None => c.data == []
  }

  /** An entry of a TAR file that cannot be inspected. */
  predicate TarEntryFails(env: Env, f: TarFile)
  {
    f.regular && (f.size < 0 || !Readable(env, f.content) || f.size > env.maxAttachment)
  }

  predicate IsTarEntry(env: Env, c: Node, n: Node, f: TarFile)
    requires n.FileNode?
  {
    IsEntry(env, c, n, f.name) && IsBeginning(env, c.data, f.content)
  }

  /** Below a TAR file are its regular files, in order; it is uninspectable also when its headers end in an error. */
  lemma TarContents(env: Env, n: Node) returns (at: seq<nat>)
    requires n.FileNode? && Opens(env, n, TarFormat)
    ensures var files := env.tar(n.data).files;
      && Increasing(at) && (forall i :: i in at <==> 0 <= i < |files| && files[i].regular)
      && |Children(env, n)| == |at| && |Sizes(env, n)| == |at|
      && (forall j :: 0 <= j < |at| ==>
            (at[j] in at && IsTarEntry(env, Children(env, n)[j], n, files[at[j]])
             && (files[at[j]].size >= 0 ==> Sizes(env, n)[j] == files[at[j]].size)))
      && (Broken(env, n) <==> env.tar(n.data).broken || exists i :: 0 <= i < |files| && TarEntryFails(env, files[i]))
  {
    hide ArchiveFormat, TarNodes, TarSizes, Positions;
    var files := env.tar(n.data).files;
    at := Positions(Regular(files), 0);
    TarNodesAt(env, n.location, files, 0, n.depth + 1);
    TarSizesAt(files, 0);
    assert files[0..] == files;
    forall i | 0 <= i < |files| ensures TarFileOk(env, files[i]) <==> !TarEntryFails(env, files[i]) {
    }
    forall j | 0 <= j < |at| ensures at[j] in at && IsTarEntry(env, Children(env, n)[j], n, files[at[j]]) {
      assert at[j] in at;
    }
  }

  /** Below a compressed file is what it unpacks to, charged with what could be read of it. */
  predicate Unpacks(env: Env, n: Node, s: Stream)
    requires n.FileNode?
  {
    && |Children(env, n)| == 1 && Children(env, n)[0].FileNode? && IsEntry(env, Children(env, n)[0], n, Children(env, n)[0].name)
    && IsBeginning(env, Children(env, n)[0].data, s) && Sizes(env, n) == [|Children(env, n)[0].data|]
    && (Broken(env, n) <==> !Readable(env, s))
  }

  lemma GzipContents(env: Env, n: Node)
    requires n.FileNode? && Opens(env, n, GzipFormat)
    ensures match env.gzip(n.data)
            case None => Children(env, n) == [] && Sizes(env, n) == [] && Broken(env, n)
            case Some(g) => Unpacks(env, n, g.content) && Children(env, n)[0].name == GzipName(env, g, n.name)
  {
    hide ArchiveFormat, GzipName;
  }

  lemma Bzip2Contents(env: Env, n: Node)
    requires n.FileNode? && Opens(env, n, Bzip2Format)
    ensures Unpacks(env, n, env.bzip2(n.data)) && Children(env, n)[0].name == StripExtension(env, n.name, [".bz2", ".bzip2"])
  {
    hide ArchiveFormat, StripExtension;
  }

  // ---------------------------------------------------------------- damaged ZIP files

  predicate IsPartialEntry(env: Env, c: Node, n: Node, e: Entry)
    requires n.FileNode?
  {
    && IsEntry(env, c, n, env.text(e.name))
    && (e.compression == 0 ==> IsBeginning(env, c.data, Stream(e.content, false)))
    && (e.compression == 8 ==> IsBeginning(env, c.data, env.inflate(e.content)))
    && (e.compression != 0 && e.compression != 8 ==> c.data == [])
  }

  /** The local headers of a damaged ZIP file: the first is at the offset, each next one where a complete entry ends, and
      the last is that of an incomplete entry or followed by none. */
  predicate Walk(data: bytes, offset: nat, at: seq<nat>)
  {
    && (forall j :: 0 <= j < |at| ==> at[j] <= |data| && HeaderAt(data, at[j]) && EntryFits(data, at[j]))
    && (forall j :: 0 <= j < |at| - 1 ==> Leads(data, at, j))
    && if at == [] then !HeaderAt(data, offset) || !EntryFits(data, offset)
       else at[0] == offset && Ends(data, EntryAt(data, at[|at| - 1]))
  }

  predicate Leads(data: bytes, at: seq<nat>, j: nat)
    requires j + 1 < |at| && HeaderAt(data, at[j]) && EntryFits(data, at[j])
  {
    !EntryAt(data, at[j]).incomplete && at[j + 1] == EntryAt(data, at[j]).next
  }

  predicate Ends(data: bytes, last: Entry) { last.incomplete || !HeaderAt(data, last.next) || !EntryFits(data, last.next) }

  /** Below a damaged ZIP file are the entries of that walk. It is never inspectable. */
  lemma DamagedZipContents(env: Env, n: Node) returns (at: seq<nat>)
    requires n.FileNode? && Opens(env, n, ZipFormat) && env.zip(n.data).None?
    ensures Walk(n.data, 0, at) && |Children(env, n)| == |at| && Sizes(env, n) == [] && Broken(env, n)
    ensures forall j :: 0 <= j < |at| ==> IsPartialEntry(env, Children(env, n)[j], n, EntryAt(n.data, at[j]))
  {
    hide ArchiveFormat, PartialEntries, HeaderAt, EntryFits, EntryAt;
    at := WalkAt(n.data, 0);
    forall j | 0 <= j < |at| ensures IsPartialEntry(env, Children(env, n)[j], n, EntryAt(n.data, at[j])) {
    }
  }

  lemma WalkOn(data: bytes, offset: nat, more: seq<nat>)
    requires offset <= |data| && HeaderAt(data, offset) && EntryFits(data, offset) && !EntryAt(data, offset).incomplete
    requires Walk(data, EntryAt(data, offset).next, more)
    ensures Walk(data, offset, [offset] + more)
  {
    hide HeaderAt, EntryFits, EntryAt;
    var at := [offset] + more;
    forall j | 0 <= j < |at| ensures at[j] <= |data| && HeaderAt(data, at[j]) && EntryFits(data, at[j]) {
      assert j > 0 ==> at[j] == more[j - 1];
    }
    forall j | 0 <= j < |at| - 1 ensures Leads(data, at, j) {
      assert j > 0 ==> Leads(data, more, j - 1);
    }
    assert at[|at| - 1] == if more == [] then offset else more[|more| - 1];
  }

  lemma {:induction false} WalkAt(data: bytes, offset: nat) returns (at: seq<nat>)
    requires offset <= |data|
    ensures Walk(data, offset, at)
    ensures |PartialEntries(data, offset)| == |at| && forall j :: 0 <= j < |at| ==> PartialEntries(data, offset)[j] == EntryAt(data, at[j])
    decreases |data| - offset
  {
    hide HeaderAt, EntryFits, EntryAt;
    if !HeaderAt(data, offset) || !EntryFits(data, offset) {
      at := [];
    } else if EntryAt(data, offset).incomplete {
      at := [offset];
    } else {
      var more := WalkAt(data, EntryAt(data, offset).next);
      at := [offset] + more;
      WalkOn(data, offset, more);
    }
  }

  // ---------------------------------------------------------------- parts and mail

  /** The media type of a part: plain text when the header is blank, unreadable when it does not parse or is empty. */
  lemma MediaIff(env: Env, contentType: string)
    ensures env.isBlank(contentType) ==> MediaOf(env, contentType) == Some(Media("text/plain", ""))
    ensures !env.isBlank(contentType) ==>
      match env.parseMedia(contentType)
      case None => MediaOf(env, contentType) == None
      case Some(m) => if |m.kind| == 0 then MediaOf(env, contentType) == None
                      else MediaOf(env, contentType) == Some(Media(env.lower(m.kind), m.boundary))
  {
  }

  lemma MultipartIff(m: Media)
    ensures IsMultipart(m) <==> "multipart/" <= m.kind
  {
    if "multipart/" <= m.kind {
      assert m.kind[..10] == "multipart/";
    }
    if IsMultipart(m) {
      assert m.kind == m.kind[..10] + m.kind[10..];
    }
  }

  /** A multipart part has its parts, in order, one level deeper; it needs a boundary, and its parts and their end must be readable. */
  lemma MultipartContents(env: Env, n: Node, kind: string, boundary: string)
    requires n.MimeNode? && MediaOf(env, n.part.contentType) == Some(Media("multipart/" + kind, boundary)) && n.depth <= 16
    ensures Sizes(env, n) == [] && Forbidden(env, n) == None
    ensures boundary == "" ==> Children(env, n) == [] && Broken(env, n)
    ensures boundary != "" ==>
      var ps := env.parts(boundary, n.part.data);
      && |Children(env, n)| == |ps.parts|
      && (forall i :: 0 <= i < |ps.parts| ==>
            var name := env.filename(ps.parts[i].disposition, ps.parts[i].contentType);
            Children(env, n)[i] == MimeNode(ps.parts[i], if name != "" then env.join(n.location, name) else env.numbered(n.location, i + 1), n.depth + 1))
      && (Broken(env, n) <==> ps.broken || exists i :: 0 <= i < |ps.parts| && ps.parts[i].readFailed)
  {
    MultipartIff(Media("multipart/" + kind, boundary));
  }

  /** Parts nested deeper than 16 levels, and attached mail at that level, are not looked into. */
  lemma DeepContents(env: Env, n: Node)
    ensures n.MimeNode? && n.depth > 16 ==> Children(env, n) == [] && Forbidden(env, n) == None && Broken(env, n)
    ensures n.MailNode? && n.depth >= 16 ==> Children(env, n) == [] && Broken(env, n)
    ensures n.MimeNode? && MediaOf(env, n.part.contentType).None? ==> Children(env, n) == [] && Forbidden(env, n) == None && Broken(env, n)
  {
  }

  predicate MailName(env: Env, kind: string, name: string) { kind == "message/rfc822" || EndsWith(env.lower(name), ".eml") }

  /** Any other part is forbidden for a blocked name, decoded or not, and for a program in what could be decoded of it when
      it is damaged; it is uninspectable exactly when it is damaged. */
  lemma LeafForbiddenIff(env: Env, n: Node, m: Media)
    requires n.MimeNode? && n.depth <= 16 && MediaOf(env, n.part.contentType) == Some(m) && !("multipart/" <= m.kind)
    ensures var name, r := env.filename(n.part.disposition, n.part.contentType), DecodeTransfer(env, n.part.encoding, n.part.data);
      && (Broken(env, n) <==> r.failed)
      && (Forbidden(env, n).Some? <==>
            ((name != "" && BlockedExtension(env, name).Some?)
             || (r.failed && env.inspectSignatures && (StartsLikeProgram(r.data) || env.script(r.data).Some?))))
      && (name != "" && BlockedExtension(env, name).Some? ==>
            Forbidden(env, n) == Some("blocked extension ." + BlockedExtension(env, name).value))
  {
    hide BlockedExtension, ExecutableSignature, DecodeTransfer, StartsLikeProgram, MediaOf, IsMultipart;
    MultipartIff(m);
    ExecutableIff(env, DecodeTransfer(env, n.part.encoding, n.part.data).data);
  }

  /** Its content is a file, attached mail, or a message text without a file name, which is exempt. Of a damaged part, what
      was decoded is looked at as mail, and as an archive if it is one. */
  lemma LeafContents(env: Env, n: Node, m: Media)
    requires n.MimeNode? && n.depth <= 16 && MediaOf(env, n.part.contentType) == Some(m) && !("multipart/" <= m.kind)
    ensures Sizes(env, n) == []
    ensures var name, r := env.filename(n.part.disposition, n.part.contentType), DecodeTransfer(env, n.part.encoding, n.part.data);
      var where := if name != "" then env.replaceBase(n.location, name) else n.location;
      var mail, file := MailNode(r.data, where, n.depth), FileNode(where, name, m.kind, r.data, 0);
      && (!r.failed && name == "" && (m.kind == "text/plain" || m.kind == "text/html") ==> Children(env, n) == [])
      && (!r.failed && !(name == "" && (m.kind == "text/plain" || m.kind == "text/html")) ==>
            Children(env, n) == if MailName(env, m.kind, name) then [mail] else [file])
      && (r.failed ==>
            Children(env, n) == (if MailName(env, m.kind, name) then [mail] else [])
                                + if env.inspectArchives && ArchiveFormat(env, name, m.kind, r.data) != NoFormat then [file] else [])
  {
    hide ArchiveFormat, DecodeTransfer, MediaOf, IsMultipart;
    MultipartIff(m);
    assert Children(env, n) == LeafChildren(env, n, m);
    SuffixIff(env.lower(env.filename(n.part.disposition, n.part.contentType)), ".eml");
  }

  /** Attached mail has its message one level deeper. */
  lemma MailContents(env: Env, n: Node)
    requires n.MailNode? && n.depth < 16
    ensures Forbidden(env, n) == None && Sizes(env, n) == []
    ensures env.mail(n.data).Some? && env.mail(n.data).value.body.Some? ==>
      var m := env.mail(n.data).value;
      Children(env, n) == [MimeNode(Part(m.contentType, m.encoding, m.disposition, m.body.value, false), n.location, n.depth + 1)]
      && !Broken(env, n)
    ensures env.mail(n.data).None? || env.mail(n.data).value.body.None? ==> Children(env, n) == [] && Broken(env, n)
  {
  }
}
