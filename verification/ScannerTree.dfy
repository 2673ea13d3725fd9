/**
 What the scanner is supposed to inspect, said without an order of inspection: the tree of
 everything reachable from a message through parts, attached mail and archives, to the depth
 that the options allow. Any decoder may yield anything, so the tree is defined by unfolding.
 */
module ScannerTree {
  import opened Attachments
  import opened Options
  import opened PartialZip
  import opened Scanner
  import opened Wire

  datatype Node =
    | MimeNode(part: Part, location: string, depth: nat)
    | MailNode(data: bytes, location: string, depth: nat)
    | FileNode(location: string, name: string, media: string, data: bytes, depth: nat)

  /** How much deeper a node can go: files by archive levels, parts and mail by MIME levels. */
  function Rank(env: Env, n: Node): nat
  {
    match n
    case FileNode(_, _, _, _, depth) => Levels(env, depth)
    case MailNode(_, _, depth) => Levels(env, 0) + 1 + if depth <= MAX_MIME_DEPTH then 2 * (MAX_MIME_DEPTH + 1 - depth) else 0
    case MimeNode(_, _, depth) => Levels(env, 0) + 1 + if depth <= MAX_MIME_DEPTH then 2 * (MAX_MIME_DEPTH + 1 - depth) + 1 else 0
  }

  // ---------------------------------------------------------------- the entries of archives

  function ZipNodes(env: Env, location: string, files: seq<ZipFile>, depth: nat): (r: seq<Node>)
    ensures forall i :: 0 <= i < |r| ==> r[i].FileNode? && r[i].depth == depth
  {
    if files == [] then []
    else if files[0].isDir then ZipNodes(env, location, files[1..], depth)
    else [ZipNode(env, location, files[0], depth)] + ZipNodes(env, location, files[1..], depth)
  }

  function ZipNode(env: Env, location: string, f: ZipFile, depth: nat): Node
  {
    FileNode(env.join(location, f.name), f.name, OCTET_STREAM, ZipData(env, f).data, depth)
  }

  function ZipSizes(files: seq<ZipFile>): seq<nat>
  {
    if files == [] then []
    else if files[0].isDir then ZipSizes(files[1..]) else [files[0].declared] + ZipSizes(files[1..])
  }

  predicate ZipFileOk(env: Env, f: ZipFile)
  {
    f.isDir || (!f.encrypted && f.content.Some? && !ZipData(env, f).failed && f.declared <= ToUint64(env.maxAttachment))
  }

  function TarNodes(env: Env, location: string, files: seq<TarFile>, depth: nat): (r: seq<Node>)
    ensures forall i :: 0 <= i < |r| ==> r[i].FileNode? && r[i].depth == depth
  {
    if files == [] then []
    else if !files[0].regular then TarNodes(env, location, files[1..], depth)
    else [TarNode(env, location, files[0], depth)] + TarNodes(env, location, files[1..], depth)
  }

  function TarNode(env: Env, location: string, f: TarFile, depth: nat): Node
  {
    FileNode(env.join(location, f.name), f.name, OCTET_STREAM, ReadLimited(f.content, env.maxAttachment).data, depth)
  }

  function TarSizes(files: seq<TarFile>): seq<nat>
  {
    if files == [] then []
    else if !files[0].regular then TarSizes(files[1..])
    else [if files[0].size < 0 then 0 else files[0].size] + TarSizes(files[1..])
  }

  predicate TarFileOk(env: Env, f: TarFile)
  {
    !f.regular
    || (f.size >= 0 && !ReadLimited(f.content, env.maxAttachment).failed && f.size <= ToUint64(env.maxAttachment))
  }

  /** The entries of a damaged ZIP file, as far as one header leads to the next. */
  function PartialEntries(data: bytes, offset: nat): seq<Entry>
    requires offset <= |data|
    decreases |data| - offset
  {
    if !HeaderAt(data, offset) || !EntryFits(data, offset) then []
    else
      var e := EntryAt(data, offset);
      [e] + if e.incomplete then [] else PartialEntries(data, e.next)
  }

  function PartialNode(env: Env, location: string, e: Entry, depth: nat): Node
  {
    FileNode(env.join(location, env.text(e.name)), env.text(e.name), OCTET_STREAM, PartialData(env, e).data, depth)
  }

  function PartialNodes(env: Env, location: string, entries: seq<Entry>, depth: nat): seq<Node>
  {
    seq(|entries|, i requires 0 <= i < |entries| => PartialNode(env, location, entries[i], depth))
  }

  function InnerNode(env: Env, location: string, name: string, content: Stream, depth: nat): Node
  {
    FileNode(env.join(location, name), name, OCTET_STREAM, ReadLimited(content, env.maxAttachment).data, depth)
  }

  /** The archive behind a file, if the options have it opened. */
  function FormatOf(env: Env, n: Node): Format
    requires n.FileNode?
  {
    if env.inspectArchives then ArchiveFormat(env, n.name, n.media, n.data) else NoFormat
  }

  function Inner(env: Env, n: Node): (string, Stream)
    requires n.FileNode? && (FormatOf(env, n) == Bzip2Format || (FormatOf(env, n) == GzipFormat && env.gzip(n.data).Some?))
  {
    if FormatOf(env, n) == GzipFormat then (GzipName(env, env.gzip(n.data).value, n.name), env.gzip(n.data).value.content)
    else (StripExtension(env, n.name, [".bz2", ".bzip2"]), env.bzip2(n.data))
  }

  function FileChildren(env: Env, n: Node): (r: seq<Node>)
    requires n.FileNode?
    ensures forall i :: 0 <= i < |r| ==> r[i].FileNode? && r[i].depth == n.depth + 1 && n.depth < env.maxDepth
  {
    if n.depth >= env.maxDepth then []
    else
      match FormatOf(env, n)
      case NoFormat => []
      case ZipFormat =>
        (match env.zip(n.data)
         case Some(files) => ZipNodes(env, n.location, files, n.depth + 1)
         case None => PartialNodes(env, n.location, PartialEntries(n.data, 0), n.depth + 1))
      case TarFormat => TarNodes(env, n.location, env.tar(n.data).files, n.depth + 1)
      case GzipFormat =>
        if env.gzip(n.data).None? then []
        else [InnerNode(env, n.location, Inner(env, n).0, Inner(env, n).1, n.depth + 1)]
      case Bzip2Format => [InnerNode(env, n.location, Inner(env, n).0, Inner(env, n).1, n.depth + 1)]
  }

  /** What counting charges for opening a file: one size for each of its entries. */
  function Sizes(env: Env, n: Node): seq<nat>
  {
    if !n.FileNode? || n.depth >= env.maxDepth then []
    else
      match FormatOf(env, n)
      case NoFormat => []
      case ZipFormat => if env.zip(n.data).Some? then ZipSizes(env.zip(n.data).value) else []
      case TarFormat => TarSizes(env.tar(n.data).files)
      case GzipFormat => if env.gzip(n.data).None? then [] else [|ReadLimited(Inner(env, n).1, env.maxAttachment).data|]
      case Bzip2Format => [|ReadLimited(Inner(env, n).1, env.maxAttachment).data|]
  }

  /** The archive cannot be opened, or one of its entries cannot be inspected. */
  predicate FileBroken(env: Env, n: Node)
    requires n.FileNode?
  {
    FormatOf(env, n) != NoFormat &&
    (n.depth >= env.maxDepth ||
     match FormatOf(env, n)
     case NoFormat => false
     case ZipFormat => env.zip(n.data).None? || exists i :: 0 <= i < |env.zip(n.data).value| && !ZipFileOk(env, env.zip(n.data).value[i])
     case TarFormat => env.tar(n.data).broken || exists i :: 0 <= i < |env.tar(n.data).files| && !TarFileOk(env, env.tar(n.data).files[i])
     case GzipFormat => env.gzip(n.data).None? || ReadLimited(Inner(env, n).1, env.maxAttachment).failed
     case Bzip2Format => ReadLimited(Inner(env, n).1, env.maxAttachment).failed)
  }

  // ---------------------------------------------------------------- parts and mail

  function PartNodes(env: Env, location: string, parts: seq<Part>, index: nat, depth: nat): seq<Node>
  {
    seq(|parts|, i requires 0 <= i < |parts| => MimeNode(parts[i], PartLocation(env, location, index + i, parts[i]), depth))
  }

  function LeafName(env: Env, p: Part): string { env.filename(p.disposition, p.contentType) }

  function LeafChildren(env: Env, n: Node, m: Media): seq<Node>
    requires n.MimeNode?
  {
    var name := LeafName(env, n.part);
    var where := LeafLocation(env, n.location, name);
    var r := DecodeTransfer(env, n.part.encoding, n.part.data);
    var mail, file := MailNode(r.data, where, n.depth), FileNode(where, name, m.kind, r.data, 0);
    if r.failed then
      (if IsMail(env, m.kind, name) then [mail] else [])
      + if env.inspectArchives && ArchiveFormat(env, name, m.kind, r.data) != NoFormat then [file] else []
    else if name == "" && (m.kind == "text/plain" || m.kind == "text/html") then []
    else if IsMail(env, m.kind, name) then [mail] else [file]
  }

  /** Everything directly inside a node. */
  function Children(env: Env, n: Node): (r: seq<Node>)
    ensures forall i :: 0 <= i < |r| ==> Rank(env, r[i]) < Rank(env, n)
  {
    match n
    case FileNode(_, _, _, _, _) => FileChildren(env, n)
    case MailNode(data, location, depth) =>
      if depth >= MAX_MIME_DEPTH || env.mail(data).None? || env.mail(data).value.body.None? then []
      else
        var m := env.mail(data).value;
        [MimeNode(Part(m.contentType, m.encoding, m.disposition, m.body.value, false), location, depth + 1)]
    case MimeNode(part, location, depth) =>
      if depth > MAX_MIME_DEPTH then []
      else
        match MediaOf(env, part.contentType)
        case None => []
        case Some(m) =>
          if !IsMultipart(m) then LeafChildren(env, n, m)
          else if m.boundary == "" then []
          else PartNodes(env, location, env.parts(m.boundary, part.data).parts, 1, depth + 1)
  }

  // ---------------------------------------------------------------- good and bad nodes

  /** A part that is neither a container nor an exempt text body. */
  predicate IsLeaf(env: Env, n: Node)
  {
    n.MimeNode? && n.depth <= MAX_MIME_DEPTH && MediaOf(env, n.part.contentType).Some?
    && !IsMultipart(MediaOf(env, n.part.contentType).value)
  }

  /** Why the node itself is forbidden: a file by its name or content; a part by its name, or when it is
      damaged by what could be decoded of it. */
  function Forbidden(env: Env, n: Node): Option<string>
  {
    match n
    case FileNode(_, name, _, data, _) => Detection(env, name, data)
    case MailNode(_, _, _) => None
    case MimeNode(part, _, _) =>
      if !IsLeaf(env, n) then None
      else
        var name, r := LeafName(env, part), DecodeTransfer(env, part.encoding, part.data);
        if name != "" && BlockedExtension(env, name).Some? then Some("blocked extension ." + BlockedExtension(env, name).value)
        else if r.failed && env.inspectSignatures then ExecutableSignature(env, r.data)
        else None
  }

  /** The node cannot be inspected completely. */
  predicate Broken(env: Env, n: Node)
  {
    match n
    case FileNode(_, _, _, _, _) => FileBroken(env, n)
    case MailNode(data, _, depth) => depth >= MAX_MIME_DEPTH || env.mail(data).None? || env.mail(data).value.body.None?
    case MimeNode(part, _, depth) =>
      depth > MAX_MIME_DEPTH ||
      match MediaOf(env, part.contentType)
      case None => true
      case Some(m) =>
        if IsMultipart(m) then
          m.boundary == "" || env.parts(m.boundary, part.data).broken
          || exists i :: 0 <= i < |env.parts(m.boundary, part.data).parts| && env.parts(m.boundary, part.data).parts[i].readFailed
        else DecodeTransfer(env, part.encoding, part.data).failed
  }

  predicate NodeOk(env: Env, n: Node) { Forbidden(env, n).None? && !Broken(env, n) }

  /** Nothing forbidden and nothing uninspectable, here or anywhere below. */
  ghost predicate AllGood(env: Env, n: Node)
    decreases Rank(env, n)
  {
    NodeOk(env, n) && forall i :: 0 <= i < |Children(env, n)| ==> AllGood(env, Children(env, n)[i])
  }

  function Sum(s: seq<nat>): nat { if s == [] then 0 else s[0] + Sum(s[1..]) }

  /** The number, and the summed sizes, of all archive entries below a node. */
  function FilesBelow(env: Env, n: Node): nat
    decreases Rank(env, n)
  {
    var cs := Children(env, n);
    |Sizes(env, n)| + Sum(seq(|cs|, i requires 0 <= i < |cs| => FilesBelow(env, cs[i])))
  }

  function BytesBelow(env: Env, n: Node): nat
    decreases Rank(env, n)
  {
    var cs := Children(env, n);
    Sum(Sizes(env, n)) + Sum(seq(|cs|, i requires 0 <= i < |cs| => BytesBelow(env, cs[i])))
  }

  // ---------------------------------------------------------------- paths

  /** The node at the end of a path of child positions. */
  function NodeAt(env: Env, n: Node, path: seq<nat>): Option<Node>
    decreases |path|
  {
    if path == [] then Some(n)
    else if path[0] < |Children(env, n)| then NodeAt(env, Children(env, n)[path[0]], path[1..])
    else None
  }

  /** However decoders nest, even archives in themselves: no path is longer than the depth limits allow. */
  lemma {:induction false} PathsAreBounded(env: Env, root: Node, path: seq<nat>)
    requires NodeAt(env, root, path).Some?
    ensures |path| <= Rank(env, root)
    decreases |path|
  {
    hide Rank;
    if path != [] {
      PathsAreBounded(env, Children(env, root)[path[0]], path[1..]);
    }
  }

  ghost predicate Reachable(env: Env, root: Node, n: Node)
  {
    exists path :: NodeAt(env, root, path) == Some(n)
  }

  lemma ReachableThrough(env: Env, root: Node, i: nat, n: Node)
    requires i < |Children(env, root)| && Reachable(env, Children(env, root)[i], n)
    ensures Reachable(env, root, n)
  {
    hide Children;
    var path :| NodeAt(env, Children(env, root)[i], path) == Some(n);
    assert ([i] + path)[1..] == path;
    assert NodeAt(env, root, [i] + path) == Some(n);
  }

  lemma ReachableSelf(env: Env, n: Node)
    ensures Reachable(env, n, n)
  {
    assert NodeAt(env, n, []) == Some(n);
  }

  lemma {:induction false} GoodAlongPath(env: Env, root: Node, path: seq<nat>)
    requires AllGood(env, root) && NodeAt(env, root, path).Some?
    ensures NodeOk(env, NodeAt(env, root, path).value)
    decreases |path|
  {
    hide Children, NodeOk;
    if path != [] {
      GoodAlongPath(env, Children(env, root)[path[0]], path[1..]);
    }
  }

  lemma {:induction false} GoodFromPaths(env: Env, root: Node)
    requires forall n :: Reachable(env, root, n) ==> NodeOk(env, n)
    ensures AllGood(env, root)
    decreases Rank(env, root)
  {
    hide NodeOk, NodeAt, Reachable;
    ReachableSelf(env, root);
    forall i | 0 <= i < |Children(env, root)| ensures AllGood(env, Children(env, root)[i]) {
      forall n | Reachable(env, Children(env, root)[i], n) ensures NodeOk(env, n) {
        ReachableThrough(env, root, i, n);
      }
      GoodFromPaths(env, Children(env, root)[i]);
    }
  }

  /** Everything below is good exactly when every reachable node is. */
  lemma GoodIffReachable(env: Env, root: Node)
    ensures AllGood(env, root) <==> forall n :: Reachable(env, root, n) ==> NodeOk(env, n)
  {
    hide NodeOk, NodeAt, AllGood;
    if AllGood(env, root) {
      forall n | Reachable(env, root, n) ensures NodeOk(env, n) {
        var path :| NodeAt(env, root, path) == Some(n);
        GoodAlongPath(env, root, path);
      }
    }
    if forall n :: Reachable(env, root, n) ==> NodeOk(env, n) {
      GoodFromPaths(env, root);
    }
  }
}
