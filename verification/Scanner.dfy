/**
 The attachment scanner: a recursive walk over MIME parts, attached mail and archives that
 stops at the first forbidden file or the first thing it cannot inspect, threading one budget.
 */
module Scanner {
  import opened Attachments
  import opened Options
  import opened PartialZip
  import opened Wire

  /** `Failed` means that inspection is incomplete; `encrypted` that encryption is why. */
  datatype Verdict = Clean | Found(path: string, detection: string) | Failed(path: string, encrypted: bool)

  datatype Outcome = Outcome(verdict: Verdict, budget: Budget)

  /** From one budget to another by counting entries, never beyond the limits. */
  predicate Within(env: Env, from: Budget, to: Budget)
  {
    to == from || (from.files < to.files <= env.maxFiles && from.bytes <= to.bytes <= env.maxBytes)
  }

  /** Room for the recursion over archives: levels that may still be opened. */
  function Levels(env: Env, depth: nat): nat { if depth < env.maxDepth then env.maxDepth - depth else 0 }

  // ---------------------------------------------------------------- files and archives

  function ScanFile(env: Env, location: string, name: string, media: string, data: bytes, depth: nat, b: Budget): (o: Outcome)
    ensures Within(env, b, o.budget)
    decreases Levels(env, depth), 2, 0
  {
    match Detection(env, name, data)
    case Some(d) => Outcome(Found(env.cleanLocation(location), d), b)
    case None =>
      var format := ArchiveFormat(env, name, media, data);
      if !env.inspectArchives || format == NoFormat then Outcome(Clean, b)
      else if depth >= env.maxDepth then Outcome(Failed(env.cleanLocation(location), false), b)
      else if format == ZipFormat then ScanZip(env, location, data, depth + 1, b)
      else if format == TarFormat then ScanTar(env, location, env.tar(data).files, env.tar(data).broken, depth + 1, b)
      else if format == GzipFormat then
        match env.gzip(data)
        case None => Outcome(Failed(env.cleanLocation(location), false), b)
        case Some(g) => ScanInner(env, location, GzipName(env, g, name), g.content, depth + 1, b)
      else ScanInner(env, location, StripExtension(env, name, [".bz2", ".bzip2"]), env.bzip2(data), depth + 1, b)
  }

  function GzipName(env: Env, g: Gzip, name: string): string
  {
    if env.trim(g.name) != "" then env.cleanName(env.trim(g.name)) else StripExtension(env, name, [".gz", ".gzip"])
  }

  /** The single file inside a compressed one. */
  function ScanInner(env: Env, location: string, name: string, content: Stream, depth: nat, b: Budget): (o: Outcome)
    ensures Within(env, b, o.budget)
    decreases Levels(env, depth), 3, 0
  {
    var r := ReadLimited(content, env.maxAttachment);
    if r.failed || Count(env, b, |r.data|).None? then Outcome(Failed(env.cleanLocation(location), false), b)
    else ScanFile(env, env.join(location, name), name, OCTET_STREAM, r.data, depth, Count(env, b, |r.data|).value)
  }

  function ScanZip(env: Env, location: string, data: bytes, depth: nat, b: Budget): (o: Outcome)
    ensures Within(env, b, o.budget)
    decreases Levels(env, depth), 4, 0
  {
    match env.zip(data)
    case Some(files) => ScanZipFiles(env, location, files, depth, b)
    case None =>
      var o := ScanPartial(env, location, data, depth, b);
      if o.verdict.Clean? then Outcome(Failed(env.cleanLocation(location), false), o.budget) else o
  }

  function ScanZipFiles(env: Env, location: string, files: seq<ZipFile>, depth: nat, b: Budget): (o: Outcome)
    ensures Within(env, b, o.budget)
    decreases Levels(env, depth), 3, |files|
  {
    if files == [] then Outcome(Clean, b)
    else if files[0].isDir then ScanZipFiles(env, location, files[1..], depth, b)
    else
      var o := ScanZipFile(env, env.join(location, files[0].name), files[0], depth, b);
      if o.verdict.Clean? then ScanZipFiles(env, location, files[1..], depth, o.budget) else o
  }

  function ZipData(env: Env, f: ZipFile): Read
  {
    match f.content case Some(s) => ReadLimited(s, env.maxAttachment) case None => Read([], true)
  }

  function ScanZipFile(env: Env, location: string, f: ZipFile, depth: nat, b: Budget): (o: Outcome)
    ensures Within(env, b, o.budget)
    decreases Levels(env, depth), 3, 0
  {
    if f.encrypted then Outcome(Failed(location, true), b)
    else
      match BlockedExtension(env, f.name)
      case Some(e) => Outcome(Found(location, "blocked extension ." + e), b)
      case None =>
        var counted := Count(env, b, f.declared);
        var b' := if counted.Some? then counted.value else b;
        var r := ZipData(env, f);
        if f.content.None? then Outcome(Failed(location, false), b')
        else if env.inspectSignatures && ExecutableSignature(env, r.data).Some? then
          Outcome(Found(location, ExecutableSignature(env, r.data).value), b')
        else if counted.None? || r.failed then Outcome(Failed(location, false), b')
        else ScanFile(env, location, f.name, OCTET_STREAM, r.data, depth, b')
  }

  function ScanTar(env: Env, location: string, files: seq<TarFile>, broken: bool, depth: nat, b: Budget): (o: Outcome)
    ensures Within(env, b, o.budget)
    decreases Levels(env, depth), 3, |files|
  {
    if files == [] then Outcome(if broken then Failed(env.cleanLocation(location), false) else Clean, b)
    else if !files[0].regular then ScanTar(env, location, files[1..], broken, depth, b)
    else
      var o := ScanTarFile(env, env.join(location, files[0].name), files[0], depth, b);
      if o.verdict.Clean? then ScanTar(env, location, files[1..], broken, depth, o.budget) else o
  }

  function ScanTarFile(env: Env, location: string, f: TarFile, depth: nat, b: Budget): (o: Outcome)
    ensures Within(env, b, o.budget)
    decreases Levels(env, depth), 3, 0
  {
    if f.size < 0 || Count(env, b, f.size).None? then Outcome(Failed(location, false), b)
    else
      var b' := Count(env, b, f.size).value;
      match BlockedExtension(env, f.name)
      case Some(e) => Outcome(Found(location, "blocked extension ." + e), b')
      case None =>
        var r := ReadLimited(f.content, env.maxAttachment);
        if r.failed then Outcome(Failed(location, false), b')
        else ScanFile(env, location, f.name, OCTET_STREAM, r.data, depth, b')
  }

  // ---------------------------------------------------------------- damaged ZIP files

  /** What can be said of a ZIP file without a readable directory: its entries are looked at one after the
      other, but it never counts as inspected. Without any local header there is nothing to look at. */
  function ScanPartial(env: Env, location: string, data: bytes, depth: nat, b: Budget): (o: Outcome)
    ensures o.verdict.Clean? <==> !HeaderAt(data, 0)
    ensures Within(env, b, o.budget)
    decreases Levels(env, depth), 3, |data| + 1
  {
    if !HeaderAt(data, 0) then Outcome(Clean, b) else ScanPartialFrom(env, location, data, 0, depth, b)
  }

  function ScanPartialFrom(env: Env, location: string, data: bytes, offset: nat, depth: nat, b: Budget): (o: Outcome)
    requires offset <= |data|
    ensures !o.verdict.Clean?
    ensures Within(env, b, o.budget)
    decreases Levels(env, depth), 3, |data| - offset
  {
    if !HeaderAt(data, offset) || !EntryFits(data, offset) then Outcome(Failed(env.cleanLocation(location), false), b)
    else
      var e := EntryAt(data, offset);
      var o := ScanPartialEntry(env, env.join(location, env.text(e.name)), e, depth, b);
      if !o.verdict.Clean? then o else ScanPartialFrom(env, location, data, e.next, depth, o.budget)
  }

  function PartialData(env: Env, e: Entry): Read
  {
    if e.compression == STORED then ReadLimited(Stream(e.content, false), env.maxAttachment)
    else if e.compression == DEFLATED then ReadLimited(env.inflate(e.content), env.maxAttachment)
    else Read([], true)
  }

  /** One entry of a damaged ZIP file. What nests in it is scanned for findings only. Clean means that the
      next entry can be looked at. */
  function ScanPartialEntry(env: Env, location: string, e: Entry, depth: nat, b: Budget): (o: Outcome)
    ensures o.verdict.Clean? ==> !e.incomplete
    ensures Within(env, b, o.budget)
    decreases Levels(env, depth), 2, 1
  {
    if e.encrypted then Outcome(Failed(location, true), b)
    else
      match BlockedExtension(env, env.text(e.name))
      case Some(x) => Outcome(Found(location, "blocked extension ." + x), b)
      case None =>
        var counted := Count(env, b, e.uncompressedSize);
        var b' := if counted.Some? then counted.value else b;
        if e.compression != STORED && e.compression != DEFLATED then Outcome(Failed(location, false), b')
        else
          var r := PartialData(env, e);
          if env.inspectSignatures && ExecutableSignature(env, r.data).Some? then
            Outcome(Found(location, ExecutableSignature(env, r.data).value), b')
          else
            var nested := if env.inspectArchives && ArchiveFormat(env, env.text(e.name), OCTET_STREAM, r.data) != NoFormat
                          then ScanFile(env, location, env.text(e.name), OCTET_STREAM, r.data, depth, b')
                          else Outcome(Clean, b');
            if nested.verdict.Found? then nested
            else if counted.None? || r.failed || e.incomplete then Outcome(Failed(location, false), nested.budget)
            else Outcome(Clean, nested.budget)
  }

  // ---------------------------------------------------------------- MIME and attached mail

  function MediaOf(env: Env, contentType: string): Option<Media>
  {
    if env.isBlank(contentType) then Some(Media("text/plain", ""))
    else match env.parseMedia(contentType)
         case Some(m) => if m.kind == "" then None else Some(m.(kind := env.lower(m.kind)))
         case None => None
  }

  predicate IsMultipart(m: Media) { |m.kind| >= 10 && m.kind[..10] == "multipart/" }

  predicate IsMail(env: Env, kind: string, name: string) { kind == "message/rfc822" || HasSuffix(env.lower(name), ".eml") }

  function PartLocation(env: Env, location: string, index: nat, p: Part): string
  {
    var name := env.filename(p.disposition, p.contentType);
    if name != "" then env.join(location, name) else env.numbered(location, index)
  }

  function ScanMime(env: Env, p: Part, location: string, depth: nat, b: Budget): (o: Outcome)
    ensures Within(env, b, o.budget)
    decreases if depth <= MAX_MIME_DEPTH then 1 + MAX_MIME_DEPTH - depth else 0, 3, 0
  {
    if depth > MAX_MIME_DEPTH then Outcome(Failed(location, false), b)
    else
      match MediaOf(env, p.contentType)
      case None => Outcome(Failed(location, false), b)
      case Some(m) =>
        if IsMultipart(m) then
          if m.boundary == "" then Outcome(Failed(location, false), b)
          else
            var ps := env.parts(m.boundary, p.data);
            ScanParts(env, ps.parts, 1, ps.broken, location, depth, b)
        else ScanLeaf(env, p, m.kind, location, depth, b)
  }

  function ScanParts(env: Env, parts: seq<Part>, index: nat, broken: bool, location: string, depth: nat, b: Budget): (o: Outcome)
    requires depth <= MAX_MIME_DEPTH
    ensures Within(env, b, o.budget)
    decreases 1 + MAX_MIME_DEPTH - depth, 2, |parts|
  {
    if parts == [] then Outcome(if broken then Failed(location, false) else Clean, b)
    else
      var where := PartLocation(env, location, index, parts[0]);
      var o := ScanMime(env, parts[0], where, depth + 1, b);
      if !o.verdict.Clean? then o
      else if parts[0].readFailed then Outcome(Failed(where, false), o.budget)
      else ScanParts(env, parts[1..], index + 1, broken, location, depth, o.budget)
  }

  function LeafLocation(env: Env, location: string, name: string): string
  {
    if name != "" then env.replaceBase(location, name) else location
  }

  function ScanLeaf(env: Env, p: Part, kind: string, location: string, depth: nat, b: Budget): (o: Outcome)
    requires depth <= MAX_MIME_DEPTH
    ensures Within(env, b, o.budget)
    decreases 1 + MAX_MIME_DEPTH - depth, 2, 0
  {
    var name := env.filename(p.disposition, p.contentType);
    var where := LeafLocation(env, location, name);
    if name != "" && BlockedExtension(env, name).Some? then
      Outcome(Found(env.cleanLocation(where), "blocked extension ." + BlockedExtension(env, name).value), b)
    else
      var r := DecodeTransfer(env, p.encoding, p.data);
      if r.failed then ScanDamaged(env, name, kind, r.data, where, depth, b)
      else if name == "" && (kind == "text/plain" || kind == "text/html") then Outcome(Clean, b)
      else if IsMail(env, kind, name) then ScanMail(env, r.data, where, depth, b)
      else ScanFile(env, where, name, kind, r.data, 0, b)
  }

  /** What could be decoded of a damaged part is looked at before giving up on it. */
  function ScanDamaged(env: Env, name: string, kind: string, data: bytes, location: string, depth: nat, b: Budget): (o: Outcome)
    requires depth <= MAX_MIME_DEPTH
    ensures Within(env, b, o.budget)
    decreases 1 + MAX_MIME_DEPTH - depth, 1, 1
  {
    if env.inspectSignatures && ExecutableSignature(env, data).Some? then
      Outcome(Found(env.cleanLocation(location), ExecutableSignature(env, data).value), b)
    else
      var o := if IsMail(env, kind, name) then ScanMail(env, data, location, depth, b) else Outcome(Clean, b);
      if !o.verdict.Clean? then o
      else
        var a := if env.inspectArchives && ArchiveFormat(env, name, kind, data) != NoFormat
                 then ScanFile(env, location, name, kind, data, 0, o.budget) else o;
        if a.verdict.Found? then a else Outcome(Failed(location, false), a.budget)
  }

  function ScanMail(env: Env, data: bytes, location: string, depth: nat, b: Budget): (o: Outcome)
    requires depth <= MAX_MIME_DEPTH
    ensures Within(env, b, o.budget)
    decreases 1 + MAX_MIME_DEPTH - depth, 1, 0
  {
    if depth >= MAX_MIME_DEPTH || env.mail(data).None? || env.mail(data).value.body.None? then Outcome(Failed(location, false), b)
    else
      var m := env.mail(data).value;
      ScanMime(env, Part(m.contentType, m.encoding, m.disposition, m.body.value, false), location, depth + 1, b)
  }

  /** The whole message, with an empty budget. */
  function Scan(env: Env, contentType: string, encoding: string, disposition: string, body: bytes): Verdict
  {
    ScanMime(env, Part(contentType, encoding, disposition, body, false), "message", 0, Budget(0, 0)).verdict
  }
}
