/**
 The scanner as the object it is: methods that loop over parts and entries and count into a
 shared state, each proved to compute the corresponding function of module Scanner.
 */
module ScannerObject {
  import opened Attachments
  import opened Options
  import opened PartialZip
  import S = Scanner
  import opened Wire

  class ScanState {
    var archiveFiles: nat
    var archiveBytes: nat

    constructor ()
      ensures Spent() == Budget(0, 0)
    {
      archiveFiles, archiveBytes := 0, 0;
    }

    function Spent(): Budget
      reads this
    {
      Budget(archiveFiles, archiveBytes)
    }
  }

  class Scanner {
    const env: Env

    constructor (env: Env)
      ensures this.env == env
    {
      this.env := env;
    }

    // -------------------------------------------------------------- counting and reading

    method CountArchiveFile(size: uint64, state: ScanState) returns (ok: bool)
      modifies state
      ensures ok == Count(env, old(state.Spent()), size).Some?
      ensures state.Spent() == if ok then Count(env, old(state.Spent()), size).value else old(state.Spent())
    {
      if state.archiveFiles >= env.maxFiles {
        return false;
      }
      if size > ToUint64(env.maxAttachment) {
        return false;
      }
      var remaining := env.maxBytes - state.archiveBytes;
      if remaining < 0 || size > ToUint64(remaining) {
        return false;
      }
      state.archiveFiles := state.archiveFiles + 1;
      state.archiveBytes := state.archiveBytes + ToInt64(size);
      return true;
    }

    method ReadArchiveEntry(content: Stream, state: ScanState) returns (data: Option<bytes>)
      modifies state
      ensures var r := ReadLimited(content, env.maxAttachment);
        var c := if r.failed then None else Count(env, old(state.Spent()), |r.data|);
        && data == (if c.Some? then Some(r.data) else None)
        && state.Spent() == if c.Some? then c.value else old(state.Spent())
    {
      var r := ReadLimited(content, env.maxAttachment);
      if r.failed {
        return None;
      }
      var ok := CountArchiveFile(|r.data|, state);
      return if ok then Some(r.data) else None;
    }

    method BlockedExtensionOf(filename: string) returns (extension: Option<string>)
      ensures extension == BlockedExtension(env, filename)
    {
      var extensions := Extensions(env, filename);
      for i := 0 to |extensions|
        invariant FirstBlocked(env, extensions) == FirstBlocked(env, extensions[i..])
      {
        if extensions[i] in env.blocked {
          return Some(extensions[i]);
        }
      }
      return None;
    }

    // -------------------------------------------------------------- files and archives

    method ScanFile(location: string, name: string, media: string, data: bytes, depth: nat, state: ScanState)
      returns (v: S.Verdict)
      modifies state
      ensures S.Outcome(v, state.Spent()) == S.ScanFile(env, location, name, media, data, depth, old(state.Spent()))
      decreases S.Levels(env, depth), 2, 0
    {
      hide S.ScanZip, S.ScanTar, S.ScanInner, ReadLimited, Extensions, ExecutableSignature, ArchiveFormat, StripExtension, FirstBlocked;
      var extension := BlockedExtensionOf(name);
      if extension.Some? {
        return S.Found(env.cleanLocation(location), "blocked extension ." + extension.value);
      }
      if env.inspectSignatures {
        var signature := ExecutableSignature(env, data);
        if signature.Some? {
          return S.Found(env.cleanLocation(location), signature.value);
        }
      }
      if !env.inspectArchives {
        return S.Clean;
      }
      var format := ArchiveFormat(env, name, media, data);
      if format == NoFormat {
        return S.Clean;
      }
      if depth >= env.maxDepth {
        return S.Failed(env.cleanLocation(location), false);
      }
      match format {
        case NoFormat =>
        case ZipFormat => v := ScanZIP(location, data, depth + 1, state);
        case TarFormat => v := ScanTAR(location, data, depth + 1, state);
        case GzipFormat =>
          var archive := env.gzip(data);
          if archive.None? {
            return S.Failed(env.cleanLocation(location), false);
          }
          v := ScanCompressed(location, S.GzipName(env, archive.value, name), archive.value.content, depth + 1, state);
        case Bzip2Format =>
          v := ScanCompressed(location, StripExtension(env, name, [".bz2", ".bzip2"]), env.bzip2(data), depth + 1, state);
      }
    }

    /** The common end of the two compressed formats. */
    method ScanCompressed(location: string, name: string, content: Stream, depth: nat, state: ScanState) returns (v: S.Verdict)
      modifies state
      ensures S.Outcome(v, state.Spent()) == S.ScanInner(env, location, name, content, depth, old(state.Spent()))
      decreases S.Levels(env, depth), 3, 0
    {
      hide S.ScanFile;
      var decompressed := ReadArchiveEntry(content, state);
      if decompressed.None? {
        return S.Failed(env.cleanLocation(location), false);
      }
      v := ScanFile(env.join(location, name), name, OCTET_STREAM, decompressed.value, depth, state);
    }

    method ScanZIP(location: string, data: bytes, depth: nat, state: ScanState) returns (v: S.Verdict)
      modifies state
      ensures S.Outcome(v, state.Spent()) == S.ScanZip(env, location, data, depth, old(state.Spent()))
      decreases S.Levels(env, depth), 4, 0
    {
      hide S.ScanZipFile, S.ScanPartial;
      var directory := env.zip(data);
      if directory.None? {
        v := ScanPartialZIP(location, data, depth, state);
        return if v.Clean? then S.Failed(env.cleanLocation(location), false) else v;
      }
      var files := directory.value;
      for i := 0 to |files|
        invariant S.ScanZipFiles(env, location, files, depth, old(state.Spent()))
               == S.ScanZipFiles(env, location, files[i..], depth, state.Spent())
      {
        if files[i].isDir {
          continue;
        }
        v := ScanZIPFile(env.join(location, files[i].name), files[i], depth, state);
        if !v.Clean? {
          return;
        }
      }
      return S.Clean;
    }

    /** One turn of the loop over the files of an archive. */
    method ScanZIPFile(location: string, f: ZipFile, depth: nat, state: ScanState) returns (v: S.Verdict)
      modifies state
      ensures S.Outcome(v, state.Spent()) == S.ScanZipFile(env, location, f, depth, old(state.Spent()))
      decreases S.Levels(env, depth), 3, 0
    {
      hide S.ScanFile, ReadLimited, Extensions, FirstBlocked, ExecutableSignature;
      if f.encrypted {
        return S.Failed(location, true);
      }
      var extension := BlockedExtensionOf(f.name);
      if extension.Some? {
        return S.Found(location, "blocked extension ." + extension.value);
      }
      var withinLimits := CountArchiveFile(f.declared, state);
      if f.content.None? {
        return S.Failed(location, false);
      }
      var r := ReadLimited(f.content.value, env.maxAttachment);
      if env.inspectSignatures {
        var signature := ExecutableSignature(env, r.data);
        if signature.Some? {
          return S.Found(location, signature.value);
        }
      }
      if !withinLimits {
        return S.Failed(location, false);
      }
      if r.failed {
        return S.Failed(location, false);
      }
      v := ScanFile(location, f.name, OCTET_STREAM, r.data, depth, state);
    }

    method ScanPartialZIP(location: string, data: bytes, depth: nat, state: ScanState) returns (v: S.Verdict)
      modifies state
      ensures S.Outcome(v, state.Spent()) == S.ScanPartial(env, location, data, depth, old(state.Spent()))
      decreases S.Levels(env, depth), 3, |data| + 1
    {
      hide S.ScanPartialEntry, Le16, Le32;
      if !HeaderAt(data, 0) {
        return S.Clean;
      }
      var offset := 0;
      while HeaderAt(data, offset)
        invariant offset <= |data|
        invariant S.ScanPartialFrom(env, location, data, 0, depth, old(state.Spent()))
               == S.ScanPartialFrom(env, location, data, offset, depth, state.Spent())
        decreases |data| - offset
      {
        if !EntryFits(data, offset) {
          return S.Failed(env.cleanLocation(location), false);
        }
        var e := EntryAt(data, offset);
        v := ScanPartialZIPEntry(env.join(location, env.text(e.name)), e, depth, state);
        if !v.Clean? {
          return;
        }
        offset := e.next;
      }
      return S.Failed(env.cleanLocation(location), false);
    }

    /** One turn of the loop over local headers; clean when the loop goes on. */
    method ScanPartialZIPEntry(location: string, e: Entry, depth: nat, state: ScanState) returns (v: S.Verdict)
      modifies state
      ensures S.Outcome(v, state.Spent()) == S.ScanPartialEntry(env, location, e, depth, old(state.Spent()))
      decreases S.Levels(env, depth), 2, 1
    {
      hide S.ScanFile, ReadLimited, Extensions, FirstBlocked, ExecutableSignature, ArchiveFormat;
      if e.encrypted {
        return S.Failed(location, true);
      }
      var name := env.text(e.name);
      var extension := BlockedExtensionOf(name);
      if extension.Some? {
        return S.Found(location, "blocked extension ." + extension.value);
      }
      var withinLimits := CountArchiveFile(e.uncompressedSize, state);
      var stream: Stream;
      if e.compression == STORED {
        stream := Stream(e.content, false);
      } else if e.compression == DEFLATED {
        stream := env.inflate(e.content);
      } else {
        return S.Failed(location, false);
      }
      var r := ReadLimited(stream, env.maxAttachment);
      if env.inspectSignatures {
        var signature := ExecutableSignature(env, r.data);
        if signature.Some? {
          return S.Found(location, signature.value);
        }
      }
      if env.inspectArchives && ArchiveFormat(env, name, OCTET_STREAM, r.data) != NoFormat {
        v := ScanFile(location, name, OCTET_STREAM, r.data, depth, state);
        if v.Found? {
          return;
        }
      }
      if !withinLimits {
        return S.Failed(location, false);
      }
      return if r.failed || e.incomplete then S.Failed(location, false) else S.Clean;
    }

    method ScanTAR(location: string, data: bytes, depth: nat, state: ScanState) returns (v: S.Verdict)
      modifies state
      ensures S.Outcome(v, state.Spent())
           == S.ScanTar(env, location, env.tar(data).files, env.tar(data).broken, depth, old(state.Spent()))
      decreases S.Levels(env, depth), 4, 0
    {
      hide S.ScanTarFile;
      var archive := env.tar(data);
      for i := 0 to |archive.files|
        invariant S.ScanTar(env, location, archive.files, archive.broken, depth, old(state.Spent()))
               == S.ScanTar(env, location, archive.files[i..], archive.broken, depth, state.Spent())
      {
        if !archive.files[i].regular {
          continue;
        }
        v := ScanTARFile(env.join(location, archive.files[i].name), archive.files[i], depth, state);
        if !v.Clean? {
          return;
        }
      }
      return if archive.broken then S.Failed(env.cleanLocation(location), false) else S.Clean;
    }

    method ScanTARFile(location: string, f: TarFile, depth: nat, state: ScanState) returns (v: S.Verdict)
      modifies state
      ensures S.Outcome(v, state.Spent()) == S.ScanTarFile(env, location, f, depth, old(state.Spent()))
      decreases S.Levels(env, depth), 3, 0
    {
      hide S.ScanFile, ReadLimited, Extensions, FirstBlocked;
      if f.size < 0 {
        return S.Failed(location, false);
      }
      var withinLimits := CountArchiveFile(f.size, state);
      if !withinLimits {
        return S.Failed(location, false);
      }
      var extension := BlockedExtensionOf(f.name);
      if extension.Some? {
        return S.Found(location, "blocked extension ." + extension.value);
      }
      var r := ReadLimited(f.content, env.maxAttachment);
      if r.failed {
        return S.Failed(location, false);
      }
      v := ScanFile(location, f.name, OCTET_STREAM, r.data, depth, state);
    }

    // -------------------------------------------------------------- parts and mail

    method ScanMIME(p: Part, location: string, depth: nat, state: ScanState) returns (v: S.Verdict)
      modifies state
      ensures S.Outcome(v, state.Spent()) == S.ScanMime(env, p, location, depth, old(state.Spent()))
      decreases if depth <= MAX_MIME_DEPTH then 1 + MAX_MIME_DEPTH - depth else 0, 3, 0
    {
      hide S.ScanLeaf, S.MediaOf, S.PartLocation;
      if depth > MAX_MIME_DEPTH {
        return S.Failed(location, false);
      }
      var media := S.MediaOf(env, p.contentType);
      if media.None? {
        return S.Failed(location, false);
      }
      if !S.IsMultipart(media.value) {
        v := ScanLeaf(p, media.value.kind, location, depth, state);
        return;
      }
      if media.value.boundary == "" {
        return S.Failed(location, false);
      }
      var parts := env.parts(media.value.boundary, p.data);
      for i := 0 to |parts.parts|
        invariant S.ScanParts(env, parts.parts, 1, parts.broken, location, depth, old(state.Spent()))
               == S.ScanParts(env, parts.parts[i..], 1 + i, parts.broken, location, depth, state.Spent())
      {
        var part := parts.parts[i];
        var where := S.PartLocation(env, location, 1 + i, part);
        v := ScanMIME(part, where, depth + 1, state);
        if !v.Clean? {
          return;
        }
        if part.readFailed {
          return S.Failed(where, false);
        }
      }
      return if parts.broken then S.Failed(location, false) else S.Clean;
    }

    /** A part that is not a container: the second half of the scan of a part. */
    method ScanLeaf(p: Part, kind: string, location: string, depth: nat, state: ScanState) returns (v: S.Verdict)
      requires depth <= MAX_MIME_DEPTH
      modifies state
      ensures S.Outcome(v, state.Spent()) == S.ScanLeaf(env, p, kind, location, depth, old(state.Spent()))
      decreases 1 + MAX_MIME_DEPTH - depth, 2, 0
    {
      hide S.ScanFile, S.ScanMail, Extensions, FirstBlocked, ExecutableSignature, ArchiveFormat, DecodeTransfer, S.IsMail;
      var name := env.filename(p.disposition, p.contentType);
      var where := location;
      if name != "" {
        where := env.replaceBase(location, name);
        var extension := BlockedExtensionOf(name);
        if extension.Some? {
          return S.Found(env.cleanLocation(where), "blocked extension ." + extension.value);
        }
      }
      var r := DecodeTransfer(env, p.encoding, p.data);
      if r.failed {
        if env.inspectSignatures {
          var signature := ExecutableSignature(env, r.data);
          if signature.Some? {
            return S.Found(env.cleanLocation(where), signature.value);
          }
        }
        if S.IsMail(env, kind, name) {
          v := ScanRFC822(r.data, where, depth, state);
          if !v.Clean? {
            return;
          }
        }
        if env.inspectArchives && ArchiveFormat(env, name, kind, r.data) != NoFormat {
          v := ScanFile(where, name, kind, r.data, 0, state);
          if v.Found? {
            return;
          }
        }
        return S.Failed(where, false);
      }
      if name == "" && (kind == "text/plain" || kind == "text/html") {
        return S.Clean;
      }
      if S.IsMail(env, kind, name) {
        v := ScanRFC822(r.data, where, depth, state);
        return;
      }
      v := ScanFile(where, name, kind, r.data, 0, state);
    }

    method ScanRFC822(data: bytes, location: string, depth: nat, state: ScanState) returns (v: S.Verdict)
      requires depth <= MAX_MIME_DEPTH
      modifies state
      ensures S.Outcome(v, state.Spent()) == S.ScanMail(env, data, location, depth, old(state.Spent()))
      decreases 1 + MAX_MIME_DEPTH - depth, 1, 0
    {
      hide S.ScanMime;
      if depth >= MAX_MIME_DEPTH {
        return S.Failed(location, false);
      }
      var attached := env.mail(data);
      if attached.None? || attached.value.body.None? {
        return S.Failed(location, false);
      }
      var m := attached.value;
      v := ScanMIME(Part(m.contentType, m.encoding, m.disposition, m.body.value, false), location, depth + 1, state);
    }

    method Scan(contentType: string, encoding: string, disposition: string, body: bytes) returns (v: S.Verdict)
      ensures v == S.Scan(env, contentType, encoding, disposition, body)
    {
      var state := new ScanState();
      v := ScanMIME(Part(contentType, encoding, disposition, body, false), "message", 0, state);
    }
  }
}
