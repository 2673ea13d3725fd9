/**
 Single files, streams and budgets of the attachment scanner.

 The decoders (MIME, ZIP, TAR, GZIP, BZIP2, deflate, transfer encodings) and the text
 operations on names are functions in `Env`: any bytes may decode to anything, in
 particular an archive may contain itself.
 */
module Attachments {
  import opened Options
  import opened Wire

  const MAX_MIME_DEPTH: nat := 16
  const OCTET_STREAM := "application/octet-stream"

  const TWO_64: int := 0x1_0000_0000_0000_0000
  const TWO_63: int := 0x8000_0000_0000_0000

  type uint64 = x: int | 0 <= x < TWO_64
  type int64 = x: int | -TWO_63 <= x < TWO_63

  /** What reading a stream to its end yields: its bytes, and whether it ends with an error. */
  datatype Stream = Stream(data: bytes, failed: bool)

  datatype Part = Part(contentType: string, encoding: string, disposition: string, data: bytes, readFailed: bool)
  datatype Parts = Parts(parts: seq<Part>, broken: bool)
  datatype Media = Media(kind: string, boundary: string)
  datatype Mail = Mail(contentType: string, encoding: string, disposition: string, body: Option<bytes>)

  /** `declared` is the size the directory claims, which need not be the real one. */
  datatype ZipFile = ZipFile(name: string, isDir: bool, encrypted: bool, declared: uint64, content: Option<Stream>)
  datatype TarFile = TarFile(name: string, regular: bool, size: int64, content: Stream)
  datatype Tar = Tar(files: seq<TarFile>, broken: bool)
  datatype Gzip = Gzip(name: string, content: Stream)

  datatype Env = Env(
    blocked: set<string>, inspectSignatures: bool, inspectArchives: bool, maxAttachment: int64, maxDepth: int, maxFiles: int,
    maxBytes: int64,
    isBlank: string -> bool, parseMedia: string -> Option<Media>, filename: (string, string) -> string,
    parts: (string, bytes) -> Parts, transfer: (string, bytes) -> Option<Stream>, mail: bytes -> Option<Mail>,
    zip: bytes -> Option<seq<ZipFile>>, tar: bytes -> Tar, gzip: bytes -> Option<Gzip>, bzip2: bytes -> Stream,
    inflate: bytes -> Stream, script: bytes -> Option<string>,
    lower: string -> string, trim: string -> string, cleanName: string -> string, text: bytes -> string,
    cleanLocation: string -> string, join: (string, string) -> string, numbered: (string, nat) -> string,
    replaceBase: (string, string) -> string)

  // ---------------------------------------------------------------- reading

  datatype Read = Read(data: bytes, failed: bool)

  /** Reads a stream up to a limit; a longer stream is an error, but its first bytes are still returned. */
  function ReadLimited(s: Stream, limit: int64): (r: Read)
    ensures r.data <= s.data && (r.data != [] ==> |r.data| <= limit)
  {
    if limit < 1 then Read([], true)
    else if |s.data| > limit then Read(s.data[..limit], true)
    else Read(s.data, s.failed)
  }

  function DecodeTransfer(env: Env, encoding: string, data: bytes): Read
  {
    match env.transfer(encoding, data)
    case None => Read([], true)
    case Some(s) => ReadLimited(s, env.maxAttachment)
  }

  // ---------------------------------------------------------------- the budget

  datatype Budget = Budget(files: nat, bytes: nat)

  function ToUint64(x: int64): uint64 { if x < 0 then x + TWO_64 else x }
  function ToInt64(x: uint64): int64 { if x >= TWO_63 then x - TWO_64 else x }

  /** Counts one archive entry of a claimed size; None when a limit is exceeded. The arithmetic is the
      64-bit arithmetic of the scanner; it never wraps around, whatever size an archive claims. */
  function Count(env: Env, b: Budget, size: uint64): (c: Option<Budget>)
    ensures c.Some? <==> && b.files < env.maxFiles && b.bytes + size <= env.maxBytes
                         && (size <= env.maxAttachment || (env.maxAttachment < 0 && size <= env.maxAttachment + 0x1_0000_0000_0000_0000))
    ensures c.Some? ==> c.value.files == b.files + 1 && c.value.bytes == b.bytes + size
  {
    if b.files >= env.maxFiles then None
    else if size > ToUint64(env.maxAttachment) then None
    else
      var remaining := env.maxBytes - b.bytes;
      if remaining < 0 || size > ToUint64(remaining) then None
      else Some(Budget(b.files + 1, b.bytes + ToInt64(size)))
  }

  // ---------------------------------------------------------------- one file

  function TrimRight(s: string): string
  {
    if s != [] && (s[|s| - 1] == '.' || s[|s| - 1] == ' ') then TrimRight(s[..|s| - 1]) else s
  }

  function Split(s: string, separator: char): (r: seq<string>)
    ensures r != []
  {
    if s == [] then [""]
    else
      var more := Split(s[..|s| - 1], separator);
      var last := s[|s| - 1];
      if last == separator then more + [""] else more[..|more| - 1] + [more[|more| - 1] + [last]]
  }

  /** All dot-separated extensions of a name, trailing dots and spaces ignored. */
  function Extensions(env: Env, name: string): seq<string>
  {
    Split(TrimRight(env.lower(env.cleanName(name))), '.')[1..]
  }

  function FirstBlocked(env: Env, extensions: seq<string>): Option<string>
  {
    if extensions == [] then None
    else if extensions[0] in env.blocked then Some(extensions[0])
    else FirstBlocked(env, extensions[1..])
  }

  function BlockedExtension(env: Env, name: string): Option<string> { FirstBlocked(env, Extensions(env, name)) }

  /** A name is blocked exactly when any of its extensions is, not only the last. */
  lemma {:induction false} BlockedIffAny(env: Env, extensions: seq<string>)
    ensures FirstBlocked(env, extensions).Some? <==> exists i :: 0 <= i < |extensions| && extensions[i] in env.blocked
    ensures FirstBlocked(env, extensions).Some? ==>
      FirstBlocked(env, extensions).value in extensions && FirstBlocked(env, extensions).value in env.blocked
  {
    if extensions != [] {
      BlockedIffAny(env, extensions[1..]);
      if i :| 0 <= i < |extensions| && extensions[i] in env.blocked {
        if i > 0 {
          assert extensions[1..][i - 1] in env.blocked;
        }
      }
    }
  }

  predicate HasPrefix(data: bytes, prefix: bytes) { |data| >= |prefix| && data[..|prefix|] == prefix }
  predicate HasSuffix(s: string, suffix: string) { |s| >= |suffix| && s[|s| - |suffix|..] == suffix }

  datatype Format = NoFormat | ZipFormat | TarFormat | GzipFormat | Bzip2Format

  function ArchiveFormat(env: Env, name: string, media: string, data: bytes): Format
  {
    var n := env.lower(name);
    if HasPrefix(data, [80, 75, 3, 4]) || HasPrefix(data, [80, 75, 5, 6]) || HasPrefix(data, [80, 75, 7, 8]) then ZipFormat
    else if HasPrefix(data, [0x1f, 0x8b]) then GzipFormat
    else if HasPrefix(data, [66, 90, 104]) then Bzip2Format
    else if |data| >= 265 && data[257..262] == [117, 115, 116, 97, 114] then TarFormat
    else if HasSuffix(n, ".zip") || media == "application/zip" then ZipFormat
    else if HasSuffix(n, ".tar") || media == "application/x-tar" then TarFormat
    else if HasSuffix(n, ".gz") || HasSuffix(n, ".gzip") || media == "application/gzip" || media == "application/x-gzip"
    then GzipFormat
    else if HasSuffix(n, ".bz2") || HasSuffix(n, ".bzip2") || media == "application/x-bzip2" then Bzip2Format
    else NoFormat
  }

  function ExecutableSignature(env: Env, data: bytes): Option<string>
  {
    if HasPrefix(data, [77, 90]) then Some("DOS/Windows executable signature")
    else if HasPrefix(data, [0x7f, 69, 76, 70]) then Some("ELF executable signature")
    else if |data| >= 4 && data[..4] in {[0xfe, 0xed, 0xfa, 0xce], [0xce, 0xfa, 0xed, 0xfe],
                                         [0xfe, 0xed, 0xfa, 0xcf], [0xcf, 0xfa, 0xed, 0xfe]}
    then Some("Mach-O executable signature")
    else if |data| >= 4 && data[..4] in {[0xca, 0xfe, 0xba, 0xbe], [0xbe, 0xba, 0xfe, 0xca],
                                         [0xca, 0xfe, 0xba, 0xbf], [0xbf, 0xba, 0xfe, 0xca]}
    then Some("Mach-O universal executable signature")
    else
      match env.script(data)
      case Some(interpreter) => Some("executable script signature (" + interpreter + ")")
      case None => None
  }

  /** Why a file is forbidden, if it is: its name first, then what it starts with. */
  function Detection(env: Env, name: string, data: bytes): Option<string>
  {
    match BlockedExtension(env, name)
    case Some(e) => Some("blocked extension ." + e)
    case None => if env.inspectSignatures then ExecutableSignature(env, data) else None
  }

  /** The name of what a compressed file contains, when the file does not say. */
  function StripExtension(env: Env, name: string, extensions: seq<string>): string
    decreases |extensions|
  {
    if extensions == [] then "unnamed"
    else
      var n, e := env.cleanName(name), extensions[0];
      if HasSuffix(env.lower(n), e) && |e| <= |n| && env.trim(n[..|n| - |e|]) != ""
      then env.cleanName(env.trim(n[..|n| - |e|]))
      else StripExtension(env, name, extensions[1..])
  }
}
