/**
 What the scanner recognises files by, byte by byte and character by character: executables,
 archives, extensions, and how much of a stream it looks at.
 */
module Recognition {
  import opened Attachments
  import opened Options
  import opened Scanner
  import opened ScannerTree
  import opened Wire

  // ---------------------------------------------------------------- contents

  /** The first bytes of programs: MZ, ELF, and the Mach-O magic numbers in both byte orders. */
  predicate StartsLikeProgram(data: bytes)
  {
    || (|data| >= 2 && data[0] == 77 && data[1] == 90)
    || (|data| >= 4 && data[0] == 127 && data[1] == 69 && data[2] == 76 && data[3] == 70)
    || (|data| >= 4 && data[0] == 0xfe && data[1] == 0xed && data[2] == 0xfa && (data[3] == 0xce || data[3] == 0xcf))
    || (|data| >= 4 && (data[0] == 0xce || data[0] == 0xcf) && data[1] == 0xfa && data[2] == 0xed && data[3] == 0xfe)
    || (|data| >= 4 && data[0] == 0xca && data[1] == 0xfe && data[2] == 0xba && (data[3] == 0xbe || data[3] == 0xbf))
    || (|data| >= 4 && (data[0] == 0xbe || data[0] == 0xbf) && data[1] == 0xba && data[2] == 0xfe && data[3] == 0xca)
  }

  /** Data is executable exactly when it starts like a program or is a script of a listed interpreter. */
  lemma ExecutableIff(env: Env, data: bytes)
    ensures ExecutableSignature(env, data).Some? <==> StartsLikeProgram(data) || env.script(data).Some?
    ensures |data| >= 2 && data[0] == 77 && data[1] == 90 ==>
      ExecutableSignature(env, data) == Some("DOS/Windows executable signature")
    ensures |data| >= 4 && data[0] == 127 && data[1] == 69 && data[2] == 76 && data[3] == 70 ==>
      ExecutableSignature(env, data) == Some("ELF executable signature")
    ensures StartsLikeProgram(data) && (data[0] == 0xfe || data[0] == 0xce || data[0] == 0xcf) ==>
      ExecutableSignature(env, data) == Some("Mach-O executable signature")
    ensures StartsLikeProgram(data) && (data[0] == 0xca || data[0] == 0xbe || data[0] == 0xbf) ==>
      ExecutableSignature(env, data) == Some("Mach-O universal executable signature")
    ensures !StartsLikeProgram(data) && env.script(data).Some? ==>
      ExecutableSignature(env, data) == Some("executable script signature (" + env.script(data).value + ")")
  {
    if |data| >= 2 {
      assert data[..2] == [data[0], data[1]];
    }
    if |data| >= 4 {
      assert data[..4] == [data[0], data[1], data[2], data[3]];
    }
  }

  /** Archives are known by their first bytes, a TAR file by those at 257, before their names and media types count. */
  predicate ZipBytes(data: bytes)
  {
    |data| >= 4 && data[0] == 80 && data[1] == 75
    && ((data[2] == 3 && data[3] == 4) || (data[2] == 5 && data[3] == 6) || (data[2] == 7 && data[3] == 8))
  }

  predicate GzipBytes(data: bytes) { |data| >= 2 && data[0] == 31 && data[1] == 139 }

  predicate Bzip2Bytes(data: bytes) { |data| >= 3 && data[0] == 66 && data[1] == 90 && data[2] == 104 }

  predicate TarBytes(data: bytes)
  {
    |data| >= 265 && data[257] == 117 && data[258] == 115 && data[259] == 116 && data[260] == 97 && data[261] == 114
  }

  predicate EndsWith(s: string, suffix: string) { exists i :: 0 <= i <= |s| && s[i..] == suffix }

  lemma ArchiveIff(env: Env, name: string, media: string, data: bytes)
    ensures var n := env.lower(name);
      var zipped, gzipped, bzipped, tarred := ZipBytes(data), GzipBytes(data), Bzip2Bytes(data), TarBytes(data);
      var known := zipped || gzipped || bzipped || tarred;
      var zipName, tarName := EndsWith(n, ".zip") || media == "application/zip", EndsWith(n, ".tar") || media == "application/x-tar";
      var gzipName := EndsWith(n, ".gz") || EndsWith(n, ".gzip") || media == "application/gzip" || media == "application/x-gzip";
      var bzip2Name := EndsWith(n, ".bz2") || EndsWith(n, ".bzip2") || media == "application/x-bzip2";
      var format := ArchiveFormat(env, name, media, data);
      && (format == ZipFormat <==> zipped || (!known && zipName))
      && (format == TarFormat <==> (tarred && !zipped && !gzipped && !bzipped) || (!known && tarName && !zipName))
      && (format == GzipFormat <==> gzipped || (!known && gzipName && !zipName && !tarName))
      && (format == Bzip2Format <==> bzipped || (!known && bzip2Name && !zipName && !tarName && !gzipName))
  {
    var n := env.lower(name);
    MagicBytes(data);
    hide HasPrefix, HasSuffix, EndsWith, ZipBytes, GzipBytes, Bzip2Bytes, TarBytes;
    SuffixIff(n, ".zip");
    SuffixIff(n, ".tar");
    SuffixIff(n, ".gz");
    SuffixIff(n, ".gzip");
    SuffixIff(n, ".bz2");
    SuffixIff(n, ".bzip2");
  }

  lemma MagicBytes(data: bytes)
    ensures ZipBytes(data) <==> HasPrefix(data, [80, 75, 3, 4]) || HasPrefix(data, [80, 75, 5, 6]) || HasPrefix(data, [80, 75, 7, 8])
    ensures GzipBytes(data) <==> HasPrefix(data, [0x1f, 0x8b])
    ensures Bzip2Bytes(data) <==> HasPrefix(data, [66, 90, 104])
    ensures TarBytes(data) <==> |data| >= 265 && data[257..262] == [117, 115, 116, 97, 114]
    ensures (ZipBytes(data) ==> !GzipBytes(data) && !Bzip2Bytes(data)) && (GzipBytes(data) ==> !Bzip2Bytes(data))
  {
    if |data| >= 2 {
      assert data[..2] == [data[0], data[1]];
    }
    if |data| >= 3 {
      assert data[..3] == [data[0], data[1], data[2]];
    }
    if |data| >= 4 {
      assert data[..4] == [data[0], data[1], data[2], data[3]];
    }
    if |data| >= 265 {
      assert data[257..262] == [data[257], data[258], data[259], data[260], data[261]];
    }
  }

  lemma SuffixIff(s: string, suffix: string)
    ensures HasSuffix(s, suffix) <==> EndsWith(s, suffix)
  {
  }

  // ---------------------------------------------------------------- names

  /** The characters after a dot of a name, up to the next dot or the end. */
  predicate IsExtension(t: string, i: int, j: int): (b: bool)
    ensures b ==> 0 <= i < j <= |t|
  {
    0 <= i < j <= |t| && t[i] == '.' && (j == |t| || t[j] == '.') && forall k :: i < k < j ==> t[k] != '.'
  }

  /** Every name has a part without trailing dots and spaces. */
  lemma {:induction false} Trimmable(s: string) returns (t: string, tail: string)
    ensures s == t + tail
    ensures forall i :: 0 <= i < |tail| ==> tail[i] == '.' || tail[i] == ' '
    ensures t != "" ==> t[|t| - 1] != '.' && t[|t| - 1] != ' '
  {
    t, tail := s, "";
    while t != "" && (t[|t| - 1] == '.' || t[|t| - 1] == ' ')
      invariant s == t + tail
      invariant forall i :: 0 <= i < |tail| ==> tail[i] == '.' || tail[i] == ' '
      decreases |t|
    {
      t, tail := t[..|t| - 1], [t[|t| - 1]] + tail;
    }
  }

  lemma {:induction false} TrimRightStops(t: string, tail: string)
    requires forall i :: 0 <= i < |tail| ==> tail[i] == '.' || tail[i] == ' '
    requires t != "" ==> t[|t| - 1] != '.' && t[|t| - 1] != ' '
    ensures TrimRight(t + tail) == t
  {
    if tail == "" {
      assert t + tail == t;
    } else {
      assert (t + tail)[..|t + tail| - 1] == t + tail[..|tail| - 1];
      TrimRightStops(t, tail[..|tail| - 1]);
    }
  }

  /** The pieces of a name lie between its dots. */
  predicate DotsOf(t: string, dots: seq<nat>)
  {
    && |Split(t, '.')| == |dots| + 1
    && (forall k :: 0 <= k < |dots| ==> dots[k] < |t| && t[dots[k]] == '.')
    && (forall k, l :: 0 <= k < l < |dots| ==> dots[k] < dots[l])
    && (forall i :: 0 <= i < |t| && t[i] == '.' ==> i in dots)
    && forall k :: 0 <= k <= |dots| ==> PieceAt(t, dots, k)
  }

  predicate PieceAt(t: string, dots: seq<nat>, k: nat)
    requires |Split(t, '.')| == |dots| + 1 && k <= |dots| && forall l :: 0 <= l < |dots| ==> dots[l] < |t|
  {
    var from, to := if k == 0 then 0 else dots[k - 1] + 1, if k == |dots| then |t| else dots[k];
    from <= to && Split(t, '.')[k] == t[from..to]
  }

  lemma {:induction false} SplitAtDots(s: string) returns (dots: seq<nat>)
    ensures DotsOf(s, dots)
  {
    if s == "" {
      dots := [];
    } else {
      var n := |s| - 1;
      var before := SplitAtDots(s[..n]);
      if s[n] == '.' {
        dots := before + [n];
        DotAdded(s, before);
      } else {
        dots := before;
        CharacterAdded(s, before);
      }
    }
  }

  lemma SplitLast(s: string)
    requires s != ""
    ensures var more, last := Split(s[..|s| - 1], '.'), s[|s| - 1];
      Split(s, '.') == if last == '.' then more + [""] else more[..|more| - 1] + [more[|more| - 1] + [last]]
  {
  }

  lemma DotAdded(s: string, before: seq<nat>)
    requires s != "" && s[|s| - 1] == '.' && DotsOf(s[..|s| - 1], before)
    ensures DotsOf(s, before + [|s| - 1])
  {
    hide Split;
    SplitLast(s);
    var n := |s| - 1;
    var dots := before + [n];
    forall i | 0 <= i < |s| && s[i] == '.' ensures i in dots {
      if i < n {
        assert s[..n][i] == '.' && i in before;
      } else {
        assert dots[|before|] == n;
      }
    }
    DotAddedPieces(s, before);
  }

  lemma DotAddedPieces(s: string, before: seq<nat>)
    requires s != "" && s[|s| - 1] == '.' && DotsOf(s[..|s| - 1], before)
    ensures var dots := before + [|s| - 1];
      && |Split(s, '.')| == |dots| + 1 && (forall l :: 0 <= l < |dots| ==> dots[l] < |s|)
      && forall k :: 0 <= k <= |dots| ==> PieceAt(s, dots, k)
  {
    hide Split, PieceAt;
    SplitLast(s);
    var dots := before + [|s| - 1];
    assert forall l :: 0 <= l < |dots| ==> dots[l] < |s|;
    forall k | 0 <= k <= |dots| ensures PieceAt(s, dots, k) {
      OnePiece(s, before, k);
    }
  }

  lemma OnePiece(s: string, before: seq<nat>, k: nat)
    requires s != "" && s[|s| - 1] == '.' && k <= |before| + 1
    requires |Split(s[..|s| - 1], '.')| == |before| + 1 && Split(s, '.') == Split(s[..|s| - 1], '.') + [""]
    requires forall l :: 0 <= l < |before| ==> before[l] < |s| - 1
    requires k <= |before| ==> PieceAt(s[..|s| - 1], before, k)
    ensures PieceAt(s, before + [|s| - 1], k)
  {
    hide Split;
    var n, dots := |s| - 1, before + [|s| - 1];
    if k <= |before| {
      var from := if k == 0 then 0 else before[k - 1] + 1;
      var to := if k == |before| then n else before[k];
      assert dots[k] == to && (k > 0 ==> dots[k - 1] + 1 == from);
      assert s[..n][from..to] == s[from..to];
    } else {
      assert dots[k - 1] == n && s[n + 1..] == "";
    }
  }

  lemma CharacterAdded(s: string, dots: seq<nat>)
    requires s != "" && s[|s| - 1] != '.' && DotsOf(s[..|s| - 1], dots)
    ensures DotsOf(s, dots)
  {
    hide Split;
    SplitLast(s);
    var n := |s| - 1;
    forall i | 0 <= i < |s| && s[i] == '.' ensures i in dots {
      assert s[..n][i] == '.';
    }
    forall k | 0 <= k <= |dots| ensures PieceAt(s, dots, k) {
      assert PieceAt(s[..n], dots, k);
    }
  }

  lemma {:induction false} FirstBlockedIs(env: Env, extensions: seq<string>, k: nat)
    requires k < |extensions| && extensions[k] in env.blocked && forall l :: 0 <= l < k ==> extensions[l] !in env.blocked
    ensures FirstBlocked(env, extensions) == Some(extensions[k])
  {
    if k > 0 {
      FirstBlockedIs(env, extensions[1..], k - 1);
    }
  }

  lemma {:induction false} NoneBlocked(env: Env, extensions: seq<string>)
    requires forall l :: 0 <= l < |extensions| ==> extensions[l] !in env.blocked
    ensures FirstBlocked(env, extensions) == None
  {
    if extensions != [] {
      NoneBlocked(env, extensions[1..]);
    }
  }

  /** An extension of a name that is blocked. */
  predicate BlockedAt(env: Env, t: string, i: int, j: int) { IsExtension(t, i, j) && t[i + 1..j] in env.blocked }

  /** A name is blocked exactly when, trailing dots and spaces aside, what stands between some dot and the next dot or
      the end is a blocked extension; the leftmost is the one that is reported. */
  lemma BlockedNames(env: Env, name: string, t: string, tail: string)
    requires env.lower(env.cleanName(name)) == t + tail
    requires forall i :: 0 <= i < |tail| ==> tail[i] == '.' || tail[i] == ' '
    requires t != "" ==> t[|t| - 1] != '.' && t[|t| - 1] != ' '
    ensures BlockedExtension(env, name).Some? <==> exists i, j :: BlockedAt(env, t, i, j)
    ensures BlockedExtension(env, name).Some? ==>
      exists i, j :: BlockedAt(env, t, i, j) && t[i + 1..j] == BlockedExtension(env, name).value
                     && forall i', j' :: BlockedAt(env, t, i', j') ==> i <= i'
  {
    hide Split, IsExtension, FirstBlocked, PieceAt;
    TrimRightStops(t, tail);
    var dots := SplitAtDots(t);
    var all := Extensions(env, name);
    assert all == Split(t, '.')[1..];
    if i, j :| BlockedAt(env, t, i, j) {
      ExtensionIsPiece(t, dots, i, j);
      var k :| 0 <= k < |dots| && t[i + 1..j] == Split(t, '.')[k + 1];
      assert all[k] in env.blocked;
      var first := FirstIn(env, all);
      FirstBlockedIs(env, all, first);
      BetweenDots(t, dots, first);
      LeftmostBlocked(env, t, dots, first);
      var end := if first + 1 == |dots| then |t| else dots[first + 1];
      assert BlockedAt(env, t, dots[first], end) && t[dots[first] + 1..end] == all[first];
    } else {
      forall k | 0 <= k < |all| ensures all[k] !in env.blocked {
        BetweenDots(t, dots, k);
        assert !BlockedAt(env, t, dots[k], if k + 1 == |dots| then |t| else dots[k + 1]);
      }
      NoneBlocked(env, all);
    }
  }

  lemma LeftmostBlocked(env: Env, t: string, dots: seq<nat>, first: nat)
    requires DotsOf(t, dots) && first < |dots| && forall l :: 1 <= l <= first ==> Split(t, '.')[l] !in env.blocked
    ensures forall i, j :: BlockedAt(env, t, i, j) ==> dots[first] <= i
  {
    hide Split, IsExtension, PieceAt;
    forall i, j | BlockedAt(env, t, i, j) ensures dots[first] <= i {
      ExtensionIsPiece(t, dots, i, j);
    }
  }

  lemma BetweenDots(t: string, dots: seq<nat>, k: nat)
    requires DotsOf(t, dots) && k < |dots|
    ensures var j := if k + 1 == |dots| then |t| else dots[k + 1];
      IsExtension(t, dots[k], j) && Split(t, '.')[k + 1] == t[dots[k] + 1..j]
  {
    hide Split;
    var j := if k + 1 == |dots| then |t| else dots[k + 1];
    assert PieceAt(t, dots, k + 1);
    forall m | dots[k] < m < j ensures t[m] != '.' {
      NoneBetween(dots, k, m);
    }
  }

  lemma NoneBetween(dots: seq<nat>, k: nat, m: int)
    requires (forall i, l :: 0 <= i < l < |dots| ==> dots[i] < dots[l]) && k < |dots|
    requires dots[k] < m && (k + 1 < |dots| ==> m < dots[k + 1])
    ensures m !in dots
  {
    forall l | 0 <= l < |dots| ensures dots[l] != m {
      if l < k {
        assert dots[l] < dots[k];
      } else if l > k + 1 {
        assert dots[k + 1] < dots[l];
      }
    }
  }

  lemma ExtensionIsPiece(t: string, dots: seq<nat>, i: int, j: int)
    requires DotsOf(t, dots) && IsExtension(t, i, j)
    ensures exists k :: 0 <= k < |dots| && dots[k] == i && t[i + 1..j] == Split(t, '.')[k + 1]
  {
    var k :| 0 <= k < |dots| && dots[k] == i;
    BetweenDots(t, dots, k);
    var j' := if k + 1 == |dots| then |t| else dots[k + 1];
    assert j == j';
  }

  lemma FirstIn(env: Env, extensions: seq<string>) returns (first: nat)
    requires exists k :: 0 <= k < |extensions| && extensions[k] in env.blocked
    ensures first < |extensions| && extensions[first] in env.blocked && forall l :: 0 <= l < first ==> extensions[l] !in env.blocked
  {
    first := 0;
    while extensions[first] !in env.blocked
      invariant first < |extensions|
      invariant forall l :: 0 <= l < first ==> extensions[l] !in env.blocked
      invariant exists k :: first <= k < |extensions| && extensions[k] in env.blocked
      decreases |extensions| - first
    {
      first := first + 1;
    }
  }

  // ---------------------------------------------------------------- what is looked at

  /** A name is a reason before the content is, and the content only when signatures are inspected. */
  lemma DetectionIff(env: Env, name: string, data: bytes)
    ensures Detection(env, name, data).Some? <==>
      BlockedExtension(env, name).Some? || (env.inspectSignatures && (StartsLikeProgram(data) || env.script(data).Some?))
    ensures BlockedExtension(env, name).Some? ==>
      Detection(env, name, data) == Some("blocked extension ." + BlockedExtension(env, name).value)
    ensures BlockedExtension(env, name).None? && env.inspectSignatures ==> Detection(env, name, data) == ExecutableSignature(env, data)
  {
    hide ExecutableSignature, BlockedExtension, StartsLikeProgram;
    ExecutableIff(env, data);
  }

  /** Of a stream only the first bytes are looked at, as many as a positive limit allows; it counts as read only
      when it is no longer than that and ends without an error. */
  lemma ReadIff(s: Stream, limit: int64)
    ensures var r := ReadLimited(s, limit);
      && (r.failed <==> limit <= 0 || |s.data| > limit || s.failed)
      && |r.data| == (if limit <= 0 then 0 else if |s.data| > limit then limit else |s.data|)
      && forall i :: 0 <= i < |r.data| ==> r.data[i] == s.data[i]
  {
  }

  /** An unknown transfer encoding has no content; any other is read within the limit. */
  lemma TransferIff(env: Env, encoding: string, data: bytes)
    ensures var r := DecodeTransfer(env, encoding, data);
      match env.transfer(encoding, data)
      case None => r.data == [] && r.failed
      case Some(s) =>
        && (r.failed <==> env.maxAttachment <= 0 || |s.data| > env.maxAttachment || s.failed)
        && r.data <= s.data
        && |r.data| == if env.maxAttachment <= 0 then 0 else if |s.data| > env.maxAttachment then env.maxAttachment else |s.data|
  {
  }

  /** Where an executable extension ends up when a compressed file is unpacked: the name of the content is the stored one,
      or else the file's own without the first of the compression extensions that leaves a name. */
  lemma UnpackedNames(env: Env, g: Gzip, name: string)
    ensures env.trim(g.name) != "" ==> GzipName(env, g, name) == env.cleanName(env.trim(g.name))
    ensures env.trim(g.name) == "" ==> Unpacked(env, name, ".gz", ".gzip", GzipName(env, g, name))
    ensures Unpacked(env, name, ".bz2", ".bzip2", StripExtension(env, name, [".bz2", ".bzip2"]))
  {
    StripFirst(env, name, ".gz", ".gzip");
    StripFirst(env, name, ".bz2", ".bzip2");
  }

  /** `inner` is the name without `one`, or without `other`, or else unnamed. */
  predicate Unpacked(env: Env, name: string, one: string, other: string, inner: string)
  {
    var n := env.cleanName(name);
    if Leaves(env, n, one) then inner == env.cleanName(env.trim(n[..|n| - |one|]))
    else if Leaves(env, n, other) then inner == env.cleanName(env.trim(n[..|n| - |other|]))
    else inner == "unnamed"
  }

  predicate Leaves(env: Env, n: string, extension: string)
  {
    EndsWith(env.lower(n), extension) && |n| >= |extension| && env.trim(n[..|n| - |extension|]) != ""
  }

  lemma StripLast(env: Env, name: string, one: string)
    ensures var n := env.cleanName(name);
      StripExtension(env, name, [one]) == if Leaves(env, n, one) then env.cleanName(env.trim(n[..|n| - |one|])) else "unnamed"
  {
    SuffixIff(env.lower(env.cleanName(name)), one);
    assert [one][1..] == [];
  }

  lemma StripFirst(env: Env, name: string, one: string, other: string)
    ensures Unpacked(env, name, one, other, StripExtension(env, name, [one, other]))
  {
    var n := env.cleanName(name);
    SuffixIff(env.lower(n), one);
    SuffixIff(env.lower(n), other);
    assert [one, other][1..] == [other];
    StripLast(env, name, other);
  }
}
