/**
 SMTP reply texts as the Milter sends them: control characters removed, cut to the length
 limit without splitting a character, and percent signs doubled.

 Text is a byte string. Valid text is UTF-8 as section 4 of RFC 3629 defines it.
 */
module Reply {
  import opened Wire

  const MAX_REPLY: nat := 510
  const REPLY_MARKER: byte := 121
  const NUL: byte := 0
  const LF: byte := 10
  const CR: byte := 13
  const SPACE: byte := 32
  const PERCENT: byte := 37

  // ---------------------------------------------------------------- UTF-8

  predicate Tail(s: bytes, i: nat) { i < |s| && 0x80 <= s[i] <= 0xBF }

  predicate Between(s: bytes, i: nat, low: int, high: int) { i < |s| && low <= s[i] <= high }

  /** The length of the valid character that `s` starts with, or 0 when it starts with none. */
  function CharLength(s: bytes): (n: nat)
    ensures n <= |s| && n <= 4
  {
    if s == [] then 0
    else if s[0] < 0x80 then 1
    else if 0xC2 <= s[0] <= 0xDF then if Tail(s, 1) then 2 else 0
    else if 0xE0 <= s[0] <= 0xEF then
      if (if s[0] == 0xE0 then Between(s, 1, 0xA0, 0xBF) else if s[0] == 0xED then Between(s, 1, 0x80, 0x9F) else Tail(s, 1))
         && Tail(s, 2) then 3 else 0
    else if 0xF0 <= s[0] <= 0xF4 then
      if (if s[0] == 0xF0 then Between(s, 1, 0x90, 0xBF) else if s[0] == 0xF4 then Between(s, 1, 0x80, 0x8F) else Tail(s, 1))
         && Tail(s, 2) && Tail(s, 3) then 4 else 0
    else 0
  }

  predicate ValidUtf8(s: bytes)
  {
    s == [] || (CharLength(s) > 0 && ValidUtf8(s[CharLength(s)..]))
  }

  // Characters as section 3 of RFC 3629 encodes them: what validity means.

  /** A Unicode scalar value: any code point but the surrogates. */
  predicate Scalar(c: int) { 0 <= c <= 0x10_FFFF && !(0xD800 <= c <= 0xDFFF) }

  function EncodeChar(c: int): (s: bytes)
    requires Scalar(c)
    ensures 1 <= |s| <= 4
  {
    if c < 0x80 then [c]
    else if c < 0x800 then [0xC0 + c / 0x40, 0x80 + c % 0x40]
    else if c < 0x1_0000 then [0xE0 + c / 0x1000, 0x80 + c / 0x40 % 0x40, 0x80 + c % 0x40]
    else [0xF0 + c / 0x4_0000, 0x80 + c / 0x1000 % 0x40, 0x80 + c / 0x40 % 0x40, 0x80 + c % 0x40]
  }

  function EncodeText(text: seq<int>): bytes
    requires forall i :: 0 <= i < |text| ==> Scalar(text[i])
  {
    if text == [] then [] else EncodeChar(text[0]) + EncodeText(text[1..])
  }

  /** The digits of a number in base 64. */
  lemma Digits(c: nat)
    ensures c == c / 0x40 * 0x40 + c % 0x40 && c / 0x1000 == c / 0x40 / 0x40 && c / 0x4_0000 == c / 0x40 / 0x40 / 0x40
  {
  }

  lemma EncodedIsChar(c: int, rest: bytes)
    requires Scalar(c)
    ensures CharLength(EncodeChar(c) + rest) == |EncodeChar(c)|
  {
    Digits(c);
    var s := EncodeChar(c) + rest;
    assert forall i :: 0 <= i < |EncodeChar(c)| ==> s[i] == EncodeChar(c)[i];
  }

  lemma TwoBytes(b0: int, b1: int) returns (c: int)
    requires 0xC2 <= b0 <= 0xDF && 0x80 <= b1 <= 0xBF
    ensures Scalar(c) && EncodeChar(c) == [b0, b1]
  {
    c := (b0 - 0xC0) * 0x40 + (b1 - 0x80);
    Base(b0 - 0xC0, b1 - 0x80);
  }

  lemma ThreeBytes(b0: int, b1: int, b2: int) returns (c: int)
    requires 0xE0 <= b0 <= 0xEF && 0x80 <= b1 <= 0xBF && 0x80 <= b2 <= 0xBF && (b0 == 0xE0 ==> b1 >= 0xA0) && (b0 == 0xED ==> b1 <= 0x9F)
    ensures Scalar(c) && EncodeChar(c) == [b0, b1, b2]
  {
    var high := (b0 - 0xE0) * 0x40 + (b1 - 0x80);
    c := high * 0x40 + (b2 - 0x80);
    Base(high, b2 - 0x80);
    Base(b0 - 0xE0, b1 - 0x80);
    Digits(c);
  }

  lemma FourBytes(b0: int, b1: int, b2: int, b3: int) returns (c: int)
    requires 0xF0 <= b0 <= 0xF4 && 0x80 <= b1 <= 0xBF && 0x80 <= b2 <= 0xBF && 0x80 <= b3 <= 0xBF
    requires (b0 == 0xF0 ==> b1 >= 0x90) && (b0 == 0xF4 ==> b1 <= 0x8F)
    ensures Scalar(c) && EncodeChar(c) == [b0, b1, b2, b3]
  {
    var top := (b0 - 0xF0) * 0x40 + (b1 - 0x80);
    var high := top * 0x40 + (b2 - 0x80);
    c := high * 0x40 + (b3 - 0x80);
    Base(high, b3 - 0x80);
    Base(top, b2 - 0x80);
    Base(b0 - 0xF0, b1 - 0x80);
    Digits(c);
  }

  lemma CharIsEncoded(s: bytes) returns (c: int)
    requires CharLength(s) > 0
    ensures Scalar(c) && EncodeChar(c) == s[..CharLength(s)]
  {
    hide EncodeChar;
    var n := CharLength(s);
    if n == 1 {
      c := s[0];
      assert EncodeChar(c) == [c] by { OneByte(c); }
    } else if n == 2 {
      c := TwoBytes(s[0], s[1]);
    } else if n == 3 {
      c := ThreeBytes(s[0], s[1], s[2]);
    } else {
      c := FourBytes(s[0], s[1], s[2], s[3]);
    }
  }

  lemma OneByte(c: int)
    requires 0 <= c < 0x80
    ensures EncodeChar(c) == [c]
  {
  }

  lemma Base(high: nat, low: int)
    requires 0 <= low < 0x40
    ensures (high * 0x40 + low) / 0x40 == high && (high * 0x40 + low) % 0x40 == low
  {
  }

  /** Bytes are valid exactly when they encode a sequence of scalar values. */
  lemma {:induction false} ValidIffEncoded(s: bytes)
    ensures ValidUtf8(s) <==> exists text: seq<int> :: (forall i :: 0 <= i < |text| ==> Scalar(text[i])) && EncodeText(text) == s
    decreases |s|
  {
    hide CharLength, EncodeChar;
    if ValidUtf8(s) {
      var text := Decoded(s);
    }
    if text: seq<int> :| (forall i :: 0 <= i < |text| ==> Scalar(text[i])) && EncodeText(text) == s {
      EncodedIsValid(text);
    }
  }

  lemma {:induction false} Decoded(s: bytes) returns (text: seq<int>)
    requires ValidUtf8(s)
    ensures (forall i :: 0 <= i < |text| ==> Scalar(text[i])) && EncodeText(text) == s
  {
    hide CharLength, EncodeChar;
    if s == [] {
      text := [];
    } else {
      var n := CharLength(s);
      var c := CharIsEncoded(s);
      var more := Decoded(s[n..]);
      text := [c] + more;
      assert text[1..] == more && s == s[..n] + s[n..];
    }
  }

  lemma {:induction false} EncodedIsValid(text: seq<int>)
    requires forall i :: 0 <= i < |text| ==> Scalar(text[i])
    ensures ValidUtf8(EncodeText(text))
  {
    hide CharLength, EncodeChar;
    if text != [] {
      var first, rest := EncodeChar(text[0]), EncodeText(text[1..]);
      EncodedIsValid(text[1..]);
      EncodedIsChar(text[0], rest);
      assert (first + rest)[|first|..] == rest;
    }
  }

  lemma CharLengthOfPrefix(a: bytes, b: bytes)
    requires CharLength(a) > 0
    ensures CharLength(a + b) == CharLength(a)
  {
  }

  lemma {:induction false} ValidConcat(a: bytes, b: bytes)
    requires ValidUtf8(a) && ValidUtf8(b)
    ensures ValidUtf8(a + b)
  {
    if a == [] {
      assert a + b == b;
    } else {
      CharLengthOfPrefix(a, b);
      ValidConcat(a[CharLength(a)..], b);
      assert (a + b)[CharLength(a)..] == a[CharLength(a)..] + b;
    }
  }

  /** Valid text has a character boundary among any four consecutive positions. */
  lemma {:induction false} BoundaryNear(s: bytes, m: nat) returns (b: nat)
    requires ValidUtf8(s) && m <= |s|
    ensures b <= m < b + 4 && ValidUtf8(s[..b])
  {
    var n := CharLength(s);
    if m < n || s == [] {
      b := 0;
    } else {
      var rest := BoundaryNear(s[n..], m - n);
      b := n + rest;
      OneChar(s);
      ValidConcat(s[..n], s[n..][..rest]);
      assert s[..b] == s[..n] + s[n..][..rest];
    }
  }

  lemma OneChar(s: bytes)
    requires CharLength(s) > 0
    ensures ValidUtf8(s[..CharLength(s)])
  {
    var c := s[..CharLength(s)];
    assert CharLength(c) == |c|;
    assert c[|c|..] == [];
  }

  // ---------------------------------------------------------------- truncation

  /** The longest valid prefix. */
  function ValidPrefix(s: bytes): (r: bytes)
    ensures r <= s
  {
    if ValidUtf8(s) then s else ValidPrefix(s[..|s| - 1])
  }

  function Truncated(s: bytes, max: nat): bytes
  {
    if |s| <= max then s else ValidPrefix(s[..max])
  }

  /** Cuts the last byte off until what is left is valid. */
  method TruncateUtf8(value: bytes, max: nat) returns (cut: bytes)
    ensures cut == Truncated(value, max)
  {
    if |value| <= max {
      return value;
    }
    cut := value[..max];
    while !ValidUtf8(cut)
      invariant ValidPrefix(cut) == ValidPrefix(value[..max])
      decreases |cut|
    {
      cut := cut[..|cut| - 1];
    }
  }

  lemma {:induction false} ValidPrefixIsLongest(s: bytes, b: nat)
    requires b <= |s| && ValidUtf8(s[..b])
    ensures ValidUtf8(ValidPrefix(s)) && b <= |ValidPrefix(s)|
    decreases |s|
  {
    if b == |s| {
      assert s[..b] == s;
    } else if !ValidUtf8(s) {
      assert s[..|s| - 1][..b] == s[..b];
      ValidPrefixIsLongest(s[..|s| - 1], b);
    }
  }

  /** Truncation keeps a prefix within the limit, invents nothing and splits no character; of valid text
      that is too long it loses fewer than four bytes below the limit. */
  lemma TruncationIsTight(s: bytes, max: nat)
    ensures Truncated(s, max) <= s && |Truncated(s, max)| <= max
    ensures |s| > max ==> ValidUtf8(Truncated(s, max))
    ensures ValidUtf8(s) ==> ValidUtf8(Truncated(s, max))
    ensures ValidUtf8(s) && |s| > max ==> |Truncated(s, max)| + 4 > max
  {
    if |s| > max {
      assert ValidUtf8(s[..max][..0]);
      ValidPrefixIsLongest(s[..max], 0);
      if ValidUtf8(s) {
        var b := BoundaryNear(s, max);
        assert s[..max][..b] == s[..b];
        ValidPrefixIsLongest(s[..max], b);
      }
    }
  }

  // ---------------------------------------------------------------- cleaning and escaping

  /** Drops NUL and turns CR and LF into spaces. */
  function Clean(s: bytes): (r: bytes)
    ensures forall i :: 0 <= i < |r| ==> r[i] != NUL && r[i] != CR && r[i] != LF
  {
    if s == [] then []
    else (if s[0] == NUL then [] else if s[0] == CR || s[0] == LF then [SPACE] else [s[0]]) + Clean(s[1..])
  }

  function Escape(s: bytes): bytes
  {
    if s == [] then [] else (if s[0] == PERCENT then [PERCENT, PERCENT] else [s[0]]) + Escape(s[1..])
  }

  /** What the receiving side makes of doubled percent signs. */
  function Unescape(s: bytes): bytes
    decreases |s|
  {
    if |s| < 2 then s
    else if s[0] == PERCENT && s[1] == PERCENT then [PERCENT] + Unescape(s[2..])
    else [s[0]] + Unescape(s[1..])
  }

  lemma {:induction false} CleanConcat(a: bytes, b: bytes)
    ensures Clean(a + b) == Clean(a) + Clean(b)
  {
    if a == [] {
      assert a + b == b;
    } else {
      assert (a + b)[1..] == a[1..] + b;
      CleanConcat(a[1..], b);
    }
  }

  /** Cleaning byte by byte: NUL goes, a line end becomes a space, all else stays. */
  lemma CleanByte(s: bytes, b: byte)
    ensures Clean([]) == []
    ensures Clean(s + [b]) == if b == 0 then Clean(s) else if b == 13 || b == 10 then Clean(s) + [32] else Clean(s) + [b]
  {
    CleanConcat(s, [b]);
    assert [b][1..] == [];
    assert Clean([b]) == if b == 0 then [] else if b == 13 || b == 10 then [32] else [b];
    assert Clean(s) + [] == Clean(s);
  }

  /** Escaping byte by byte: a percent sign is doubled, all else stays. */
  lemma {:induction false} EscapeByte(s: bytes, b: byte)
    ensures Escape([]) == []
    ensures Escape(s + [b]) == Escape(s) + if b == 37 then [37, 37] else [b]
  {
    if s == [] {
      assert [] + [b] == [b] && [b][1..] == [];
    } else {
      EscapeByte(s[1..], b);
      assert (s + [b])[1..] == s[1..] + [b];
    }
  }

  lemma {:induction false} CleanKeepsHigh(s: bytes)
    requires forall i :: 0 <= i < |s| ==> s[i] >= 0x80
    ensures Clean(s) == s
  {
    if s != [] {
      CleanKeepsHigh(s[1..]);
    }
  }

  lemma CharBytes(s: bytes)
    requires CharLength(s) > 0
    ensures CharLength(s) == 1 ==> s[0] < 0x80
    ensures CharLength(s) > 1 ==> forall i :: 0 <= i < CharLength(s) ==> s[i] >= 0x80
  {
  }

  lemma CleanAscii(s: bytes)
    requires |s| == 1 && s[0] < 0x80
    ensures ValidUtf8(Clean(s))
  {
    assert s[1..] == [] && Clean(s[1..]) == [];
    AsciiIsValid(Clean(s));
  }

  /** Cleaning keeps valid text valid: it only touches characters of one byte. */
  lemma {:induction false} CleanKeepsValid(s: bytes)
    requires ValidUtf8(s)
    ensures ValidUtf8(Clean(s))
  {
    hide CharLength;
    if s != [] {
      var n := CharLength(s);
      var first, rest := s[..n], s[n..];
      assert s == first + rest;
      CharBytes(s);
      OneChar(s);
      CleanKeepsValid(rest);
      CleanConcat(first, rest);
      hide Clean;
      if n > 1 {
        CleanKeepsHigh(first);
      } else {
        CleanAscii(first);
      }
      ValidConcat(Clean(first), Clean(rest));
    }
  }

  lemma AsciiIsValid(s: bytes)
    requires |s| <= 1 && forall i :: 0 <= i < |s| ==> s[i] < 0x80
    ensures ValidUtf8(s)
  {
    if s != [] {
      assert s[1..] == [];
    }
  }

  lemma {:induction false} EscapeKeepsBytes(s: bytes)
    ensures forall b :: b in Escape(s) ==> b in s
    ensures s != [] ==> Escape(s) != [] && Escape(s)[0] == s[0]
  {
    if s != [] {
      EscapeKeepsBytes(s[1..]);
    }
  }

  lemma {:induction false} UnescapeEscape(s: bytes)
    ensures Unescape(Escape(s)) == s
  {
    if s != [] {
      UnescapeEscape(s[1..]);
      EscapeKeepsBytes(s[1..]);
      var e := Escape(s);
      if s[0] == PERCENT {
        assert e[2..] == Escape(s[1..]);
      } else {
        assert e[1..] == Escape(s[1..]);
      }
    }
  }

  // ---------------------------------------------------------------- the reply

  /** The text of the reply before it is cut. */
  function Joined(code: bytes, enhanced: bytes, text: bytes): bytes
  {
    Clean(code) + [SPACE] + Clean(enhanced) + [SPACE] + Clean(text)
  }

  function ReplyCode(code: bytes, enhanced: bytes, text: bytes): bytes
  {
    [REPLY_MARKER] + Escape(Truncated(Joined(code, enhanced, text), MAX_REPLY)) + [NUL]
  }

  /** The text a receiver reads out of a reply. */
  function TextOf(reply: bytes): bytes
    requires |reply| >= 2
  {
    Unescape(reply[1..|reply| - 1])
  }

  lemma JoinedIsValid(code: bytes, enhanced: bytes, text: bytes)
    requires ValidUtf8(code) && ValidUtf8(enhanced) && ValidUtf8(text)
    ensures ValidUtf8(Joined(code, enhanced, text))
  {
    CleanKeepsValid(code);
    CleanKeepsValid(enhanced);
    CleanKeepsValid(text);
    AsciiIsValid([SPACE]);
    ValidConcat(Clean(code), [SPACE]);
    ValidConcat(Clean(code) + [SPACE], Clean(enhanced));
    ValidConcat(Clean(code) + [SPACE] + Clean(enhanced), [SPACE]);
    ValidConcat(Clean(code) + [SPACE] + Clean(enhanced) + [SPACE], Clean(text));
  }

  /** A reply is one marker, text without control characters and one final NUL; a receiver reads a
      prefix of code, status and text, cleaned and separated by spaces, of at most 510 bytes. If the parts are
      valid UTF-8, so is what it reads, and when that was cut fewer than four bytes below the limit are lost. */
  lemma ReplyIsWellFormed(code: bytes, enhanced: bytes, text: bytes)
    ensures var reply := ReplyCode(code, enhanced, text);
      var joined := Clean(code) + [32] + Clean(enhanced) + [32] + Clean(text);
      && |reply| >= 2 && reply[0] == 121 && reply[|reply| - 1] == 0
      && (forall i :: 1 <= i < |reply| - 1 ==> reply[i] != 0 && reply[i] != 13 && reply[i] != 10)
      && TextOf(reply) <= joined && |TextOf(reply)| <= 510
      && (|joined| <= 510 ==> TextOf(reply) == joined && reply == [121] + Escape(joined) + [0])
      && (ValidUtf8(code) && ValidUtf8(enhanced) && ValidUtf8(text) ==>
            ValidUtf8(TextOf(reply)) && (|joined| > 510 ==> |TextOf(reply)| + 4 > 510))
  {
    hide Clean, Escape, Unescape, Truncated, ValidUtf8;
    var reply, joined := ReplyCode(code, enhanced, text), Joined(code, enhanced, text);
    var cut := Truncated(joined, MAX_REPLY);
    TruncationIsTight(joined, MAX_REPLY);
    ShortIsKept(joined);
    assert reply[1..|reply| - 1] == Escape(cut);
    UnescapeEscape(cut);
    EscapeKeepsBytes(cut);
    forall i | 1 <= i < |reply| - 1 ensures reply[i] != NUL && reply[i] != CR && reply[i] != LF {
      assert Escape(cut)[i - 1] in cut;
      assert reply[i] in joined;
    }
    if ValidUtf8(code) && ValidUtf8(enhanced) && ValidUtf8(text) {
      JoinedIsValid(code, enhanced, text);
    }
  }

  lemma ShortIsKept(s: bytes)
    ensures |s| <= MAX_REPLY ==> Truncated(s, MAX_REPLY) == s
  {
  }

  // ---------------------------------------------------------------- refusals

  /** A reply that a mail server reads as the code 550, the status 5.7.1 and a text, cleaned, and cut only beyond 510 bytes. */
  predicate IsRefusal(answer: bytes, text: bytes)
  {
    var full := [53, 53, 48, 32, 53, 46, 55, 46, 49, 32] + Clean(text);
    && |answer| >= 2 && answer[0] == 121 && answer[|answer| - 1] == 0
    && (forall i :: 1 <= i < |answer| - 1 ==> answer[i] != 0 && answer[i] != 13 && answer[i] != 10)
    && TextOf(answer) <= full && |TextOf(answer)| <= 510 && (|full| <= 510 ==> TextOf(answer) == full)
    && (ValidUtf8(text) ==> ValidUtf8(TextOf(answer)) && (|full| > 510 ==> |TextOf(answer)| >= 507))
  }

  lemma {:induction false} CleanPlain(s: bytes)
    requires forall i :: 0 <= i < |s| ==> 14 <= s[i] < 128
    ensures Clean(s) == s && ValidUtf8(s)
  {
    if s != [] {
      CleanPlain(s[1..]);
      assert CharLength(s) == 1;
    }
  }

  lemma RefusalReply(text: bytes)
    ensures IsRefusal(ReplyCode([53, 53, 48], [53, 46, 55, 46, 49], text), text)
  {
    hide ReplyCode, Clean, ValidUtf8, TextOf, CharLength;
    var code: bytes, status: bytes := [53, 53, 48], [53, 46, 55, 46, 49];
    CleanPlain(code);
    CleanPlain(status);
    ReplyIsWellFormed(code, status, text);
    assert code + [32] + status + [32] == [53, 53, 48, 32, 53, 46, 55, 46, 49, 32];
  }
}
