/** Content-Length framing (LSP 3.17, "Base Protocol / Header Part"; src/codec.rs) on values: headers, frames, one
    `decode` call, and the one-shot splitting of a byte stream that the resumable decoder amounts to. Parsing a
    body is a parameter `parse`, which fails on bytes that are no message. */
module Framing {
  import opened Wrappers
  import opened Utf8

  // "\r\n" and "\r\n\r\n"
  const CRLF: Bytes := [13, 10]
  const HEADER_TERMINATOR: Bytes := [13, 10, 13, 10]

  // "Content-Length: ", and "content-length:" for the comparison
  const HEADER_PREFIX: Bytes := [67, 111, 110, 116, 101, 110, 116, 45, 76, 101, 110, 103, 116, 104, 58, 32]
  const HEADER_NAME: Bytes := [99, 111, 110, 116, 101, 110, 116, 45, 108, 101, 110, 103, 116, 104, 58]

  /** The constants, spelled out. */
  lemma HeaderText()
    ensures var name, prefix := "content-length:", "Content-Length: ";
            && |HEADER_NAME| == |name| == 15 && (forall k | 0 <= k < 15 :: HEADER_NAME[k] == name[k] as int)
            && |HEADER_PREFIX| == |prefix| && (forall k | 0 <= k < |prefix| :: HEADER_PREFIX[k] == prefix[k] as int)
    ensures CRLF == [13, 10] && HEADER_TERMINATOR == CRLF + CRLF
  {
  }

  // ---------- searching ----------

  predicate OccursAt(haystack: Bytes, needle: Bytes, i: int) {
    0 <= i && i + |needle| <= |haystack| && haystack[i..i + |needle|] == needle
  }

  function FindFrom(haystack: Bytes, needle: Bytes, i: nat): (r: Option<nat>)
    ensures r.Some? ==> i <= r.value && OccursAt(haystack, needle, r.value)
    ensures r.Some? ==> forall j | i <= j < r.value :: !OccursAt(haystack, needle, j)
    ensures r.None? ==> forall j | i <= j :: !OccursAt(haystack, needle, j)
    decreases |haystack| - i
  {
    if i + |needle| > |haystack| then None
    else if haystack[i..i + |needle|] == needle then Some(i)
    else FindFrom(haystack, needle, i + 1)
  }

  /** The first occurrence of `needle`. */
  function FindSubsequence(haystack: Bytes, needle: Bytes): (r: Option<nat>)
    ensures r.Some? <==> exists i :: OccursAt(haystack, needle, i)
    ensures r.Some? ==> OccursAt(haystack, needle, r.value)
    ensures r.Some? ==> forall j | j < r.value :: !OccursAt(haystack, needle, j)
  {
    FindFrom(haystack, needle, 0)
  }

  // ---------- decimal numbers ----------

  predicate IsDigit(c: int) { 48 <= c <= 57 }

  function Digit(c: int): int { c - 48 }

  /** `{}` of a `usize`. */
  function Decimal(n: nat): (ds: Bytes)
    ensures ds != [] && forall i | 0 <= i < |ds| :: IsDigit(ds[i])
  {
    if n < 10 then [48 + n] else Decimal(n / 10) + [48 + n % 10]
  }

  /** The last digit of a number is written last, and in base ten. */
  lemma DecimalDigits(n: nat, d: nat)
    requires d < 10
    ensures Decimal(d) == [48 + d]
    ensures n > 0 ==> Decimal(10 * n + d) == Decimal(n) + [48 + d]
  {
    assert (10 * n + d) / 10 == n && (10 * n + d) % 10 == d;
  }

  function ParseDigits(ds: seq<scalar>, acc: nat): Option<nat> {
    if ds == [] then Some(acc)
    else if !IsDigit(ds[0]) || acc * 10 + Digit(ds[0]) > USIZE_MAX then None
    else ParseDigits(ds[1..], acc * 10 + Digit(ds[0]))
  }

  /** `str::parse::<usize>`: an optional `+`, at least one digit, and no overflow. */
  function ParseUsize(cs: seq<scalar>): Option<nat> {
    var digits := if cs != [] && cs[0] == 43 then cs[1..] else cs;
    if digits == [] then None else ParseDigits(digits, 0)
  }

  lemma {:induction false} ParseDigitsSnoc(ds: seq<scalar>, d: scalar, acc: nat)
    ensures ParseDigits(ds + [d], acc) == match ParseDigits(ds, acc)
                                          case None => None
                                          case Some(n) => ParseDigits([d], n)
  {
    if ds != [] {
      assert (ds + [d])[1..] == ds[1..] + [d];
      if IsDigit(ds[0]) && acc * 10 + Digit(ds[0]) <= USIZE_MAX {
        ParseDigitsSnoc(ds[1..], d, acc * 10 + Digit(ds[0]));
      }
    } else {
      assert ds + [d] == [d];
    }
  }

  /** The number that decimal digits denote. */
  function Value(ds: seq<scalar>): int {
    if ds == [] then 0 else Value(ds[..|ds| - 1]) * 10 + Digit(ds[|ds| - 1])
  }

  lemma ValueOfDigits(ds: seq<scalar>, d: scalar)
    ensures Value([]) == 0 && Value(ds + [d]) == 10 * Value(ds) + (d - 48)
  {
    assert (ds + [d])[..|ds|] == ds;
  }

  /** Parsing accepts exactly the digit strings whose value fits, and yields that value. */
  lemma {:induction false} ParseDigitsIff(ds: seq<scalar>)
    ensures ParseDigits(ds, 0) == if (forall i | 0 <= i < |ds| :: IsDigit(ds[i])) && Value(ds) <= USIZE_MAX
                                  then Some(Value(ds)) else None
    ensures (forall i | 0 <= i < |ds| :: IsDigit(ds[i])) ==> Value(ds) >= 0
  {
    if ds != [] {
      var most, d := ds[..|ds| - 1], ds[|ds| - 1];
      assert ds == most + [d];
      ParseDigitsIff(most);
      ParseDigitsSnoc(most, d, 0);
      assert (forall i | 0 <= i < |ds| :: IsDigit(ds[i]))
             <==> (forall i | 0 <= i < |most| :: IsDigit(most[i])) && IsDigit(d);
    }
  }

  /** A length is one digit or more, after a `+` or not, that denote a number of 64 bits. */
  lemma ParseUsizeIff(cs: seq<scalar>)
    ensures var digits := if cs != [] && cs[0] == '+' as int then cs[1..] else cs;
            ParseUsize(cs)
            == if digits != [] && (forall i | 0 <= i < |digits| :: '0' as int <= digits[i] <= '9' as int)
                  && Value(digits) <= 0xFFFF_FFFF_FFFF_FFFF
               then Some(Value(digits)) else None
  {
    var digits := if cs != [] && cs[0] == '+' as int then cs[1..] else cs;
    hide Value, ParseDigits;
    ParseDigitsIff(digits);
  }

  /** A printed number reads back, up to the width of `usize`. */
  lemma {:induction false} DecimalReadsBack(n: nat)
    ensures ParseDigits(Decimal(n), 0) == if n <= USIZE_MAX then Some(n) else None
  {
    if n >= 10 {
      DecimalReadsBack(n / 10);
      ParseDigitsSnoc(Decimal(n / 10), 48 + n % 10, 0);
    }
  }

  // ---------- headers ----------

  // Unicode White_Space, which `str::trim` removes.
  predicate IsWhitespace(c: scalar) {
    9 <= c <= 13 || c == 0x20 || c == 0x85 || c == 0xA0 || c == 0x1680 || 0x2000 <= c <= 0x200A
    || c == 0x2028 || c == 0x2029 || c == 0x202F || c == 0x205F || c == 0x3000
  }

  function Trim(cs: seq<scalar>): seq<scalar>
    decreases |cs|
  {
    if cs == [] then []
    else if IsWhitespace(cs[0]) then Trim(cs[1..])
    else if IsWhitespace(cs[|cs| - 1]) then Trim(cs[..|cs| - 1])
    else cs
  }

  /** What is white space (the property White_Space of Unicode). */
  lemma WhitespaceIs(c: scalar)
    ensures IsWhitespace(c)
            <==> c in {0x09, 0x0A, 0x0B, 0x0C, 0x0D, 0x20, 0x85, 0xA0, 0x1680, 0x2000, 0x2001, 0x2002, 0x2003, 0x2004,
                       0x2005, 0x2006, 0x2007, 0x2008, 0x2009, 0x200A, 0x2028, 0x2029, 0x202F, 0x205F, 0x3000}
  {
  }

  /** Trimming removes the white space at both ends, all of it and nothing else. */
  lemma {:induction false} TrimRemoves(cs: seq<scalar>) returns (i: nat, j: nat)
    ensures i <= j <= |cs| && Trim(cs) == cs[i..j]
    ensures forall k | 0 <= k < i || j <= k < |cs| :: IsWhitespace(cs[k])
    ensures i < j ==> !IsWhitespace(cs[i]) && !IsWhitespace(cs[j - 1])
    decreases |cs|
  {
    if cs == [] {
      i, j := 0, 0;
    } else if IsWhitespace(cs[0]) {
      i, j := TrimRemoves(cs[1..]);
      assert cs[1..][i..j] == cs[i + 1..j + 1];
      assert forall k | 0 <= k < |cs| - 1 :: cs[1..][k] == cs[k + 1];
      forall k | 0 <= k < i + 1 || j + 1 <= k < |cs| ensures IsWhitespace(cs[k]) {
        assert k > 0 ==> cs[k] == cs[1..][k - 1];
      }
      i, j := i + 1, j + 1;
    } else if IsWhitespace(cs[|cs| - 1]) {
      i, j := TrimRemoves(cs[..|cs| - 1]);
      assert cs[..|cs| - 1][i..j] == cs[i..j];
      forall k | 0 <= k < i || j <= k < |cs| ensures IsWhitespace(cs[k]) {
        assert k < |cs| - 1 ==> cs[k] == cs[..|cs| - 1][k];
      }
    } else {
      i, j := 0, |cs|;
      assert cs[0..|cs|] == cs;
    }
  }

  function ToAsciiLowercase(b: byte): byte { if 65 <= b <= 90 then b + 32 else b }

  predicate IsContentLength(line: Bytes) {
    |line| >= |HEADER_NAME| && forall k | 0 <= k < |HEADER_NAME| :: ToAsciiLowercase(line[k]) == HEADER_NAME[k]
  }

  /** A line has the right name exactly if it starts with `content-length:`, each letter small or capital. */
  lemma ContentLengthNames(line: Bytes)
    ensures IsContentLength(line)
            <==> |line| >= 15 && forall k | 0 <= k < 15 ::
                   line[k] == HEADER_NAME[k]
                   || ('a' as int <= HEADER_NAME[k] <= 'z' as int && line[k] == HEADER_NAME[k] - 32)
  {
  }

  /** The value of the first Content-Length line among the lines of `s`. */
  function ParseLines(s: Bytes): Option<nat>
    decreases |s|
  {
    var end := FindSubsequence(s, CRLF);
    var line := if end.Some? then s[..end.value] else s;
    if IsContentLength(line) then ParseUsize(Trim(Scalars(line[|HEADER_NAME|..])))
    else if end.Some? then ParseLines(s[end.value + 2..])
    else None
  }

  /** Header lines as they are sent. */
  function JoinLines(lines: seq<Bytes>): Bytes
    requires lines != []
  {
    if |lines| == 1 then lines[0] else lines[0] + CRLF + JoinLines(lines[1..])
  }

  ghost predicate OneLine(line: Bytes) { forall i :: !OccursAt(line, CRLF, i) }

  /** The first line with the right name decides, whatever its letter case and whatever surrounds it; without one
      there is no length. */
  lemma {:induction false} FirstMatchDecides(lines: seq<Bytes>, k: nat)
    requires lines != [] && k <= |lines| && forall i | 0 <= i < |lines| :: OneLine(lines[i])
    requires forall i | 0 <= i < k :: !IsContentLength(lines[i])
    requires k < |lines| ==> IsContentLength(lines[k])
    ensures ParseLines(JoinLines(lines))
            == if k < |lines| then ParseUsize(Trim(Scalars(lines[k][|HEADER_NAME|..]))) else None
    decreases |lines|
  {
    hide IsContentLength, ParseUsize, Trim, Scalars;
    var s := JoinLines(lines);
    if |lines| == 1 {
      assert FindSubsequence(s, CRLF).None?;
    } else {
      FirstLineEnds(lines[0], JoinLines(lines[1..]));
      if k > 0 {
        FirstMatchDecides(lines[1..], k - 1);
      }
    }
  }

  lemma FirstLineEnds(line: Bytes, rest: Bytes)
    requires OneLine(line)
    ensures var s := line + CRLF + rest;
            FindSubsequence(s, CRLF) == Some(|line|) && s[..|line|] == line && s[|line| + 2..] == rest
  {
    var s := line + CRLF + rest;
    assert s[|line|..|line| + 2] == CRLF;
    forall j | j < |line| ensures !OccursAt(s, CRLF, j) {
      assert !OccursAt(line, CRLF, j);
      if 0 <= j && j + 2 <= |line| {
        assert s[j..j + 2] == line[j..j + 2];
      } else if 0 <= j {
        assert s[j..j + 2][1] == s[|line|] == 13;
      }
    }
    FirstOccurrence(s, CRLF, |line|);
  }

  function ParseContentLength(headers: Bytes): Option<nat> {
    if Valid(headers) then ParseLines(headers) else None
  }

  lemma {:induction false} ScalarsOfAscii(s: Bytes)
    requires forall i | 0 <= i < |s| :: s[i] < 0x80
    ensures Valid(s) && Scalars(s) == s
  {
    if s != [] {
      ScalarsOfAscii(s[1..]);
    }
  }

  function Header(length: nat): Bytes { HEADER_PREFIX + Decimal(length) }

  lemma HeaderBytes(length: nat)
    ensures forall i | 0 <= i < |Header(length)| :: 32 <= Header(length)[i] < 0x80
  {
  }

  lemma NotInHeader(s: Bytes, needle: Bytes, length: nat, i: int)
    requires Header(length) <= s && needle != [] && needle[0] == 13 && i < |Header(length)|
    ensures !OccursAt(s, needle, i)
  {
    HeaderBytes(length);
    if 0 <= i && i + |needle| <= |s| {
      assert s[i..i + |needle|][0] == s[i] == Header(length)[i] != needle[0];
    }
  }

  lemma HeaderParses(length: nat)
    requires length <= USIZE_MAX
    ensures ParseContentLength(Header(length)) == Some(length)
  {
    hide Width, FirstScalar, Scalars, Decimal, ParseDigits, Trim;
    var h := Header(length);
    HeaderBytes(length);
    ScalarsOfAscii(h);
    forall i ensures !OccursAt(h, CRLF, i) {
      if i < |h| {
        NotInHeader(h, CRLF, length, i);
      }
    }
    assert FindSubsequence(h, CRLF).None?;
    assert IsContentLength(h);
    HeaderValue(length);
  }

  lemma HeaderValue(length: nat)
    requires length <= USIZE_MAX
    ensures ParseUsize(Trim(Scalars(Header(length)[|HEADER_NAME|..]))) == Some(length)
  {
    hide Width, FirstScalar, Scalars, Trim, Decimal;
    var ds := Decimal(length);
    var value: Bytes := [32] + ds;
    assert Header(length)[|HEADER_NAME|..] == value;
    ScalarsOfAscii(value);
    TrimNumber(ds);
    DecimalReadsBack(length);
    assert IsDigit(ds[0]);
  }

  lemma TrimNumber(ds: Bytes)
    requires ds != [] && forall i | 0 <= i < |ds| :: IsDigit(ds[i])
    ensures Trim([32] + ds) == ds
  {
    var value: seq<scalar> := [32] + ds;
    assert value[0] == 32 && value[1..] == ds;
    assert IsDigit(ds[0]) && IsDigit(ds[|ds| - 1]);
    assert Trim(ds) == ds;
  }

  // ---------- frames ----------

  /** `LspCodec::encode` on an already serialised body. */
  function EncodeFrame(body: Bytes): Bytes {
    Header(|body|) + HEADER_TERMINATOR + body
  }

  // What a stream starts with: no complete header yet, an unusable one, or a header of `size` bytes (terminator
  // included) announcing `length` bytes of body.
  datatype Front = NoHeader | BadHeader | Announced(size: nat, length: nat)

  function ReadHeader(s: Bytes): (r: Front)
    ensures r.Announced? ==> 4 <= r.size <= |s|
  {
    match FindSubsequence(s, HEADER_TERMINATOR)
    case None => NoHeader
    case Some(end) =>
      match ParseContentLength(s[..end])
      case None => BadHeader
      case Some(length) => Announced(end + |HEADER_TERMINATOR|, length)
  }

  /** A header ends at the first empty line; it is usable exactly if its lines tell a length. */
  lemma ReadHeaderAt(s: Bytes, end: nat)
    requires forall i | 0 <= i < end && i + 4 <= |s| ::
               !(s[i] == 13 && s[i + 1] == 10 && s[i + 2] == 13 && s[i + 3] == 10)
    ensures end + 4 > |s| ==> ReadHeader(s) == NoHeader
    ensures end + 4 <= |s| && s[end..end + 4] == [13, 10, 13, 10] ==>
              ReadHeader(s) == match ParseContentLength(s[..end])
                               case None => BadHeader
                               case Some(length) => Announced(end + 4, length)
  {
    hide ParseContentLength;
    forall i | 0 <= i < end && i + 4 <= |s| ensures !OccursAt(s, HEADER_TERMINATOR, i) {
      TerminatorBytes(s, i);
    }
    if end + 4 <= |s| && s[end..end + 4] == [13, 10, 13, 10] {
      FirstOccurrence(s, HEADER_TERMINATOR, end);
    }
  }

  lemma NoCrLf(line: Bytes, i: nat)
    requires OneLine(line) && i + 1 < |line|
    ensures !(line[i] == 13 && line[i + 1] == 10)
  {
    assert !OccursAt(line, CRLF, i);
    assert line[i..i + 2] == [line[i], line[i + 1]];
  }

  lemma TerminatorBytes(s: Bytes, i: nat)
    requires i + 4 <= |s|
    ensures OccursAt(s, HEADER_TERMINATOR, i) <==> s[i] == 13 && s[i + 1] == 10 && s[i + 2] == 13 && s[i + 3] == 10
  {
    assert s[i..i + 4] == [s[i], s[i + 1], s[i + 2], s[i + 3]];
  }

  lemma StartsNoCrLf(lines: seq<Bytes>, more: Bytes)
    requires lines != [] && OneLine(lines[0]) && lines[0] != []
    ensures var s := JoinLines(lines) + HEADER_TERMINATOR + more;
            |s| >= 2 && !(s[0] == 13 && s[1] == 10)
  {
    var s, first := JoinLines(lines) + HEADER_TERMINATOR + more, lines[0];
    assert forall k | 0 <= k < |first| :: s[k] == first[k];
    assert s[|first|] == 13;
    if |first| > 1 {
      NoCrLf(first, 0);
    }
  }

  /** Header lines that hold no line end and are not empty hold no empty line, up to the one that follows them. */
  lemma {:induction false} NoTerminatorIn(lines: seq<Bytes>, more: Bytes, i: nat)
    requires lines != [] && forall l | l in lines :: OneLine(l) && l != []
    requires i < |JoinLines(lines)|
    ensures !OccursAt(JoinLines(lines) + HEADER_TERMINATOR + more, HEADER_TERMINATOR, i)
    decreases |lines|
  {
    hide OneLine, OccursAt;
    var s := JoinLines(lines) + HEADER_TERMINATOR + more;
    var first := lines[0];
    TerminatorBytes(s, i);
    assert forall k | 0 <= k < |first| :: s[k] == first[k];
    assert s[|first|] == 13 && s[|first| + 1] == 10;
    if i + 1 < |first| {
      NoCrLf(first, i);
    } else if |lines| > 1 && i >= |first| {
      var rest := JoinLines(lines[1..]) + HEADER_TERMINATOR + more;
      assert s[|first| + 2..] == rest;
      assert forall k | |first| + 2 <= k < |s| :: s[k] == rest[k - |first| - 2];
      if i == |first| {
        StartsNoCrLf(lines[1..], more);
      } else if i > |first| + 1 {
        NoTerminatorIn(lines[1..], more, i - |first| - 2);
        TerminatorBytes(rest, i - |first| - 2);
      }
    }
  }

  /** Whatever lines a header consists of: the first that starts with `content-length:`, in any letter case, tells the
      length, if what follows is a number within white space; without such a line, with another value, or with bytes
      that are no text the header is an error. */
  lemma HeaderOfLines(lines: seq<Bytes>, k: nat, more: Bytes)
    requires lines != [] && k <= |lines| && forall l | l in lines :: OneLine(l) && l != []
    requires forall i | 0 <= i < k :: !IsContentLength(lines[i])
    requires k < |lines| ==> IsContentLength(lines[k])
    ensures ReadHeader(JoinLines(lines) + HEADER_TERMINATOR + more)
            == if k == |lines| || !Valid(JoinLines(lines)) then BadHeader
               else match ParseUsize(Trim(Scalars(lines[k][15..])))
                    case None => BadHeader
                    case Some(length) => Announced(|JoinLines(lines)| + 4, length)
  {
    hide IsContentLength, ParseUsize, Trim, Scalars, OneLine, JoinLines, ParseLines, ReadHeader, OccursAt, Valid;
    var h := JoinLines(lines);
    var s := h + HEADER_TERMINATOR + more;
    forall i | 0 <= i < |h| && i + 4 <= |s|
      ensures !(s[i] == 13 && s[i + 1] == 10 && s[i + 2] == 13 && s[i + 3] == 10)
    {
      NoTerminatorIn(lines, more, i);
      TerminatorBytes(s, i);
    }
    assert s[|h|..|h| + 4] == [13, 10, 13, 10] && s[..|h|] == h;
    ReadHeaderAt(s, |h|);
    FirstMatchDecides(lines, k);
  }

  /** In particular a length may be announced under a name of any letter case. */
  lemma HeaderInAnyCase(name: Bytes, length: nat, more: Bytes)
    requires |name| == 15 && length <= USIZE_MAX
    requires forall k | 0 <= k < 15 ::
               name[k] == HEADER_NAME[k]
               || ('a' as int <= HEADER_NAME[k] <= 'z' as int && name[k] == HEADER_NAME[k] - 32)
    ensures ReadHeader(name + [32] + Decimal(length) + HEADER_TERMINATOR + more)
            == Announced(15 + 1 + |Decimal(length)| + 4, length)
  {
    hide Width, FirstScalar, Scalars, Trim, Decimal, ParseUsize;
    var ds := Decimal(length);
    var line, value: Bytes := name + [32] + ds, [32] + ds;
    assert line[15..] == value && line[..15] == name;
    assert forall k | 0 <= k < 15 :: line[k] == name[k];
    ContentLengthNames(line);
    assert forall i | 0 <= i < |line| :: 32 <= line[i] < 0x80;
    ScalarsOfAscii(line);
    ScalarsOfAscii(value);
    TrimNumber(ds);
    HeaderValue(length);
    assert Header(length)[|HEADER_NAME|..] == value;
    forall i ensures !OccursAt(line, CRLF, i) {
      if 0 <= i && i + 2 <= |line| {
        assert line[i..i + 2][0] == line[i] != 13;
      }
    }
    HeaderOfLines([line], 0, more);
  }

  /** A header that has been read is not read differently when more arrives. */
  lemma ReadHeaderExtends(s: Bytes, more: Bytes)
    requires ReadHeader(s) != NoHeader
    ensures ReadHeader(s + more) == ReadHeader(s)
  {
    hide ParseContentLength;
    var end := FindSubsequence(s, HEADER_TERMINATOR).value;
    forall i | i <= end ensures OccursAt(s, HEADER_TERMINATOR, i) <==> OccursAt(s + more, HEADER_TERMINATOR, i) {
      if 0 <= i {
        assert (s + more)[i..i + 4] == s[i..i + 4];
      }
    }
    FirstOccurrence(s + more, HEADER_TERMINATOR, end);
    assert (s + more)[..end] == s[..end];
  }

  lemma FirstOccurrence(haystack: Bytes, needle: Bytes, i: nat)
    requires OccursAt(haystack, needle, i) && forall j | j < i :: !OccursAt(haystack, needle, j)
    ensures FindSubsequence(haystack, needle) == Some(i)
  {
  }

  /** The header of a frame is read back, even if its body contains terminators of its own. */
  lemma FrameHeader(body: Bytes, more: Bytes)
    requires |body| <= USIZE_MAX
    ensures ReadHeader(EncodeFrame(body) + more) == Announced(|Header(|body|)| + 4, |body|)
  {
    hide ParseContentLength, Header;
    var h := Header(|body|);
    var s := EncodeFrame(body) + more;
    HeaderParses(|body|);
    assert s[|h|..|h| + 4] == HEADER_TERMINATOR;
    forall i | i < |h| ensures !OccursAt(s, HEADER_TERMINATOR, i) {
      NotInHeader(s, HEADER_TERMINATOR, |body|, i);
    }
    FirstOccurrence(s, HEADER_TERMINATOR, |h|);
    assert s[..|h|] == h;
  }

  /** A frame cut short is no header, or a header whose body has not arrived. */
  lemma PartialFrame(body: Bytes, k: nat)
    requires |body| <= USIZE_MAX && k < |EncodeFrame(body)|
    ensures var s := EncodeFrame(body)[..k];
            ReadHeader(s) == if k < |Header(|body|)| + 4 then NoHeader else Announced(|Header(|body|)| + 4, |body|)
  {
    hide ParseContentLength, Header;
    var h, frame := Header(|body|), EncodeFrame(body);
    var s := frame[..k];
    FrameHeader(body, []);
    assert frame + [] == frame && s + frame[k..] == frame;
    if k >= |h| + 4 {
      assert s[|h|..|h| + 4] == HEADER_TERMINATOR;
      assert OccursAt(s, HEADER_TERMINATOR, |h|);
    }
    if ReadHeader(s) != NoHeader {
      ReadHeaderExtends(s, frame[k..]);
    }
  }

  // ---------- one call of `decode` ----------

  // The decoder's hidden state and the bytes it has not consumed.
  datatype Decoder = Decoder(contentLength: Option<nat>, buffer: Bytes)

  datatype Item<M> = Message(message: M) | BadBody

  // `Ok(None)`, `Ok(Some(message))` or the error of an unparsable body, and the error of a bad header.
  datatype Outcome<M> = NeedMore | Yield(item: Item<M>) | HeaderError

  function ParseItem<M>(body: Bytes, parse: Bytes -> Option<M>): Item<M> {
    match parse(body)
    case None => BadBody
    case Some(message) => Message(message)
  }

  function DecodeBody<M>(length: nat, buffer: Bytes, parse: Bytes -> Option<M>): (Outcome<M>, Decoder) {
    if |buffer| < length then (NeedMore, Decoder(Some(length), buffer))
    else (Yield(ParseItem(buffer[..length], parse)), Decoder(None, buffer[length..]))
  }

  function Decode<M>(d: Decoder, parse: Bytes -> Option<M>): (r: (Outcome<M>, Decoder))
    ensures r.0.Yield? ==> Size(r.1) < Size(d)
  {
    match d.contentLength
    case Some(length) => DecodeBody(length, d.buffer, parse)
    case None =>
      match ReadHeader(d.buffer)
      case NoHeader => (NeedMore, d)
      case BadHeader => (HeaderError, d)
      case Announced(size, length) => DecodeBody(length, d.buffer[size..], parse)
  }

  function Size(d: Decoder): nat { |d.buffer| + if d.contentLength.Some? then 1 else 0 }

  function Append(d: Decoder, more: Bytes): Decoder { d.(buffer := d.buffer + more) }

  // Items in order, whether a header error ended them, and what is left.
  datatype Drained<M> = Drained(items: seq<Item<M>>, failed: bool, rest: Decoder)

  /** Calling `decode` until it returns `None` or a header error. */
  function Drain<M>(d: Decoder, parse: Bytes -> Option<M>): Drained<M>
    decreases Size(d)
  {
    var (outcome, d') := Decode(d, parse);
    match outcome
    case NeedMore => Drained([], false, d')
    case HeaderError => Drained([], true, d')
    case Yield(item) =>
      var r := Drain(d', parse);
      r.(items := [item] + r.items)
  }

  /** Feeding the decoder chunk by chunk, draining it after each, up to the first header error. */
  function Feed<M>(d: Decoder, chunks: seq<Bytes>, parse: Bytes -> Option<M>): Drained<M>
    decreases |chunks|
  {
    if chunks == [] then Drained([], false, d)
    else
      var first := Drain(Append(d, chunks[0]), parse);
      if first.failed then first
      else
        var r := Feed(first.rest, chunks[1..], parse);
        r.(items := first.items + r.items)
  }

  // ---------- the one-shot splitter ----------

  datatype Splitting<M> = Splitting(items: seq<Item<M>>, failed: bool, rest: Bytes)

  /** Cuts a whole stream into frames. */
  function Split<M>(s: Bytes, parse: Bytes -> Option<M>): Splitting<M>
    decreases |s|
  {
    match ReadHeader(s)
    case NoHeader => Splitting([], false, s)
    case BadHeader => Splitting([], true, s)
    case Announced(size, length) =>
      if |s| < size + length then Splitting([], false, s)
      else
        var r := Split(s[size + length..], parse);
        r.(items := [ParseItem(s[size..size + length], parse)] + r.items)
  }

  /** The decoder that has seen the unconsumed bytes `rest` and nothing else: a complete header moves into the
      hidden state, the remainder is the buffer. */
  function Waiting(rest: Bytes): Decoder {
    match ReadHeader(rest)
    case Announced(size, length) => Decoder(Some(length), rest[size..])
    case _ => Decoder(None, rest)
  }

  const START := Decoder(None, [])

  lemma {:induction false} DrainIsSplit<M>(s: Bytes, parse: Bytes -> Option<M>)
    ensures var d, r := Drain(Decoder(None, s), parse), Split(s, parse);
            d.items == r.items && d.failed == r.failed && d.rest == Waiting(r.rest)
    decreases |s|
  {
    hide ReadHeader;
    match ReadHeader(s)
    case Announced(size, length) =>
      if |s| >= size + length {
        DrainIsSplit(s[size + length..], parse);
        assert s[size..][..length] == s[size..size + length];
        assert s[size..][length..] == s[size + length..];
      }
    case _ =>
  }

  /** One call decides the same when more bytes are already there. */
  lemma DecodeMore<M>(d: Decoder, more: Bytes, parse: Bytes -> Option<M>)
    ensures var ((o, d'), (p, e)) := (Decode(d, parse), Decode(Append(d, more), parse));
            && (o.Yield? ==> p == o && e == Append(d', more))
            && (o.HeaderError? ==> p.HeaderError? && e == Append(d, more) == Append(d', more))
            && (o.NeedMore? ==> (p, e) == Decode(Append(d', more), parse))
  {
    hide ReadHeader;
    var b := d.buffer;
    match d.contentLength
    case Some(length) =>
      BodyMore(b, more, length);
    case None =>
      if ReadHeader(b) != NoHeader {
        ReadHeaderExtends(b, more);
        if ReadHeader(b).Announced? {
          var size, length := ReadHeader(b).size, ReadHeader(b).length;
          assert (b + more)[size..] == b[size..] + more;
          BodyMore(b[size..], more, length);
        }
      }
  }

  lemma BodyMore(b: Bytes, more: Bytes, length: nat)
    ensures length <= |b| ==> (b + more)[..length] == b[..length] && (b + more)[length..] == b[length..] + more
  {
  }

  lemma {:induction false} DrainMore<M>(d: Decoder, more: Bytes, parse: Bytes -> Option<M>)
    ensures var first, all := Drain(d, parse), Drain(Append(d, more), parse);
            if first.failed then all.failed && all.items == first.items
            else
              var second := Drain(Append(first.rest, more), parse);
              all == second.(items := first.items + second.items)
    decreases Size(d)
  {
    hide Decode;
    DecodeMore(d, more, parse);
    var (outcome, d') := Decode(d, parse);
    if outcome.Yield? {
      DrainMore(d', more, parse);
    }
  }

  lemma {:induction false} DrainedStays<M>(d: Decoder, parse: Bytes -> Option<M>)
    ensures var r := Drain(d, parse).rest; !Drain(d, parse).failed ==> Drain(r, parse) == Drained([], false, r)
    decreases Size(d)
  {
    hide ReadHeader;
    var (outcome, d') := Decode(d, parse);
    if outcome.Yield? {
      DrainedStays(d', parse);
    }
  }

  lemma {:induction false} FeedIsDrain<M>(d: Decoder, chunks: seq<Bytes>, parse: Bytes -> Option<M>)
    requires Drain(d, parse) == Drained([], false, d)
    ensures var fed, all := Feed(d, chunks, parse), Drain(Append(d, Flatten(chunks)), parse);
            fed.items == all.items && fed.failed == all.failed && (!all.failed ==> fed.rest == all.rest)
    decreases |chunks|
  {
    if chunks == [] {
      assert Append(d, []) == d;
    } else {
      var first := Append(d, chunks[0]);
      var rest := Flatten(chunks[1..]);
      assert Append(first, rest) == Append(d, Flatten(chunks));
      DrainMore(first, rest, parse);
      if !Drain(first, parse).failed {
        DrainedStays(first, parse);
        FeedIsDrain(Drain(first, parse).rest, chunks[1..], parse);
      }
    }
  }

  /** However a stream is cut into chunks, the decoder yields what the splitter makes of the whole stream, and in
      the end stands exactly at the splitter's unconsumed suffix. */
  lemma ChunkingInvariance<M>(chunks: seq<Bytes>, parse: Bytes -> Option<M>)
    ensures var fed, whole := Feed(START, chunks, parse), Split(Flatten(chunks), parse);
            && fed.items == whole.items
            && fed.failed == whole.failed
            && (!whole.failed ==> fed.rest == Waiting(whole.rest))
  {
    FeedIsDrain(START, chunks, parse);
    DrainIsSplit(Flatten(chunks), parse);
    assert [] + Flatten(chunks) == Flatten(chunks);
  }

  /** A header error is final: nothing is consumed, and no later bytes repair it. */
  lemma HeaderErrorStays<M>(d: Decoder, more: Bytes, parse: Bytes -> Option<M>)
    requires Decode(d, parse).0.HeaderError?
    ensures Decode(d, parse).1 == d
    ensures Decode(Append(d, more), parse) == (HeaderError, Append(d, more))
  {
    DecodeMore(d, more, parse);
  }

  /** A frame cut short yields nothing and is no error. */
  lemma PartialFrameWaits<M>(body: Bytes, k: nat, parse: Bytes -> Option<M>)
    requires |body| <= USIZE_MAX && k < |EncodeFrame(body)|
    ensures var s := EncodeFrame(body)[..k]; Split(s, parse) == Splitting([], false, s)
  {
    hide ReadHeader;
    PartialFrame(body, k);
  }

  lemma NothingWaits<M>(parse: Bytes -> Option<M>)
    ensures Split([], parse) == Splitting([], false, [])
  {
    PartialFrameWaits([], 0, parse);
  }

  /** Draining may be interrupted anywhere: the first part of a stream, then the rest, is the whole stream. */
  lemma SplitMore<M>(s: Bytes, more: Bytes, parse: Bytes -> Option<M>)
    requires !Split(s, parse).failed
    ensures var first, all := Split(s, parse), Split(s + more, parse);
            var second := Drain(Append(Waiting(first.rest), more), parse);
            && all.items == first.items + second.items
            && all.failed == second.failed
            && second.rest == Waiting(all.rest)
  {
    hide ReadHeader, Decode, Waiting, Split, Drain;
    DrainIsSplit(s, parse);
    DrainIsSplit(s + more, parse);
    DrainMore(Decoder(None, s), more, parse);
  }

  /** Decoding an encoded frame consumes exactly that frame, whether its body parses or not. */
  lemma FrameRoundTrip<M>(body: Bytes, more: Bytes, parse: Bytes -> Option<M>)
    requires |body| <= USIZE_MAX
    ensures Decode(Decoder(None, EncodeFrame(body) + more), parse)
            == (Yield(match parse(body) case None => BadBody case Some(m) => Message(m)), Decoder(None, more))
    ensures var r := Split(more, parse);
            Split(EncodeFrame(body) + more, parse) == r.(items := [ParseItem(body, parse)] + r.items)
  {
    var s, size := EncodeFrame(body) + more, |Header(|body|)| + 4;
    FrameHeader(body, more);
    assert s[size..size + |body|] == body && s[size..][..|body|] == body;
    assert s[size + |body|..] == more && s[size..][|body|..] == more;
  }
}
