/** What an LSP position means in a text (LSP 3.17, "Text Documents" and "Position"): lines end at `\n`, `\r\n` or
    `\r`, and a character offset counts UTF-16 code units. The scanners of the formatter server are proved against
    the functions here; the lemmas say how the two directions, offset to position and back, determine each other. */
module Positions {
  import opened Wrappers
  import opened Utf8

  const LF: byte := 10
  const CR: byte := 13

  // A line and a UTF-16 character offset; also the extent of a text: how many line ends it holds, and how many
  // UTF-16 units follow the last of them.
  datatype Point = Point(line: nat, character: nat)

  // `lsp_types::Position`: both counters are `u32`.
  type Position = p: Point | p.line <= U32_MAX && p.character <= U32_MAX witness Point(0, 0)

  predicate AtOrBefore(p: Point, q: Point) {
    p.line < q.line || (p.line == q.line && p.character <= q.character)
  }

  /** Where one ends up from `p` after a text of extent `q`. */
  function Plus(p: Point, q: Point): Point {
    if q.line == 0 then Point(p.line, p.character + q.character) else Point(p.line + q.line, q.character)
  }

  // ---------- tokens: a line end, or a scalar that is none ----------

  predicate AtEol(s: Bytes)
    requires s != []
  {
    s[0] == LF || s[0] == CR
  }

  lemma AfterCrLf(s: Bytes)
    requires Valid(s) && |s| > 1 && s[0] == CR && s[1] == LF
    ensures Valid(s[2..])
  {
    var rest := s[1..];
    assert Width(s) == 1 && Valid(rest) && Width(rest) == 1;
    assert rest[1..] == s[2..];
  }

  function TokenWidth(s: Bytes): (w: nat)
    requires Valid(s) && s != []
    ensures 0 < w <= |s| && Valid(s[w..])
  {
    if s[0] == CR && |s| > 1 && s[1] == LF then
      assert Valid(s[2..]) by { AfterCrLf(s); }
      2
    else
      Width(s)
  }

  function TokenExtent(s: Bytes): Point
    requires Valid(s) && s != []
  {
    if AtEol(s) then Point(1, 0) else Point(0, LenUtf16(FirstScalar(s)))
  }

  function AfterToken(s: Bytes): (rest: Bytes)
    requires Valid(s) && s != []
    ensures Valid(rest) && |rest| < |s|
  {
    s[TokenWidth(s)..]
  }

  /** `o` lies between two tokens of `s`. */
  predicate TokenBoundary(s: Bytes, o: nat)
    requires Valid(s)
    decreases |s|
  {
    o == 0 || (s != [] && TokenWidth(s) <= o && TokenBoundary(AfterToken(s), o - TokenWidth(s)))
  }

  predicate InsideCrLf(s: Bytes, o: nat) {
    0 < o < |s| && s[o - 1] == CR && s[o] == LF
  }

  lemma {:induction false} TokenBoundaryIsSafe(s: Bytes, o: nat)
    requires Valid(s) && o <= |s|
    ensures TokenBoundary(s, o) <==> IsCharBoundary(s, o) && !InsideCrLf(s, o)
    decreases |s|
  {
    hide Width, FirstScalar, Valid, TokenWidth;
    if 0 < o {
      var w := TokenWidth(s);
      if w <= o {
        var rest := AfterToken(s);
        TokenBoundaryIsSafe(rest, o - w);
        assert o < |s| ==> s[o] == rest[o - w];
        assert w < o ==> s[o - 1] == rest[o - w - 1];
        TokenEndIsSafe(s);
      } else {
        TokenInsideIsUnsafe(s, o);
      }
    }
  }

  lemma TokenEndIsSafe(s: Bytes)
    requires Valid(s) && s != []
    ensures IsCharBoundary(s, TokenWidth(s)) && !InsideCrLf(s, TokenWidth(s))
  {
    var w, rest := TokenWidth(s), AfterToken(s);
    CrEndsNoOtherToken(s);
    if w < |s| {
      StartsNoTail(rest);
      assert rest[0] == s[w];
    }
  }

  lemma StartsNoTail(s: Bytes)
    requires Valid(s) && s != []
    ensures !IsTail(s[0])
  {
  }

  lemma TokenInsideIsUnsafe(s: Bytes, o: nat)
    requires Valid(s) && 0 < o < |s| && o < TokenWidth(s)
    ensures !(IsCharBoundary(s, o) && !InsideCrLf(s, o))
  {
  }

  /** Both halves of a text cut between tokens are texts, and the cut keeps the first token. */
  lemma CutAtBoundary(s: Bytes, o: nat)
    requires Valid(s) && TokenBoundary(s, o) && o <= |s|
    ensures Valid(s[..o]) && Valid(s[o..])
    ensures o > 0 ==> TokenWidth(s[..o]) == TokenWidth(s) <= o && TokenExtent(s[..o]) == TokenExtent(s)
    ensures o > 0 ==> AfterToken(s[..o]) == AfterToken(s)[..o - TokenWidth(s)]
  {
    hide Width, FirstScalar, Valid;
    TokenBoundaryIsSafe(s, o);
    CharBoundarySplits(s, o);
    if o > 0 {
      TokenOfPrefix(s, o);
    }
  }

  // ---------- from a text to its extent ----------

  /** The position just after `s`. */
  function Extent(s: Bytes): Point
    requires Valid(s)
    decreases |s|
  {
    if s == [] then Point(0, 0) else Plus(TokenExtent(s), Extent(AfterToken(s)))
  }

  /** The position of byte offset `o` of `content`, as an editor reports it. */
  function PositionAt(content: Bytes, o: nat): Point
    requires Valid(content) && o <= |content| && Valid(content[..o])
  {
    Extent(content[..o])
  }

  lemma {:induction false} ExtentBound(s: Bytes)
    requires Valid(s)
    ensures Extent(s).line + Extent(s).character <= |s|
    decreases |s|
  {
    if s != [] {
      ExtentBound(AfterToken(s));
    }
  }

  // ---------- from a position to an offset ----------

  /** The byte offset of position `p`: skip `p.line` line ends, then take scalars while they fit into
      `p.character` units and the line lasts. */
  function Offset(s: Bytes, p: Point): nat
    requires Valid(s)
    decreases |s|
  {
    if s == [] then 0
    else
      var e := TokenExtent(s);
      if !AtOrBefore(e, p) then 0
      else TokenWidth(s) + Offset(AfterToken(s), Minus(p, e))
  }

  /** What is left of `p` after a token of extent `e`. */
  function Minus(p: Point, e: Point): Point
    requires AtOrBefore(e, p)
  {
    if e.line < p.line then Point(p.line - e.line, p.character)
    else if e.line == 0 then Point(0, p.character - e.character)
    else Point(0, p.character)
  }

  lemma {:induction false} OffsetIsBoundary(s: Bytes, p: Point)
    requires Valid(s)
    ensures Offset(s, p) <= |s| && TokenBoundary(s, Offset(s, p))
    decreases |s|
  {
    hide Width, FirstScalar, Valid, TokenWidth, TokenExtent;
    if s != [] && AtOrBefore(TokenExtent(s), p) {
      OffsetIsBoundary(AfterToken(s), Minus(p, TokenExtent(s)));
    }
  }

  /** The two directions are adjoint: a Galois connection between the boundaries of a text and positions, which are
      ordered by line and then by character. */
  lemma {:induction false} Galois(s: Bytes, o: nat, p: Point)
    requires Valid(s) && o <= |s| && TokenBoundary(s, o)
    ensures Valid(s[..o])
    ensures AtOrBefore(PositionAt(s, o), p) <==> o <= Offset(s, p)
    ensures AtOrBefore(PositionAt(s, o), p)
            <==> PositionAt(s, o).line < p.line
                 || (PositionAt(s, o).line == p.line && PositionAt(s, o).character <= p.character)
    decreases |s|
  {
    hide Width, FirstScalar, Valid, TokenWidth, LenUtf16;
    CutAtBoundary(s, o);
    if o > 0 {
      var e, rest, o' := TokenExtent(s), AfterToken(s), o - TokenWidth(s);
      CutAtBoundary(rest, o');
      assert PositionAt(s, o) == Plus(e, PositionAt(rest, o'));
      if AtOrBefore(e, p) {
        Galois(rest, o', Minus(p, e));
      }
    }
  }

  /** A byte offset is recovered from its position exactly when it is not inside a `\r\n`; there, the position
      denotes the offset after the `\n`. */
  lemma RecoveredIffSafe(s: Bytes, o: nat)
    requires Valid(s) && o <= |s| && IsCharBoundary(s, o)
    ensures Valid(s[..o])
    ensures Offset(s, PositionAt(s, o)) == o <==> !InsideCrLf(s, o)
    ensures InsideCrLf(s, o) ==> Offset(s, PositionAt(s, o)) == o + 1
  {
    hide Width, FirstScalar, Valid, Extent, Offset, PositionAt, TokenBoundary, IsCharBoundary;
    CharBoundarySplits(s, o);
    if InsideCrLf(s, o) {
      InsideCrLfReadsAfter(s, o);
      RecoveredAtBoundary(s, o + 1);
    } else {
      TokenBoundaryIsSafe(s, o);
      RecoveredAtBoundary(s, o);
    }
  }

  lemma RecoveredAtBoundary(s: Bytes, o: nat)
    requires Valid(s) && o <= |s| && TokenBoundary(s, o)
    ensures Valid(s[..o]) && Offset(s, PositionAt(s, o)) == o
  {
    hide Valid, Offset, Extent, TokenBoundary;
    CutAtBoundary(s, o);
    var p := PositionAt(s, o);
    Galois(s, o, p);
    OffsetIsBoundary(s, p);
    Galois(s, Offset(s, p), p);
    StrictlyIncreasing(s, o, Offset(s, p));
  }

  lemma {:induction false} StrictlyIncreasing(s: Bytes, o1: nat, o2: nat)
    requires Valid(s) && o1 <= o2 <= |s| && TokenBoundary(s, o1) && TokenBoundary(s, o2)
    ensures Valid(s[..o1]) && Valid(s[..o2])
    ensures o1 < o2 <==> !AtOrBefore(PositionAt(s, o2), PositionAt(s, o1))
    decreases |s|
  {
    hide Width, FirstScalar, Valid, TokenWidth;
    CutAtBoundary(s, o1);
    CutAtBoundary(s, o2);
    if o1 > 0 {
      var w, rest := TokenWidth(s), AfterToken(s);
      StrictlyIncreasing(rest, o1 - w, o2 - w);
    }
  }

  lemma {:induction false} InsideCrLfReadsAfter(s: Bytes, o: nat)
    requires Valid(s) && InsideCrLf(s, o)
    ensures Valid(s[..o]) && Valid(s[..o + 1]) && TokenBoundary(s, o + 1)
    ensures PositionAt(s, o) == PositionAt(s, o + 1)
    decreases |s|
  {
    hide Width, FirstScalar, Valid;
    var w, rest := TokenWidth(s), AfterToken(s);
    if o < w {
      TokenIsCrLf(s, o);
    } else {
      CrEndsNoOtherToken(s);
      assert InsideCrLf(rest, o - w);
      InsideCrLfReadsAfter(rest, o - w);
      CutAfterToken(s, o);
      CutAfterToken(s, o + 1);
    }
  }

  lemma CutAfterToken(s: Bytes, o: nat)
    requires Valid(s) && s != [] && TokenWidth(s) <= o <= |s| && Valid(AfterToken(s)[..o - TokenWidth(s)])
    ensures Valid(s[..o]) && TokenWidth(s[..o]) == TokenWidth(s) && TokenExtent(s[..o]) == TokenExtent(s)
    ensures AfterToken(s[..o]) == AfterToken(s)[..o - TokenWidth(s)]
  {
    hide Width, FirstScalar, Valid, TokenWidth, TokenExtent, TokenBoundary;
    var w := TokenWidth(s);
    FirstTokenIsCut(s);
    ValidConcat(s[..w], AfterToken(s)[..o - w]);
    assert s[..o] == s[..w] + AfterToken(s)[..o - w];
    TokenOfPrefix(s, o);
  }

  lemma FirstTokenIsCut(s: Bytes)
    requires Valid(s) && s != []
    ensures TokenBoundary(s, TokenWidth(s)) && Valid(s[..TokenWidth(s)])
  {
    hide Width, FirstScalar, Valid, TokenWidth, TokenExtent;
    assert TokenBoundary(AfterToken(s), 0);
    CutAtBoundary(s, TokenWidth(s));
  }

  /** The first token of a text reads the same in every prefix that holds it. */
  lemma TokenOfPrefix(s: Bytes, o: nat)
    requires Valid(s) && s != [] && TokenWidth(s) <= o <= |s| && Valid(s[..o])
    ensures TokenWidth(s[..o]) == TokenWidth(s) && TokenExtent(s[..o]) == TokenExtent(s)
    ensures AfterToken(s[..o]) == AfterToken(s)[..o - TokenWidth(s)]
  {
    hide Width, FirstScalar;
    WidthOfPrefix(s, o) by { TokenHoldsScalar(s); }
    assert s[..o][0] == s[0] && (o > 1 ==> s[..o][1] == s[1]);
  }

  lemma TokenHoldsScalar(s: Bytes)
    requires Valid(s) && s != []
    ensures 0 < Width(s) <= TokenWidth(s)
  {
  }

  lemma TokenIsCrLf(s: Bytes, o: nat)
    requires Valid(s) && InsideCrLf(s, o) && o < TokenWidth(s)
    ensures o == 1 && TokenWidth(s) == 2 && TokenBoundary(s, 2)
    ensures Valid(s[..1]) && Valid(s[..2]) && Extent(s[..1]) == Extent(s[..2]) == Point(1, 0)
  {
    assert TokenBoundary(AfterToken(s), 0);
    var one, two: Bytes := s[..1], s[..2];
    assert one == [CR] && two == [CR, LF];
    assert Width(one) == Width(two) == 1 && one[1..] == [] && two[1..] == [LF];
    assert Width([LF]) == 1 && [LF][1..] == [];
    assert Valid([LF]) && Valid(one) && Valid(two);
    assert two[2..] == [];
    assert AfterToken(one) == [] && AfterToken(two) == [];
  }

  lemma CrEndsNoOtherToken(s: Bytes)
    requires Valid(s) && s != []
    ensures var w := TokenWidth(s);
            w < |s| && s[w - 1] == CR ==> s[w] != LF
  {
  }

  /** Later positions denote later offsets; so a range whose start is not after its end never runs backwards. */
  lemma OffsetMonotone(s: Bytes, p: Point, q: Point)
    requires Valid(s) && AtOrBefore(p, q)
    ensures Offset(s, p) <= Offset(s, q)
  {
    OffsetIsBoundary(s, p);
    Galois(s, Offset(s, p), p);
    Galois(s, Offset(s, p), q);
  }

  /** A range runs backwards in offsets exactly when some boundary of the text lies after its end but not after
      its start. */
  lemma BackwardsIff(s: Bytes, start: Point, end: Point)
    requires Valid(s)
    ensures Offset(s, end) < Offset(s, start) <==>
            exists o: nat :: o <= |s| && TokenBoundary(s, o) && Valid(s[..o])
                             && !AtOrBefore(PositionAt(s, o), end) && AtOrBefore(PositionAt(s, o), start)
  {
    forall o: nat | o <= |s| && TokenBoundary(s, o)
      ensures Valid(s[..o])
      ensures AtOrBefore(PositionAt(s, o), start) <==> o <= Offset(s, start)
      ensures AtOrBefore(PositionAt(s, o), end) <==> o <= Offset(s, end)
    {
      Galois(s, o, start);
      Galois(s, o, end);
    }
    OffsetIsBoundary(s, start);
  }

  /** A position past the end of the text denotes the end of the text. */
  lemma OffsetClamps(s: Bytes, p: Point)
    requires Valid(s)
    ensures Offset(s, p) == |s| <==> AtOrBefore(Extent(s), p)
  {
    WholeIsBoundary(s);
    assert s[..|s|] == s;
    Galois(s, |s|, p);
    OffsetIsBoundary(s, p);
  }

  lemma {:induction false} WholeIsBoundary(s: Bytes)
    requires Valid(s)
    ensures TokenBoundary(s, |s|)
    decreases |s|
  {
    if s != [] {
      WholeIsBoundary(AfterToken(s));
    }
  }

  // ---------- the same, line by line ----------

  datatype Line = Line(text: Bytes, eol: Bytes)

  /** The lines of a text, each with the line end that closes it; the last one has none. */
  function Lines(s: Bytes): (ls: seq<Line>)
    requires Valid(s)
    ensures |ls| > 0
    decreases |s|
  {
    if s == [] then [Line([], [])]
    else
      var first, rest := s[..TokenWidth(s)], Lines(AfterToken(s));
      if AtEol(s) then [Line([], first)] + rest
      else [rest[0].(text := first + rest[0].text)] + rest[1..]
  }

  function Join(ls: seq<Line>): Bytes {
    if ls == [] then [] else ls[0].text + ls[0].eol + Join(ls[1..])
  }

  /** The longest run of scalars at the start of `s` that takes at most `units` UTF-16 units, in bytes. */
  function Fit(s: Bytes, units: nat): nat {
    if Width(s) == 0 || LenUtf16(FirstScalar(s)) > units then 0
    else Width(s) + Fit(s[Width(s)..], units - LenUtf16(FirstScalar(s)))
  }

  predicate HasEol(s: Bytes) { LF in s || CR in s }

  predicate IsEol(s: Bytes) { s == [LF] || s == [CR] || s == [CR, LF] }

  /** No line text holds a line end, every line but the last is closed by one, and the last is not. */
  predicate AreLines(ls: seq<Line>) {
    && ls != []
    && (forall i | 0 <= i < |ls| :: Valid(ls[i].text) && !HasEol(ls[i].text))
    && (forall i | 0 <= i < |ls| - 1 :: IsEol(ls[i].eol))
    && ls[|ls| - 1].eol == []
  }

  lemma OneMoreLine(first: Line, ls: seq<Line>)
    requires AreLines(ls) && Valid(first.text) && !HasEol(first.text) && IsEol(first.eol)
    ensures AreLines([first] + ls)
  {
    hide Valid, HasEol, IsEol;
  }

  lemma LongerFirstLine(text: Bytes, ls: seq<Line>)
    requires AreLines(ls) && Valid(text) && !HasEol(text)
    ensures AreLines([ls[0].(text := text)] + ls[1..])
  {
    hide Valid, HasEol, IsEol;
  }

  /** `Lines` cuts a text at its line ends and nowhere else; a `\r\n` is one of them, and not two. */
  lemma LinesCutText(s: Bytes)
    requires Valid(s)
    ensures var ls := Lines(s);
            && (forall i | 0 <= i < |ls| :: 10 !in ls[i].text && 13 !in ls[i].text)
            && (forall i | 0 <= i < |ls| - 1 :: ls[i].eol == [10] || ls[i].eol == [13] || ls[i].eol == [13, 10])
            && ls[|ls| - 1].eol == []
            && (forall i | 0 <= i < |ls| - 1 && ls[i].eol == [13] :: !(ls[i + 1].text == [] && ls[i + 1].eol == [10]))
  {
    hide Width, FirstScalar, Valid, TokenWidth, AfterToken, Lines;
    LinesAreLines(s);
    CrLfIsOneEnd(s);
    var ls := Lines(s);
    forall i | 0 <= i < |ls| - 1 && ls[i].eol == [13] ensures !(ls[i + 1].text == [] && ls[i + 1].eol == [10]) {
      assert !CutsCrLf(ls, i);
    }
  }

  predicate CutsCrLf(ls: seq<Line>, i: nat)
    requires i + 1 < |ls|
  {
    ls[i].eol == [CR] && ls[i + 1].text == [] && ls[i + 1].eol == [LF]
  }

  lemma {:induction false} CrLfIsOneEnd(s: Bytes)
    requires Valid(s)
    ensures forall i: nat | i < |Lines(s)| - 1 :: !CutsCrLf(Lines(s), i)
    decreases |s|
  {
    hide Width, FirstScalar, Valid;
    if s != [] {
      CrLfIsOneEnd(AfterToken(s));
      StartsWithLf(AfterToken(s));
      var ls, tail := Lines(s), Lines(AfterToken(s));
      forall i: nat | i < |ls| - 1 ensures !CutsCrLf(ls, i) {
        if !AtEol(s) {
          assert !CutsCrLf(tail, i);
        } else if i > 0 {
          assert !CutsCrLf(tail, i - 1);
        } else {
          CrEndsNoOtherToken(s);
        }
      }
    }
  }

  lemma StartsWithLf(s: Bytes)
    requires Valid(s)
    ensures Lines(s)[0].text == [] && Lines(s)[0].eol == [LF] ==> s != [] && s[0] == LF
  {
    hide Width, FirstScalar, Valid;
    if s != [] {
      assert s[..TokenWidth(s)][0] == s[0];
    }
  }

  lemma {:induction false} LinesAreLines(s: Bytes)
    requires Valid(s)
    ensures AreLines(Lines(s))
    decreases |s|
  {
    hide Width, FirstScalar, Valid, HasEol, IsEol, TokenWidth, AfterToken, AreLines;
    EmptyLine();
    if s != [] {
      LinesAreLines(AfterToken(s));
      var first, tail := s[..TokenWidth(s)], Lines(AfterToken(s));
      if AtEol(s) {
        EolTokenIsEol(s);
        OneMoreLine(Line([], first), tail);
      } else {
        FirstLineIsLine(tail);
        PrependScalar(s, tail[0].text);
        LongerFirstLine(first + tail[0].text, tail);
      }
    }
  }

  lemma FirstLineIsLine(ls: seq<Line>)
    requires AreLines(ls)
    ensures ls != [] && Valid(ls[0].text) && !HasEol(ls[0].text)
  {
  }

  lemma EmptyLine()
    ensures Valid([]) && !HasEol([]) && AreLines([Line([], [])])
  {
  }

  lemma {:induction false} LinesJoin(s: Bytes)
    requires Valid(s)
    ensures Join(Lines(s)) == s
    decreases |s|
  {
    hide Width, FirstScalar, Valid, TokenWidth, AtEol, Join;
    JoinCons(Line([], []), []);
    assert [Line([], [])] + [] == [Line([], [])];
    if s != [] {
      LinesJoin(AfterToken(s));
      var first, tail := s[..TokenWidth(s)], Lines(AfterToken(s));
      assert s == first + AfterToken(s);
      JoinCons(Line([], first), tail);
      JoinPrepend(first, tail);
    }
  }

  lemma JoinCons(l: Line, ls: seq<Line>)
    ensures Join([]) == [] && Join([l] + ls) == l.text + l.eol + Join(ls)
  {
    assert ([l] + ls)[1..] == ls;
  }

  lemma JoinPrepend(first: Bytes, ls: seq<Line>)
    requires ls != []
    ensures Join([ls[0].(text := first + ls[0].text)] + ls[1..]) == first + Join(ls)
  {
    var joined := [ls[0].(text := first + ls[0].text)] + ls[1..];
    var a, b, c := ls[0].text, ls[0].eol, Join(ls[1..]);
    calc {
      Join(joined);
      { assert joined[1..] == ls[1..]; }
      first + a + b + c;
      { Concat4(first, a, b, c); }
      first + (a + b + c);
      first + Join(ls);
    }
  }

  lemma Concat4(a: Bytes, b: Bytes, c: Bytes, d: Bytes)
    ensures a + b + c + d == a + (b + c + d)
  {
  }

  lemma EolTokenIsEol(s: Bytes)
    requires Valid(s) && s != [] && AtEol(s)
    ensures Valid([])
    ensures IsEol(s[..TokenWidth(s)])
  {
  }

  /** Putting the first scalar of `s` in front of a line. */
  lemma PrependScalar(s: Bytes, line: Bytes)
    requires Valid(s) && s != [] && !AtEol(s)
    ensures var joined := s[..TokenWidth(s)] + line;
            && TokenWidth(s) == Width(s) == Width(joined) && FirstScalar(joined) == FirstScalar(s)
            && joined[Width(s)..] == line
            && (Valid(line) && !HasEol(line) ==> Valid(joined) && !HasEol(joined))
  {
    var w := Width(s);
    var joined := s[..w] + line;
    FirstScalarHasNoEol(s);
    WidthOfPrefix(s, w);
    assert joined[..w] == s[..w] && joined[w..] == line;
    assert Width(joined) == w;
    WidthOfPrefix(joined, w);
  }

  lemma FirstScalarHasNoEol(s: Bytes)
    requires Width(s) > 0 && !AtEol(s)
    ensures !HasEol(s[..Width(s)])
  {
    assert forall k | 0 < k < Width(s) :: IsTail(s[k]);
  }

  /** The number of UTF-16 code units of the last line. */
  function LastUnits(ls: seq<Line>): nat
    requires ls != []
  {
    |Utf16Units(Scalars(ls[|ls| - 1].text))|
  }

  lemma LastUnitsKept(first: Line, ls: seq<Line>)
    requires ls != []
    ensures LastUnits([first] + ls) == LastUnits(ls)
  {
  }

  /** The position after a text: the number of its line ends, and the number of UTF-16 code units of its last line. */
  lemma ExtentByLines(s: Bytes)
    requires Valid(s)
    ensures Extent(s) == Point(|Lines(s)| - 1, |Utf16Units(Scalars(Lines(s)[|Lines(s)| - 1].text))|)
  {
    hide Width, FirstScalar, Valid, Extent, Lines, Scalars, Utf16Units;
    ExtentOfLines(s);
  }

  lemma {:induction false} ExtentOfLines(s: Bytes)
    requires Valid(s)
    ensures Extent(s) == Point(|Lines(s)| - 1, LastUnits(Lines(s)))
    decreases |s|
  {
    hide Width, FirstScalar, Valid, TokenWidth, Utf16, LenUtf16, LastUnits;
    if s == [] {
      NoScalars();
    } else {
      ExtentOfLines(AfterToken(s));
      var first, tail := s[..TokenWidth(s)], Lines(AfterToken(s));
      if AtEol(s) {
        LastUnitsKept(Line([], first), tail);
      } else {
        var longer := tail[0].(text := first + tail[0].text);
        if |tail| == 1 {
          ScalarsOfPrepended(s, tail[0]);
          assert tail == [tail[0]] && Lines(s) == [longer];
        } else {
          LastUnitsKept(longer, tail[1..]);
          LastUnitsKept(tail[0], tail[1..]);
          assert tail == [tail[0]] + tail[1..];
        }
      }
    }
  }

  lemma NoScalars()
    ensures LastUnits([Line([], [])]) == 0
  {
  }

  lemma ScalarsOfPrepended(s: Bytes, line: Line)
    requires Valid(s) && s != [] && !AtEol(s)
    ensures LastUnits([line.(text := s[..TokenWidth(s)] + line.text)])
            == LenUtf16(FirstScalar(s)) + LastUnits([line])
  {
    hide Width, FirstScalar, Valid, TokenWidth, LenUtf16;
    PrependScalar(s, line.text);
    var joined := s[..TokenWidth(s)] + line.text;
    HasScalar(s);
    assert Scalars(joined) == [FirstScalar(s)] + Scalars(line.text);
    assert Scalars(joined)[1..] == Scalars(line.text);
  }

  lemma HasScalar(s: Bytes)
    requires Valid(s) && s != []
    ensures Width(s) > 0
  {
  }

  /** The start of line `p.line`, plus what fits into `p.character` units of it; the end if there is no such line. */
  function LineOffset(ls: seq<Line>, p: Point): nat {
    if p.line < |ls| then |Join(ls[..p.line])| + Fit(ls[p.line].text, p.character) else |Join(ls)|
  }

  lemma LineOffsetPastLine(first: Bytes, tail: seq<Line>, p: Point)
    ensures LineOffset([Line([], first)] + tail, p)
            == if p.line == 0 then 0 else |first| + LineOffset(tail, Point(p.line - 1, p.character))
  {
    hide Join, FirstScalar;
    var ls := [Line([], first)] + tail;
    JoinCons(ls[0], tail);
    if 0 < p.line < |ls| {
      assert ls[..p.line] == [ls[0]] + tail[..p.line - 1];
      JoinCons(ls[0], tail[..p.line - 1]);
    } else if p.line == 0 {
      assert ls[..0] == [];
    }
  }

  lemma LineOffsetPastScalar(first: Bytes, tail: seq<Line>, p: Point)
    requires tail != [] && p.line > 0
    ensures LineOffset([tail[0].(text := first + tail[0].text)] + tail[1..], p) == |first| + LineOffset(tail, p)
  {
    hide Join, Fit;
    var ls := [tail[0].(text := first + tail[0].text)] + tail[1..];
    JoinPrepend(first, tail);
    if p.line < |ls| {
      var some := tail[..p.line];
      assert ls[..p.line] == [some[0].(text := first + some[0].text)] + some[1..];
      JoinPrepend(first, some);
    }
  }

  /** A position denotes the start of its line plus what fits into the character, or the end of the text if there is no
      such line. */
  lemma OffsetByLines(s: Bytes, p: Point)
    requires Valid(s)
    ensures Offset(s, p) == if p.line < |Lines(s)| then
                              |Join(Lines(s)[..p.line])| + Fit(Lines(s)[p.line].text, p.character)
                            else |s|
  {
    hide Width, FirstScalar, Valid, Offset, Lines, Join, Fit;
    OffsetOfLines(s, p);
    LinesJoin(s);
  }

  lemma {:induction false} OffsetOfLines(s: Bytes, p: Point)
    requires Valid(s)
    ensures Offset(s, p) == LineOffset(Lines(s), p)
    decreases |s|
  {
    hide Width, FirstScalar, Valid, Join, LineOffset, TokenWidth;
    if s == [] {
      NoLines(p);
    } else {
      var first, tail := s[..TokenWidth(s)], Lines(AfterToken(s));
      if AtEol(s) {
        LineOffsetPastLine(first, tail, p);
        if p.line > 0 {
          OffsetOfLines(AfterToken(s), Minus(p, TokenExtent(s)));
        }
      } else {
        if AtOrBefore(TokenExtent(s), p) {
          OffsetOfLines(AfterToken(s), Minus(p, TokenExtent(s)));
        }
        if p.line > 0 {
          LineOffsetPastScalar(first, tail, p);
        } else {
          OffsetInFirstLine(s, p.character);
        }
      }
    }
  }

  lemma NoLines(p: Point)
    ensures LineOffset([Line([], [])], p) == 0
  {
    JoinCons(Line([], []), []);
  }

  lemma OffsetInFirstLine(s: Bytes, units: nat)
    requires Valid(s) && s != [] && !AtEol(s)
    ensures var u, ls, tail := LenUtf16(FirstScalar(s)), Lines(s), Lines(AfterToken(s));
            LineOffset(ls, Point(0, units))
            == if u > units then 0 else TokenWidth(s) + LineOffset(tail, Point(0, units - u))
  {
    PrependScalar(s, Lines(AfterToken(s))[0].text);
  }

  /** `Fit` is the greatest scalar boundary of a line whose prefix takes at most `units` UTF-16 code units. */
  lemma FitIsGreatest(s: Bytes, units: nat, o: nat)
    requires Valid(s) && o <= |s| && IsCharBoundary(s, o) && 10 !in s && 13 !in s
    ensures Valid(s[..o])
    ensures o <= Fit(s, units) <==> |Utf16Units(Scalars(s[..o]))| <= units
  {
    hide Width, FirstScalar, Valid, Scalars, Utf16Units, Fit;
    Galois(s, o, Point(0, units)) by { TokenBoundaryIsSafe(s, o); }
    FitIsOffset(s, units);
    assert forall b | b in s[..o] :: b in s;
    NoEolExtent(s[..o]);
    NoEolIsOneLine(s[..o]);
    ExtentByLines(s[..o]);
  }

  lemma {:induction false} NoEolIsOneLine(s: Bytes)
    requires Valid(s) && !HasEol(s)
    ensures Lines(s) == [Line(s, [])]
    decreases |s|
  {
    if s != [] {
      assert s[0] in s && forall b | b in s[Width(s)..] :: b in s;
      NoEolIsOneLine(AfterToken(s));
      assert s == s[..TokenWidth(s)] + AfterToken(s);
    }
  }

  lemma {:induction false} FitIsOffset(s: Bytes, units: nat)
    requires Valid(s) && !HasEol(s)
    ensures Fit(s, units) == Offset(s, Point(0, units))
    decreases |s|
  {
    if s != [] {
      assert s[0] in s && forall b | b in s[Width(s)..] :: b in s;
      if LenUtf16(FirstScalar(s)) <= units {
        FitIsOffset(AfterToken(s), units - LenUtf16(FirstScalar(s)));
      }
    }
  }

  lemma {:induction false} NoEolExtent(s: Bytes)
    requires Valid(s) && !HasEol(s)
    ensures Extent(s).line == 0
    decreases |s|
  {
    if s != [] {
      assert s[0] in s && forall b | b in s[Width(s)..] :: b in s;
      NoEolExtent(AfterToken(s));
    }
  }
}
