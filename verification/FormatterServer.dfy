/** The formatter server's document handling (examples/formatter_server.rs): the three hand-written scanners over
    UTF-8 text, incremental edits, the whole-document formatting edit and the map of open documents. */
module FormatterServer {
  import opened Wrappers
  import opened Utf8
  import opened Positions

  // ---------- the scanners ----------

  /** One step of a scanner standing at `offset`. */
  lemma Step(content: Bytes, offset: nat)
    requires offset < |content| && Valid(content[offset..])
    ensures AfterToken(content[offset..]) == content[offset + TokenWidth(content[offset..])..]
    ensures content[offset..][0] == content[offset]
    ensures !AtEol(content[offset..]) ==> TokenWidth(content[offset..]) == LenUtf8(FirstScalar(content[offset..]))
    ensures content[offset] == LF ==> TokenWidth(content[offset..]) == 1
    ensures content[offset] == CR ==>
              TokenWidth(content[offset..]) == if offset + 1 < |content| && content[offset + 1] == LF then 2 else 1
  {
    var rest, w := content[offset..], TokenWidth(content[offset..]);
    assert rest[w..] == content[offset + w..];
  }

  /** What a scanner that has counted up to `p` still has to count, one token further. */
  lemma CountToken(content: Bytes, offset: nat, p: Point)
    requires offset < |content| && Valid(content[offset..])
    ensures var rest := content[offset..];
            && Valid(content[offset + TokenWidth(rest)..])
            && Plus(p, Extent(rest)) == Plus(Plus(p, TokenExtent(rest)), Extent(content[offset + TokenWidth(rest)..]))
  {
    hide Width, FirstScalar, Valid, TokenWidth, TokenExtent;
    Step(content, offset);
  }

  /** What a scanner still has to skip to get `n` lines further, one token further. */
  lemma SkipToken(content: Bytes, offset: nat, n: nat)
    requires offset < |content| && Valid(content[offset..]) && n > 0
    ensures var rest := content[offset..];
            && Valid(content[offset + TokenWidth(rest)..])
            && Offset(rest, Point(n, 0))
               == TokenWidth(rest)
                  + Offset(content[offset + TokenWidth(rest)..], Point(if AtEol(rest) then n - 1 else n, 0))
  {
    hide Width, FirstScalar, Valid, TokenWidth;
    Step(content, offset);
  }

  lemma NothingToSkip(s: Bytes)
    requires Valid(s)
    ensures Offset(s, Point(0, 0)) == 0
  {
  }

  method LineStartOffset(content: Bytes, targetLine: u32) returns (offset: nat)
    requires Valid(content)
    ensures offset == Offset(content, Point(targetLine, 0))
  {
    hide Width, FirstScalar, Valid, TokenWidth, Offset;
    offset := 0;
    var currentLine: u32 := 0;
    EmptyOffset();
    assert content[0..] == content;
    while offset < |content| && currentLine < targetLine
      invariant offset <= |content| && Valid(content[offset..])
      invariant currentLine <= targetLine
      invariant Offset(content, Point(targetLine, 0))
                == offset + Offset(content[offset..], Point(targetLine - currentLine, 0))
      decreases |content| - offset
    {
      Step(content, offset);
      SkipToken(content, offset, targetLine - currentLine);
      if content[offset] == LF {
        offset := offset + 1;
        currentLine := currentLine + 1;
      } else if content[offset] == CR {
        offset := offset + 1;
        if offset < |content| && content[offset] == LF {
          offset := offset + 1;
        }
        currentLine := currentLine + 1;
      } else {
        offset := offset + LenUtf8(FirstScalar(content[offset..]));
      }
    }
    NothingToSkip(content[offset..]);
    if currentLine == targetLine {
      return offset;
    } else {
      assert content[offset..] == [];
      return |content|;
    }
  }

  lemma EmptyOffset()
    ensures Valid([]) && forall q: Point {:trigger Offset([], q)} :: Offset([], q) == 0
  {
  }

  /** The `u32` counter of a scan of `s` for `character`, standing at `units`, does not overflow. */
  predicate ScanFits(s: Bytes, units: nat, character: nat)
    requires Valid(s)
    decreases |s|
  {
    s == [] || AtEol(s) ||
    var next := units + LenUtf16(FirstScalar(s));
    next <= U32_MAX && (next > character || ScanFits(AfterToken(s), next, character))
  }

  /** The scan for `pos` does not overflow. */
  predicate Locatable(content: Bytes, pos: Position)
    requires Valid(content)
  {
    var start := Offset(content, Point(pos.line, 0));
    start <= |content| && Valid(content[start..]) && ScanFits(content[start..], 0, pos.character)
  }

  lemma {:induction false} ScanFitsIf(s: Bytes, units: nat, character: nat)
    requires Valid(s) && (units + |s| <= U32_MAX || units <= character <= U32_MAX - 2)
    ensures ScanFits(s, units, character)
    decreases |s|
  {
    if s != [] && !AtEol(s) {
      var next := units + LenUtf16(FirstScalar(s));
      if next <= character || units + |s| <= U32_MAX {
        ScanFitsIf(AfterToken(s), next, character);
      }
    }
  }

  /** The scan stops within two units of `character` and never counts more units than there are bytes; so it can
      overflow only in a text of 4 GiB or more, for one of the last two characters that a `u32` can name. */
  lemma LocatableIf(content: Bytes, pos: Position)
    requires Valid(content) && (|content| <= 0xFFFF_FFFF || pos.character <= 0xFFFF_FFFD)
    ensures Locatable(content, pos)
  {
    OffsetByLineStart(content, pos);
    ScanFitsIf(content[Offset(content, Point(pos.line, 0))..], 0, pos.character);
  }

  method PositionToOffset(content: Bytes, pos: Position) returns (offset: nat)
    requires Valid(content) && Locatable(content, pos)
    ensures offset == Offset(content, pos)
  {
    hide Width, FirstScalar, Offset, LenUtf8, LenUtf16, ScanFits;
    var lineStart := LineStartOffset(content, pos.line);
    OffsetByLineStart(content, pos);
    EmptyOffset();
    if lineStart >= |content| {
      assert content[lineStart..] == [];
      return |content|;
    }

    offset := lineStart;
    var utf16Units: u32 := 0;
    var chars := content[lineStart..]; // the iterator `content[line_start..].chars()`
    while chars != []
      invariant lineStart <= offset <= |content| && chars == content[offset..] && Valid(chars)
      invariant utf16Units <= pos.character && ScanFits(chars, utf16Units, pos.character)
      invariant Offset(content[lineStart..], Point(0, pos.character))
                == offset - lineStart + Offset(chars, Point(0, pos.character - utf16Units))
      decreases |chars|
    {
      OffsetWithinLine(chars, pos.character - utf16Units);
      ScanOneScalar(chars, utf16Units, pos.character);
      var ch := FirstScalar(chars);
      if ch == LF || ch == CR {
        break;
      }
      var nextUnits: u32 := utf16Units + LenUtf16(ch);
      if nextUnits > pos.character {
        break;
      }
      utf16Units := nextUnits;
      offset := offset + LenUtf8(ch);
      chars := chars[LenUtf8(ch)..];
    }
  }

  lemma ScanOneScalar(s: Bytes, units: nat, character: nat)
    requires Valid(s) && s != [] && ScanFits(s, units, character)
    ensures var ch := FirstScalar(s);
            ch != LF && ch != CR ==>
              && LenUtf8(ch) <= |s| && Valid(s[LenUtf8(ch)..]) && units + LenUtf16(ch) <= U32_MAX
              && (units + LenUtf16(ch) <= character ==>
                    ScanFits(s[LenUtf8(ch)..], units + LenUtf16(ch), character))
  {
  }

  /** A line end is a scalar of its own. */
  lemma EolScalar(s: Bytes)
    requires Valid(s) && s != []
    ensures Width(s) > 0
    ensures AtEol(s) <==> FirstScalar(s) == LF || FirstScalar(s) == CR
    ensures !AtEol(s) ==> TokenWidth(s) == Width(s)
  {
  }

  /** How many bytes of a line fit into `units` UTF-16 units, read off its first scalar. */
  lemma OffsetWithinLine(s: Bytes, units: nat)
    requires Valid(s) && s != []
    ensures var ch := FirstScalar(s);
            && LenUtf16(ch) <= LenUtf8(ch) <= |s|
            && (ch == LF || ch == CR ==> Offset(s, Point(0, units)) == 0)
            && (ch != LF && ch != CR ==>
                  && Valid(s[LenUtf8(ch)..])
                  && Offset(s, Point(0, units))
                     == if LenUtf16(ch) > units then 0
                        else LenUtf8(ch) + Offset(s[LenUtf8(ch)..], Point(0, units - LenUtf16(ch))))
  {
    hide Width, FirstScalar;
    EolScalar(s);
  }

  /** The start of a line is found first, the character is looked for from there. */
  lemma {:induction false} OffsetByLineStart(s: Bytes, p: Point)
    requires Valid(s)
    ensures var start := Offset(s, Point(p.line, 0));
            && start <= |s| && Valid(s[start..])
            && Offset(s, p) == start + Offset(s[start..], Point(0, p.character))
    decreases |s|
  {
    hide Width, FirstScalar, Valid, TokenWidth, TokenExtent, Offset;
    if s == [] || p.line == 0 {
      EmptyOffset();
      NothingToSkip(s);
      assert s[0..] == s;
    } else {
      var w, n := TokenWidth(s), if AtEol(s) then p.line - 1 else p.line;
      OneTokenFurther(s, p);
      OneTokenFurther(s, Point(p.line, 0));
      OffsetByLineStart(AfterToken(s), Point(n, p.character));
      assert s[w..][Offset(AfterToken(s), Point(n, 0))..] == s[w + Offset(AfterToken(s), Point(n, 0))..];
    }
  }

  lemma OneTokenFurther(s: Bytes, p: Point)
    requires Valid(s) && s != [] && p.line > 0
    ensures Offset(s, p)
            == TokenWidth(s) + Offset(AfterToken(s), Point(if AtEol(s) then p.line - 1 else p.line, p.character))
  {
    hide Width, FirstScalar, Valid, TokenWidth;
  }

  lemma EmptyExtent()
    ensures Valid([]) && Extent([]) == Point(0, 0)
  {
  }

  /** Every position that a scan of `s` from `p` on passes through fits the `u32` counters. */
  predicate CountersFit(s: Bytes, p: Point)
    requires Valid(s)
    decreases |s|
  {
    && p.line <= U32_MAX && p.character <= U32_MAX
    && (s != [] ==> CountersFit(AfterToken(s), Plus(p, TokenExtent(s))))
  }

  /** In particular they do in a text below 4 GiB. */
  lemma {:induction false} ShortTextFits(s: Bytes, p: Point)
    requires Valid(s) && p.line + p.character + |s| <= 0xFFFF_FFFF
    ensures CountersFit(s, p)
    decreases |s|
  {
    if s != [] {
      ShortTextFits(AfterToken(s), Plus(p, TokenExtent(s)));
    }
  }

  lemma FitToken(content: Bytes, offset: nat, p: Point)
    requires offset < |content| && Valid(content[offset..]) && CountersFit(content[offset..], p)
    ensures var rest := content[offset..];
            var next := Plus(p, TokenExtent(rest));
            && Valid(content[offset + TokenWidth(rest)..]) && CountersFit(content[offset + TokenWidth(rest)..], next)
            && next.line <= U32_MAX && next.character <= U32_MAX
  {
    hide Width, FirstScalar, Valid, TokenWidth, TokenExtent;
    Step(content, offset);
  }

  method EndPositionUtf16(content: Bytes) returns (position: Position)
    requires Valid(content) && CountersFit(content, Point(0, 0))
    ensures position == Extent(content)
  {
    hide Width, FirstScalar, Valid, TokenWidth, Extent, CountersFit;
    EmptyExtent();
    var offset := 0;
    var line: u32, character: u32 := 0, 0;
    assert content[0..] == content;
    while offset < |content|
      invariant offset <= |content| && Valid(content[offset..])
      invariant CountersFit(content[offset..], Point(line, character))
      invariant Extent(content) == Plus(Point(line, character), Extent(content[offset..]))
      decreases |content| - offset
    {
      Step(content, offset);
      CountToken(content, offset, Point(line, character));
      FitToken(content, offset, Point(line, character));
      if content[offset] == LF {
        offset := offset + 1;
        line := line + 1;
        character := 0;
      } else if content[offset] == CR {
        offset := offset + 1;
        if offset < |content| && content[offset] == LF {
          offset := offset + 1;
        }
        line := line + 1;
        character := 0;
      } else {
        var ch := FirstScalar(content[offset..]);
        character := character + LenUtf16(ch);
        offset := offset + LenUtf8(ch);
      }
    }
    assert content[offset..] == [];
    position := Point(line, character);
  }

  // ---------- edits ----------

  datatype Range = Range(start: Position, end: Position)

  // `lsp_types::TextDocumentContentChangeEvent`, and `TextEdit` when the range is given.
  datatype Change = Change(range: Option<Range>, text: Bytes)

  /** The text after one change; a range that runs backwards in offsets changes nothing. */
  function ApplyChange(content: Bytes, change: Change): Bytes
    requires Valid(content)
  {
    match change.range
    case None => change.text
    case Some(range) =>
      var start, end := Offset(content, range.start), Offset(content, range.end);
      if start <= end <= |content| then content[..start] + change.text + content[end..] else content
  }

  lemma ApplyChangeKeepsText(content: Bytes, change: Change)
    requires Valid(content) && Valid(change.text)
    ensures Valid(ApplyChange(content, change))
  {
    if change.range.Some? {
      var start, end := Offset(content, change.range.value.start), Offset(content, change.range.value.end);
      OffsetIsBoundary(content, change.range.value.start);
      OffsetIsBoundary(content, change.range.value.end);
      CutAtBoundary(content, start);
      CutAtBoundary(content, end);
      ValidConcat(content[..start], change.text);
      if start <= end {
        ValidConcat(content[..start] + change.text, content[end..]);
      }
    }
  }

  /** The guard passes for every range whose end is not before its start, and the text is cut between scalars. */
  lemma OrderedEditSplices(content: Bytes, range: Range, text: Bytes)
    requires Valid(content) && AtOrBefore(range.start, range.end)
    ensures var start, end := Offset(content, range.start), Offset(content, range.end);
            && start <= end <= |content|
            && IsCharBoundary(content, start) && IsCharBoundary(content, end)
            && ApplyChange(content, Change(Some(range), text)) == content[..start] + text + content[end..]
  {
    OffsetMonotone(content, range.start, range.end);
    OffsetIsBoundary(content, range.start);
    OffsetIsBoundary(content, range.end);
    TokenBoundaryIsSafe(content, Offset(content, range.start));
    TokenBoundaryIsSafe(content, Offset(content, range.end));
  }

  /** A range that runs backwards in offsets changes nothing, and a change without a range replaces everything. */
  lemma OtherChanges(content: Bytes, change: Change)
    requires Valid(content)
    ensures change.range.None? ==> ApplyChange(content, change) == change.text
    ensures change.range.Some? && Offset(content, change.range.value.end) < Offset(content, change.range.value.start)
            ==> ApplyChange(content, change) == content
  {
  }

  predicate AllValid(changes: seq<Change>) {
    forall i | 0 <= i < |changes| :: Valid(changes[i].text)
  }

  function ApplyChanges(content: Bytes, changes: seq<Change>): Bytes
    requires Valid(content) && AllValid(changes)
    decreases |changes|
  {
    if changes == [] then content
    else
      ApplyChangeKeepsText(content, changes[0]);
      ApplyChanges(ApplyChange(content, changes[0]), changes[1..])
  }

  /** Changes apply one after the other, each to what the earlier ones left. */
  lemma {:induction false} ChangesInOrder(content: Bytes, a: seq<Change>, b: seq<Change>)
    requires Valid(content) && AllValid(a) && AllValid(b)
    ensures AllValid(a + b) && Valid(ApplyChanges(content, a))
    ensures ApplyChanges(content, a + b) == ApplyChanges(ApplyChanges(content, a), b)
    ensures |b| == 1 ==> ApplyChanges(content, a + b) == ApplyChange(ApplyChanges(content, a), b[0])
    decreases |a|
  {
    hide Utf8.Valid, ApplyChange;
    ApplyChangesKeepsText(content, a);
    if a == [] {
      assert a + b == b;
      assert |b| == 1 ==> b[1..] == [];
    } else {
      ApplyChangeKeepsText(content, a[0]);
      assert (a + b)[0] == a[0] && (a + b)[1..] == a[1..] + b;
      ChangesInOrder(ApplyChange(content, a[0]), a[1..], b);
    }
  }

  /** Every position of every range can be located in the text that it is applied to. */
  predicate Addressable(content: Bytes, changes: seq<Change>)
    requires Valid(content) && AllValid(changes)
    decreases |changes|
  {
    changes == [] || (
      ApplyChangeKeepsText(content, changes[0]);
      (changes[0].range.Some? ==>
         Locatable(content, changes[0].range.value.start) && Locatable(content, changes[0].range.value.end))
      && Addressable(ApplyChange(content, changes[0]), changes[1..]))
  }

  class DocumentState {
    var content: Bytes
    var version: i32

    constructor (content: Bytes, version: i32)
      ensures this.content == content && this.version == version
    {
      this.content, this.version := content, version;
    }
  }

  method ApplyIncrementalChanges(doc: DocumentState, changes: seq<Change>)
    requires Valid(doc.content) && AllValid(changes) && Addressable(doc.content, changes)
    modifies doc`content
    ensures Valid(doc.content)
    ensures doc.content == ApplyChanges(old(doc.content), changes)
  {
    hide Width, FirstScalar, Valid, Offset;
    assert changes[0..] == changes;
    for i := 0 to |changes|
      invariant Valid(doc.content) && Addressable(doc.content, changes[i..])
      invariant ApplyChanges(old(doc.content), changes) == ApplyChanges(doc.content, changes[i..])
    {
      var change := changes[i];
      assert changes[i..][0] == change && changes[i..][1..] == changes[i + 1..];
      ApplyChangeKeepsText(doc.content, change);
      match change.range
      case Some(range) =>
        var startOffset := PositionToOffset(doc.content, range.start);
        var endOffset := PositionToOffset(doc.content, range.end);
        if startOffset <= endOffset && endOffset <= |doc.content| {
          doc.content := doc.content[..startOffset] + change.text + doc.content[endOffset..];
        }
      case None =>
        doc.content := change.text;
    }
  }

  /** The formatting edit replaces the whole text, from its first position to its last. */
  method CreateUppercaseEdit(content: Bytes, toUppercase: Bytes -> Bytes) returns (edits: seq<Change>)
    requires Valid(content) && CountersFit(content, Point(0, 0))
    ensures content == [] ==> edits == []
    ensures content != [] ==> |edits| == 1 && edits[0].range.Some?
                              && edits[0].range.value.start == Point(0, 0)
                              && edits[0].range.value.end == Extent(content)
                              && ApplyChange(content, edits[0]) == toUppercase(content)
  {
    if content == [] {
      return [];
    }
    var end := EndPositionUtf16(content);
    var range := Range(Point(0, 0), end);
    edits := [Change(Some(range), toUppercase(content))];
    OffsetClamps(content, end);
    NothingToSkip(content);
    assert content[..0] + toUppercase(content) + content[|content|..] == toUppercase(content);
  }

  // ---------- the map of open documents ----------

  type Uri = string

  // What one document is, as a value.
  datatype Document = Document(content: Bytes, version: i32)

  type Documents = map<Uri, Document>

  // A notification with its parameters as `parse_notification_params` reads them; `None` when it cannot.
  datatype OpenParams = OpenParams(uri: Uri, text: Bytes, version: i32)
  datatype ChangeParams = ChangeParams(uri: Uri, version: i32, contentChanges: seq<Change>)
  datatype Notification =
    | DidOpen(open: Option<OpenParams>)
    | DidChange(change: Option<ChangeParams>)
    | DidClose(close: Option<Uri>)
    | Other(name: string)

  predicate AllTexts(docs: Documents) {
    forall uri | uri in docs :: Valid(docs[uri].content)
  }

  /** The texts that a notification carries are texts. */
  predicate CarriesTexts(n: Notification) {
    match n
    case DidOpen(Some(p)) => Valid(p.text)
    case DidChange(Some(p)) => AllValid(p.contentChanges)
    case _ => true
  }

  /** And the scans for the positions in it do not overflow. */
  predicate Acceptable(docs: Documents, n: Notification)
    requires AllTexts(docs)
  {
    && CarriesTexts(n)
    && match n
       case DidChange(Some(p)) => p.uri in docs ==> Addressable(docs[p.uri].content, p.contentChanges)
       case _ => true
  }

  function Handle(docs: Documents, n: Notification): Documents
    requires AllTexts(docs) && CarriesTexts(n)
  {
    match n
    case DidOpen(Some(p)) => docs[p.uri := Document(p.text, p.version)]
    case DidChange(Some(p)) =>
      if p.uri !in docs then docs
      else docs[p.uri := Document(ApplyChanges(docs[p.uri].content, p.contentChanges), p.version)]
    case DidClose(Some(uri)) => docs - {uri}
    case _ => docs
  }

  /** What a notification makes of the document under `uri`: opening and closing concern the URI they name, a change
      one that is open, and nothing else has an effect. */
  lemma HandleAt(docs: Documents, n: Notification, uri: Uri)
    requires AllTexts(docs) && CarriesTexts(n)
    ensures var before := if uri in docs then Some(docs[uri]) else None;
            var after := if uri in Handle(docs, n) then Some(Handle(docs, n)[uri]) else None;
            match n
            case DidOpen(Some(p)) => after == if p.uri == uri then Some(Document(p.text, p.version)) else before
            case DidChange(Some(p)) =>
              if p.uri == uri && before.Some? then
                after == Some(Document(ApplyChanges(before.value.content, p.contentChanges), p.version))
              else after == before
            case DidClose(Some(closed)) => after == if closed == uri then None else before
            case _ => after == before
  {
  }

  lemma {:induction false} ApplyChangesKeepsText(content: Bytes, changes: seq<Change>)
    requires Valid(content) && AllValid(changes)
    ensures Valid(ApplyChanges(content, changes))
    decreases |changes|
  {
    if changes != [] {
      ApplyChangeKeepsText(content, changes[0]);
      ApplyChangesKeepsText(ApplyChange(content, changes[0]), changes[1..]);
    }
  }

  lemma HandleKeepsTexts(docs: Documents, n: Notification)
    requires AllTexts(docs) && CarriesTexts(n)
    ensures AllTexts(Handle(docs, n))
  {
    if n.DidChange? && n.change.Some? && n.change.value.uri in docs {
      ApplyChangesKeepsText(docs[n.change.value.uri].content, n.change.value.contentChanges);
    }
  }

  class ServerState {
    var documents: map<Uri, DocumentState>

    /** No two URIs share a document, and every document is a text. */
    ghost predicate Valid()
      reads this, documents.Values
    {
      && (forall u, v | u in documents && v in documents && u != v :: documents[u] != documents[v])
      && AllTexts(View())
    }

    ghost function View(): Documents
      reads this, documents.Values
    {
      map uri | uri in documents :: Document(documents[uri].content, documents[uri].version)
    }

    constructor ()
      ensures Valid() && View() == map[]
    {
      documents := map[];
    }

    method HandleNotification(n: Notification)
      requires Valid() && Acceptable(View(), n)
      modifies this, documents.Values
      ensures Valid() && View() == Handle(old(View()), n)
      ensures fresh(documents.Values - old(documents.Values))
    {
      hide Width, FirstScalar, Utf8.Valid, Addressable, ApplyChanges;
      HandleKeepsTexts(View(), n);
      match n
      case DidOpen(Some(p)) =>
        var doc := new DocumentState(p.text, p.version);
        documents := documents[p.uri := doc];
        assert View() == Handle(old(View()), n);
      case DidChange(Some(p)) =>
        if p.uri in documents {
          var doc := documents[p.uri];
          ApplyIncrementalChanges(doc, p.contentChanges);
          doc.version := p.version;
        }
        assert View() == Handle(old(View()), n);
      case DidClose(Some(uri)) =>
        documents := documents - {uri};
        assert View() == Handle(old(View()), n);
      case _ =>
    }
  }
}
