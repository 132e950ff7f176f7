/** Incremental document synchronisation over whole sessions: a client edits its own copies by byte splices and
    reports each splice as a UTF-16 range of its current text; the server never holds anything else. */
module DocumentMirror {
  import opened Wrappers
  import opened Utf8
  import opened Positions
  import opened FormatterServer

  datatype Edit = Splice(start: nat, end: nat, text: Bytes) | Replace(text: Bytes)

  datatype ClientEvent =
    | Open(uri: Uri, text: Bytes, version: i32)
    | Edits(uri: Uri, edits: seq<Edit>, version: i32)
    | Close(uri: Uri)
    | Unrelated(name: string)

  // ---------- the client ----------

  /** An offset where an editor may cut: between scalars, and not between a `\r` and its `\n`. */
  predicate Safe(content: Bytes, o: nat) {
    o <= |content| && IsCharBoundary(content, o) && !InsideCrLf(content, o)
  }

  /** The position of `o` fits the wire, and the server can scan for it. */
  predicate Nameable(content: Bytes, o: nat)
    requires Valid(content) && o <= |content|
  {
    && Valid(content[..o])
    && var p := PositionAt(content, o);
       p.line <= U32_MAX && p.character <= U32_MAX && Locatable(content, p)
  }

  predicate SafeEdit(content: Bytes, e: Edit) {
    Valid(e.text) && (e.Splice? ==>
                        && Valid(content) && e.start <= e.end && Safe(content, e.start) && Safe(content, e.end)
                        && Nameable(content, e.start) && Nameable(content, e.end))
  }

  function DoEdit(content: Bytes, e: Edit): Bytes
    requires SafeEdit(content, e)
  {
    match e
    case Splice(start, end, text) => content[..start] + text + content[end..]
    case Replace(text) => text
  }

  predicate SafeEdits(content: Bytes, edits: seq<Edit>)
    decreases |edits|
  {
    edits == [] || (SafeEdit(content, edits[0]) && SafeEdits(DoEdit(content, edits[0]), edits[1..]))
  }

  function DoEdits(content: Bytes, edits: seq<Edit>): Bytes
    requires SafeEdits(content, edits)
    decreases |edits|
  {
    if edits == [] then content else DoEdits(DoEdit(content, edits[0]), edits[1..])
  }

  predicate SafeEvent(docs: Documents, e: ClientEvent) {
    match e
    case Open(_, text, _) => Valid(text)
    case Edits(uri, edits, _) => uri in docs && SafeEdits(docs[uri].content, edits)
    case _ => true
  }

  function Do(docs: Documents, e: ClientEvent): Documents
    requires SafeEvent(docs, e)
  {
    match e
    case Open(uri, text, version) => docs[uri := Document(text, version)]
    case Edits(uri, edits, version) => docs[uri := Document(DoEdits(docs[uri].content, edits), version)]
    case Close(uri) => docs - {uri}
    case Unrelated(_) => docs
  }

  // ---------- what the client sends ----------

  /** In a text below 4 GiB every offset between scalars is nameable. */
  lemma ShortTextNameable(content: Bytes, o: nat)
    requires Valid(content) && |content| <= 0xFFFF_FFFF && o <= |content| && IsCharBoundary(content, o)
    ensures Nameable(content, o)
  {
    CharBoundarySplits(content, o);
    ExtentBound(content[..o]);
    LocatableIf(content, PositionAt(content, o));
  }

  function Report(content: Bytes, e: Edit): Change
    requires Valid(content) && SafeEdit(content, e)
  {
    match e
    case Splice(start, end, text) =>
      Change(Some(Range(PositionAt(content, start), PositionAt(content, end))), text)
    case Replace(text) => Change(None, text)
  }

  /** An edit is reported as the range of positions it replaces, or without a range if it replaces everything; and the
      server makes of it what the client did. */
  lemma ReportedEdit(content: Bytes, e: Edit)
    requires Valid(content) && SafeEdit(content, e)
    ensures e.Splice? ==>
              && Report(content, e).range.Some? && Report(content, e).text == e.text
              && Report(content, e).range.value.start == Extent(content[..e.start])
              && Report(content, e).range.value.end == Extent(content[..e.end])
              && DoEdit(content, e) == content[..e.start] + e.text + content[e.end..]
    ensures e.Replace? ==> Report(content, e) == Change(None, e.text) && DoEdit(content, e) == e.text
    ensures ApplyChange(content, Report(content, e)) == DoEdit(content, e)
    ensures Valid(DoEdit(content, e))
  {
    if e.Splice? {
      RecoveredIffSafe(content, e.start);
      RecoveredIffSafe(content, e.end);
    }
    ApplyChangeKeepsText(content, Report(content, e));
  }

  predicate AllLf(text: Bytes) { forall i | 0 <= i < |text| :: text[i] == LF }

  /** Cutting inside a `\r\n` is what goes wrong: there a position reads as the one after the `\n`. A splice at scalar
      boundaries, reported as a range, is mirrored exactly when neither end is inside a `\r\n`, or when both ends
      are and the new text is a run of `\n`. */
  lemma SpliceMirroredIff(content: Bytes, start: nat, end: nat, range: Range, text: Bytes)
    requires Valid(content) && start <= end <= |content|
    requires IsCharBoundary(content, start) && IsCharBoundary(content, end)
    requires Valid(content[..start]) && range.start == PositionAt(content, start)
    requires Valid(content[..end]) && range.end == PositionAt(content, end)
    ensures ApplyChange(content, Change(Some(range), text)) == content[..start] + text + content[end..]
            <==> (!InsideCrLf(content, start) && !InsideCrLf(content, end))
                 || (InsideCrLf(content, start) && InsideCrLf(content, end) && AllLf(text))
  {
    hide Width, FirstScalar, Valid, PositionAt, Offset, AllLf, IsCharBoundary, InsideCrLf;
    ReadAs(content, start);
    ReadAs(content, end);
    ShiftedSpliceIff(content, start, end, text);
  }

  lemma ReadAs(content: Bytes, o: nat)
    requires Valid(content) && o <= |content| && IsCharBoundary(content, o) && Valid(content[..o])
    ensures Offset(content, PositionAt(content, o)) == if InsideCrLf(content, o) then o + 1 else o
  {
    hide Width, FirstScalar, Valid, PositionAt, Offset, IsCharBoundary;
    RecoveredIffSafe(content, o);
  }

  /** Splicing after the `\n` instead of before it, at either end. */
  lemma ShiftedSpliceIff(content: Bytes, start: nat, end: nat, text: Bytes)
    requires start <= end <= |content|
    ensures var s := if InsideCrLf(content, start) then start + 1 else start;
            var e := if InsideCrLf(content, end) then end + 1 else end;
            && s <= e <= |content|
            && (content[..s] + text + content[e..] == content[..start] + text + content[end..]
                <==> s - start == e - end && (s > start ==> AllLf(text)))
  {
    hide AllLf;
    var s := if InsideCrLf(content, start) then start + 1 else start;
    var e := if InsideCrLf(content, end) then end + 1 else end;
    if s - start == e - end == 1 {
      assert content[..s] == content[..start] + [LF] && content[end..] == [LF] + content[e..];
      Commutes(content[..start], text, content[e..]);
      CommutesIff(text);
    } else if s - start != e - end {
      assert |content[..s] + text + content[e..]| != |content[..start] + text + content[end..]|;
    }
  }

  lemma Commutes(before: Bytes, text: Bytes, after: Bytes)
    ensures before + [LF] + text + after == before + text + ([LF] + after) <==> text + [LF] == [LF] + text
  {
    var server, client := before + ([LF] + text) + after, before + (text + [LF]) + after;
    assert before + [LF] + text + after == server && before + text + ([LF] + after) == client;
    var i, j := |before|, |before| + |text| + 1;
    assert server[i..j] == [LF] + text && client[i..j] == text + [LF];
  }

  /** A text commutes with `\n` exactly when it is a run of `\n`. */
  lemma {:induction false} CommutesIff(text: Bytes)
    ensures text + [LF] == [LF] + text <==> AllLf(text)
  {
    if text != [] {
      var rest := text[1..];
      CommutesIff(rest);
      assert text == [text[0]] + rest;
      assert text + [LF] == [text[0]] + (rest + [LF]);
      assert (text + [LF])[0] == text[0] && ([LF] + text)[0] == LF;
      assert (text + [LF])[1..] == rest + [LF] && ([LF] + text)[1..] == text;
      assert AllLf(text) <==> text[0] == LF && AllLf(rest);
    }
  }

  /** For an insertion that is: not inside a `\r\n`, or of nothing but `\n`. */
  lemma InsertionMirroredIff(content: Bytes, o: nat, at: Position, text: Bytes)
    requires Valid(content) && o <= |content| && IsCharBoundary(content, o)
    requires Valid(content[..o]) && at == PositionAt(content, o)
    ensures ApplyChange(content, Change(Some(Range(at, at)), text)) == content[..o] + text + content[o..]
            <==> !InsideCrLf(content, o) || AllLf(text)
  {
    SpliceMirroredIff(content, o, o, Range(at, at), text);
  }

  /** The least failing edit: an `a` put between the `\r` and the `\n` of an otherwise empty text. */
  lemma NotMirroredInside()
    ensures var content: Bytes := [CR, LF];
            && Valid(content) && IsCharBoundary(content, 1) && Nameable(content, 1)
            && var at: Position := PositionAt(content, 1);
               ApplyChange(content, Change(Some(Range(at, at)), [97])) != [CR, 97, LF]
  {
    var content: Bytes := [CR, LF];
    assert content[1..] == [LF] && [LF][1..] == [] && Width(content) == Width([LF]) == 1;
    assert Valid([LF]) && Valid(content);
    ShortTextNameable(content, 1);
    var text: Bytes := [97];
    assert text[0] != LF && !AllLf(text);
    InsertionMirroredIff(content, 1, PositionAt(content, 1), text);
    assert content[..1] + [97] + content[1..] == [CR, 97, LF];
  }

  function ReportAll(content: Bytes, edits: seq<Edit>): seq<Change>
    requires Valid(content) && SafeEdits(content, edits)
    decreases |edits|
  {
    if edits == [] then []
    else
      ReportedEdit(content, edits[0]);
      [Report(content, edits[0])] + ReportAll(DoEdit(content, edits[0]), edits[1..])
  }

  /** Edit `i` is reported on the text that the edits before it have left. */
  ghost predicate ReportedAt(content: Bytes, edits: seq<Edit>, i: nat, change: Change)
    requires i < |edits|
  {
    && SafeEdits(content, edits[..i])
    && Valid(DoEdits(content, edits[..i])) && SafeEdit(DoEdits(content, edits[..i]), edits[i])
    && change == Report(DoEdits(content, edits[..i]), edits[i])
  }

  lemma LaterReport(content: Bytes, edits: seq<Edit>, i: nat)
    requires Valid(content) && SafeEdits(content, edits) && i < |edits| && Valid(DoEdit(content, edits[0]))
    requires var rest, changes := edits[1..], ReportAll(content, edits);
             && |changes| == |edits|
             && (i > 0 ==> ReportedAt(DoEdit(content, edits[0]), rest, i - 1, changes[i]))
    ensures ReportedAt(content, edits, i, ReportAll(content, edits)[i])
  {
    hide Valid, SafeEdit, DoEdit, Report;
    if i == 0 {
      assert edits[..0] == [];
    } else {
      assert edits[..i][0] == edits[0] && edits[..i][1..] == edits[1..][..i - 1];
    }
  }

  lemma {:induction false} ReportedEdits(content: Bytes, edits: seq<Edit>)
    requires Valid(content) && SafeEdits(content, edits)
    ensures var changes := ReportAll(content, edits);
            && AllValid(changes) && Addressable(content, changes)
            && ApplyChanges(content, changes) == DoEdits(content, edits)
            && |changes| == |edits|
            && forall i: nat | i < |edits| :: ReportedAt(content, edits, i, changes[i])
    decreases |edits|
  {
    if edits != [] {
      ReportedEdit(content, edits[0]);
      ReportedEdits(DoEdit(content, edits[0]), edits[1..]);
      forall i: nat | i < |edits| ensures ReportedAt(content, edits, i, ReportAll(content, edits)[i]) {
        LaterReport(content, edits, i);
      }
      assert ReportAll(content, edits)[1..] == ReportAll(DoEdit(content, edits[0]), edits[1..]);
    }
  }

  function Notify(docs: Documents, e: ClientEvent): Notification
    requires AllTexts(docs) && SafeEvent(docs, e)
  {
    match e
    case Open(uri, text, version) => DidOpen(Some(OpenParams(uri, text, version)))
    case Edits(uri, edits, version) =>
      DidChange(Some(ChangeParams(uri, version, ReportAll(docs[uri].content, edits))))
    case Close(uri) => DidClose(Some(uri))
    case Unrelated(name) => Other(name)
  }

  /** A client that opens, edits or closes a document says so by the notification for it, an edit by its changes only;
      and that leaves the server with the documents the client has. */
  lemma MirrorStep(docs: Documents, e: ClientEvent)
    requires AllTexts(docs) && SafeEvent(docs, e)
    ensures match e
            case Open(uri, text, version) => Notify(docs, e) == DidOpen(Some(OpenParams(uri, text, version)))
            case Edits(uri, edits, version) =>
              Notify(docs, e) == DidChange(Some(ChangeParams(uri, version, ReportAll(docs[uri].content, edits))))
            case Close(uri) => Notify(docs, e) == DidClose(Some(uri))
            case Unrelated(name) => Notify(docs, e) == Other(name)
    ensures Acceptable(docs, Notify(docs, e))
    ensures Handle(docs, Notify(docs, e)) == Do(docs, e)
    ensures AllTexts(Do(docs, e))
  {
    if e.Edits? {
      ReportedEdits(docs[e.uri].content, e.edits);
    }
    HandleKeepsTexts(docs, Notify(docs, e));
  }

  // ---------- whole sessions ----------

  predicate SafeSession(docs: Documents, es: seq<ClientEvent>)
    decreases |es|
  {
    es == [] || (SafeEvent(docs, es[0]) && SafeSession(Do(docs, es[0]), es[1..]))
  }

  /** The client's documents after a session. */
  function ClientAfter(docs: Documents, es: seq<ClientEvent>): Documents
    requires SafeSession(docs, es)
    decreases |es|
  {
    if es == [] then docs else ClientAfter(Do(docs, es[0]), es[1..])
  }

  /** The notifications the client sends in a session. */
  function Sent(docs: Documents, es: seq<ClientEvent>): seq<Notification>
    requires AllTexts(docs) && SafeSession(docs, es)
    decreases |es|
  {
    if es == [] then []
    else
      MirrorStep(docs, es[0]);
      [Notify(docs, es[0])] + Sent(Do(docs, es[0]), es[1..])
  }

  /** The server's documents are never out of a scanner's reach, and these are they. */
  ghost predicate ServerReaches(docs: Documents, ns: seq<Notification>, docs': Documents)
    decreases |ns|
  {
    AllTexts(docs)
    && (if ns == [] then docs' == docs
        else Acceptable(docs, ns[0]) && ServerReaches(Handle(docs, ns[0]), ns[1..], docs'))
  }

  /** After every notification of every session the server's documents are the client's. */
  lemma {:induction false} Mirror(docs: Documents, es: seq<ClientEvent>, n: nat)
    requires AllTexts(docs) && SafeSession(docs, es) && n <= |es|
    ensures |Sent(docs, es)| == |es| && SafeSession(docs, es[..n])
    ensures n < |es| ==>
              && SafeEvent(ClientAfter(docs, es[..n]), es[n]) && AllTexts(ClientAfter(docs, es[..n]))
              && Sent(docs, es)[n] == Notify(ClientAfter(docs, es[..n]), es[n])
    ensures ServerReaches(docs, Sent(docs, es)[..n], ClientAfter(docs, es[..n]))
    decreases |es|
  {
    if es != [] {
      MirrorStep(docs, es[0]);
      var rest, sent := Do(docs, es[0]), Sent(docs, es);
      Mirror(rest, es[1..], if n == 0 then 0 else n - 1);
      if n > 0 {
        assert es[..n][1..] == es[1..][..n - 1];
        assert sent[1..] == Sent(rest, es[1..]);
        assert sent[..n][1..] == sent[1..][..n - 1];
      }
    }
  }
}
