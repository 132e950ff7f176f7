/** The layers put together: messages become objects, text, frames and chunks, and the peer's connection routes what
    it decodes. JSON text is a pair of parameters that invert each other. */
module EndToEnd {
  import opened Wrappers
  import opened Messages
  import P = Pipeline
  import F = Framing
  import C = Cancellation
  import N = Connection
  import S = FormatterServer
  import D = DocumentMirror

  // Printing and parsing JSON objects as text.
  datatype JsonText = JsonText(write: Object -> Bytes, read: Bytes -> Option<Object>)

  /** The objects of these messages are read back from their texts, and the texts have a `usize` length. */
  ghost predicate TextRoundTrips(t: JsonText, ms: seq<Message>) {
    forall m | m in ms :: |t.write(ToObject(m))| <= USIZE_MAX && t.read(t.write(ToObject(m))) == Some(ToObject(m))
  }

  function MessageFormat(t: JsonText): P.Format<Message> {
    P.Format(m => t.write(ToObject(m)),
             body => match t.read(body) case None => None case Some(o) => FromObject(o),
             m => Normalize(m))
  }

  /** If text is read back, messages are, up to `null` parameters and error data. */
  lemma MessageFormatIsLawful(t: JsonText, ms: seq<Message>)
    requires TextRoundTrips(t, ms)
    ensures P.Lawful(MessageFormat(t), ms)
    ensures forall body :: MessageFormat(t).parse(body)
                           == match t.read(body) case None => None case Some(o) => FromObject(o)
    ensures forall m :: MessageFormat(t).serialize(m) == t.write(ToObject(m))
  {
    forall m | m in ms
      ensures |MessageFormat(t).serialize(m)| <= USIZE_MAX
      ensures MessageFormat(t).parse(MessageFormat(t).serialize(m)) == Some(MessageFormat(t).norm(m))
    {
      RoundTrip(m);
    }
  }

  /** Whatever happens on the way, the peer's messages are the normal forms of a prefix of those enqueued. */
  lemma MessagesArrive(t: JsonText, es: seq<P.Event<Message>>)
    requires P.IsRun(MessageFormat(t), P.Start(), es)
    requires TextRoundTrips(t, P.After(MessageFormat(t), P.Start(), es).enqueued)
    ensures var s := P.After(MessageFormat(t), P.Start(), es);
            && !s.failed && |s.decoded| <= |s.enqueued|
            && forall i | 0 <= i < |s.decoded| :: s.decoded[i] == F.Message(Normalize(s.enqueued[i]))
  {
    MessageFormatIsLawful(t, P.After(MessageFormat(t), P.Start(), es).enqueued);
    P.FifoPrefix(MessageFormat(t), es);
  }

  /** The place of an object among others, or their number. */
  function IndexOf(o: Object, os: seq<Object>): (i: nat)
    ensures i <= |os| && (o in os ==> i < |os| && os[i] == o)
  {
    if os == [] || os[0] == o then 0 else 1 + IndexOf(o, os[1..])
  }

  /** There is such a text for any messages: what `TextRoundTrips` asks can be met. */
  lemma TextExists(ms: seq<Message>) returns (t: JsonText)
    requires |ms| <= USIZE_MAX
    ensures TextRoundTrips(t, ms)
  {
    var os := seq(|ms|, i requires 0 <= i < |ms| => ToObject(ms[i]));
    t := JsonText(o => seq(IndexOf(o, os), _ => 0), b => if |b| < |os| then Some(os[|b|]) else None);
    forall m | m in ms
      ensures |t.write(ToObject(m))| <= USIZE_MAX && t.read(t.write(ToObject(m))) == Some(ToObject(m))
    {
      var i :| 0 <= i < |ms| && ms[i] == m;
      assert os[i] == ToObject(m);
    }
  }

  // ---------- documents across the wire ----------

  /** A client edits its documents and reports every step over a wire that may break and in any chunks. At any time the
      server has decoded, as they were sent, the notifications of the first so many steps, and handling these has
      given it the documents that the client had after as many. */
  lemma DocumentsArrive(f: P.Format<S.Notification>, es: seq<P.Event<S.Notification>>, docs: S.Documents,
                        steps: seq<D.ClientEvent>)
    requires S.AllTexts(docs) && D.SafeSession(docs, steps)
    requires P.IsRun(f, P.Start(), es) && P.After(f, P.Start(), es).enqueued == D.Sent(docs, steps)
    requires P.Lawful(f, D.Sent(docs, steps)) && forall n | n in D.Sent(docs, steps) :: f.norm(n) == n
    ensures var s, sent := P.After(f, P.Start(), es), D.Sent(docs, steps);
            var n := |s.decoded|;
            && !s.failed && n <= |sent| == |steps|
            && (forall i | 0 <= i < n :: s.decoded[i] == F.Message(sent[i]))
            && D.SafeSession(docs, steps[..n])
            && D.ServerReaches(docs, sent[..n], D.ClientAfter(docs, steps[..n]))
  {
    hide P.After, P.IsRun, D.Sent, D.SafeSession, D.ServerReaches, D.ClientAfter;
    P.FifoPrefix(f, es);
    D.Mirror(docs, steps, 0);
    D.Mirror(docs, steps, |P.After(f, P.Start(), es).decoded|);
  }

  // ---------- cancellation across the wire ----------

  // The peer's connection routes the next decoded message, or is told something locally.
  datatype PeerStep = RouteNext | Local(event: C.Event)

  /** The peer does not route more than it has decoded, and decoded only messages. */
  predicate Routable(steps: seq<PeerStep>, decoded: seq<F.Item<Message>>) {
    steps == [] || (
      if steps[0].RouteNext? then decoded != [] && decoded[0].Message? && Routable(steps[1..], decoded[1..])
      else Routable(steps[1..], decoded))
  }

  /** The run of the peer's connection. */
  function PeerRun(steps: seq<PeerStep>, decoded: seq<F.Item<Message>>): (run: seq<C.Event>)
    requires Routable(steps, decoded)
    ensures |run| == |steps|
  {
    if steps == [] then []
    else
      match steps[0]
      case RouteNext => [N.EventOf(decoded[0].message)] + PeerRun(steps[1..], decoded[1..])
      case Local(event) => [event] + PeerRun(steps[1..], decoded)
  }

  /** Step `k` routes the `i`-th message. */
  predicate RoutesAt(steps: seq<PeerStep>, k: nat, i: nat)
    decreases steps
  {
    steps != [] &&
    match steps[0]
    case RouteNext => if k == 0 then i == 0 else i > 0 && RoutesAt(steps[1..], k - 1, i - 1)
    case Local(_) => k > 0 && RoutesAt(steps[1..], k - 1, i)
  }

  lemma {:induction false} RoutedInOrder(steps: seq<PeerStep>, decoded: seq<F.Item<Message>>, k: nat, i: nat)
    requires Routable(steps, decoded) && RoutesAt(steps, k, i)
    ensures k < |steps| && i < |decoded| && decoded[i].Message?
    ensures PeerRun(steps, decoded)[k] == N.EventOf(decoded[i].message)
    ensures forall l: nat, j: nat | RoutesAt(steps, l, j) && i < j :: k < l
  {
    if steps[0].RouteNext? && k > 0 {
      RoutedInOrder(steps[1..], decoded[1..], k - 1, i - 1);
      forall l: nat, j: nat | RoutesAt(steps, l, j) && i < j ensures k < l {
        assert RoutesAt(steps[1..], l - 1, j - 1);
      }
    } else if steps[0].Local? {
      RoutedInOrder(steps[1..], decoded, k - 1, i);
      forall l: nat, j: nat | RoutesAt(steps, l, j) && i < j ensures k < l {
        assert RoutesAt(steps[1..], l - 1, j);
      }
    }
  }

  /** A request and, later, its cancellation are sent, over a wire that may break and in any chunks. If the peer
      routes both and in between neither completes that id nor registers it anew, the token of that very request is
      cancelled; for every kind of id. */
  lemma CancelReachesPeer(t: JsonText, es: seq<P.Event<Message>>, steps: seq<PeerStep>, i: nat, j: nat, k: nat, l: nat,
                          request: Request)
    requires P.IsRun(MessageFormat(t), P.Start(), es)
    requires TextRoundTrips(t, P.After(MessageFormat(t), P.Start(), es).enqueued)
    requires Routable(steps, P.After(MessageFormat(t), P.Start(), es).decoded)
    requires i < j < |P.After(MessageFormat(t), P.Start(), es).enqueued|
    requires P.After(MessageFormat(t), P.Start(), es).enqueued[i] == RequestMessage(request)
    requires P.After(MessageFormat(t), P.Start(), es).enqueued[j] == NotificationMessage(CancelNotification(request.id))
    requires RoutesAt(steps, k, i) && RoutesAt(steps, l, j)
    requires var run := PeerRun(steps, P.After(MessageFormat(t), P.Start(), es).decoded);
             forall m | k < m < l && m < |run| :: run[m] != C.Completed(request.id) && run[m] != C.Routed(request.id)
    ensures var run := PeerRun(steps, P.After(MessageFormat(t), P.Start(), es).decoded);
            k < l < |run| && run[k] == C.Routed(request.id) && C.TokenCancelled(C.TableAfter(run), k)
  {
    hide P.After, P.IsRun, C.TableAfter, PeerRun, RoutesAt, Routable;
    var s := P.After(MessageFormat(t), P.Start(), es);
    var run := PeerRun(steps, s.decoded);
    MessagesArrive(t, es);
    RoutedInOrder(steps, s.decoded, k, i);
    RoutedInOrder(steps, s.decoded, l, j);
    CancelParamsRoundTrip(request.id);
    assert run[l] == C.CancelAsked(request.id);
    assert C.StillPending(run, k, l, request.id);
    C.CancellationTrace(run, k);
  }

  /** This does happen: for every request there are a text and a run that meet all of these conditions. */
  lemma CancelDoesReach(request: Request)
    returns (t: JsonText, es: seq<P.Event<Message>>, steps: seq<PeerStep>)
    ensures P.IsRun(MessageFormat(t), P.Start(), es)
    ensures var s := P.After(MessageFormat(t), P.Start(), es);
            && s.enqueued == [RequestMessage(request), NotificationMessage(CancelNotification(request.id))]
            && TextRoundTrips(t, s.enqueued)
            && Routable(steps, s.decoded)
            && PeerRun(steps, s.decoded) == [C.Routed(request.id), C.CancelAsked(request.id)]
            && C.TokenCancelled(C.TableAfter(PeerRun(steps, s.decoded)), 0)
  {
    var ms := [RequestMessage(request), NotificationMessage(CancelNotification(request.id))];
    t := TextExists(ms);
    es := P.Undisturbed(MessageFormat(t), ms);
    steps := [RouteNext, RouteNext];
    MessageFormatIsLawful(t, ms);
    P.AllArrive(MessageFormat(t), ms);
    hide P.After, P.IsRun, P.Undisturbed;
    var s := P.After(MessageFormat(t), P.Start(), es);
    assert |s.decoded| == 2 && s.decoded[0].Message? && s.decoded[1].Message?;
    BothRouted(s.decoded);
    CancelParamsRoundTrip(request.id);
    CancelReachesPeer(t, es, steps, 0, 1, 0, 1, request);
  }

  lemma BothRouted(decoded: seq<F.Item<Message>>)
    requires |decoded| == 2 && decoded[0].Message? && decoded[1].Message?
    ensures var steps := [RouteNext, RouteNext];
            && Routable(steps, decoded) && RoutesAt(steps, 0, 0) && RoutesAt(steps, 1, 1)
            && PeerRun(steps, decoded) == [N.EventOf(decoded[0].message), N.EventOf(decoded[1].message)]
  {
    var steps := [RouteNext, RouteNext];
    assert steps[1..] == [RouteNext] && steps[1..][1..] == [];
    assert decoded[1..] == [decoded[1]] && decoded[1..][1..] == [];
    assert Routable(steps[1..][1..], decoded[1..][1..]);
    assert Routable(steps[1..], decoded[1..]) && RoutesAt(steps[1..], 0, 0);
    assert PeerRun(steps[1..], decoded[1..]) == [N.EventOf(decoded[1].message)];
  }
}
