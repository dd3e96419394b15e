/** The debug adapter's relay: the state machine that answers `initialize` itself and forwards the rest. */
module DebugRelay {
  import opened Common
  import opened DebugFraming

  datatype Transport = LaunchTransport | AttachTransport(port: nat)

  /** What the relay does not answer itself. */
  function Forwarded(p: Protocol, messages: seq<Message>): seq<Message> {
    if messages == [] then []
    else
      var last := messages[|messages| - 1];
      Forwarded(p, messages[..|messages| - 1]) + (if p.request(last).Initialize? then [] else [last])
  }

  function Initializes(p: Protocol, messages: seq<Message>): seq<Message> {
    if messages == [] then []
    else
      var last := messages[|messages| - 1];
      Initializes(p, messages[..|messages| - 1]) + (if p.request(last).Initialize? then [last] else [])
  }

  /** The transport the first launch or attach request selects. */
  function FirstTransport(p: Protocol, messages: seq<Message>): Option<Transport> {
    if messages == [] then None
    else
      var earlier := FirstTransport(p, messages[..|messages| - 1]);
      if earlier.Some? then earlier
      else match p.request(messages[|messages| - 1])
        case Launch => Some(LaunchTransport)
        case Attach(port) => Some(AttachTransport(port))
        case _ => None
  }

  /** A message to the client: an answer to an `initialize` request, or one from the transport. */
  datatype Outgoing = Answer(request: Message) | Relayed(message: Message)

  function Numbered(p: Protocol, seqNumber: nat, outgoing: Outgoing): Message {
    match outgoing
    case Answer(request) => p.initializeResponse(seqNumber, request)
    case Relayed(message) => p.withSeq(message, seqNumber)
  }

  /** The outgoing messages, numbered from 1. */
  function AllNumbered(p: Protocol, outgoing: seq<Outgoing>): seq<Message> {
    if outgoing == [] then []
    else AllNumbered(p, outgoing[..|outgoing| - 1]) + [Numbered(p, |outgoing|, outgoing[|outgoing| - 1])]
  }

  function Answered(outgoing: seq<Outgoing>): seq<Message> {
    if outgoing == [] then []
    else
      var last := outgoing[|outgoing| - 1];
      Answered(outgoing[..|outgoing| - 1]) + (if last.Answer? then [last.request] else [])
  }

  function RelayedMessages(outgoing: seq<Outgoing>): seq<Message> {
    if outgoing == [] then []
    else
      var last := outgoing[|outgoing| - 1];
      RelayedMessages(outgoing[..|outgoing| - 1]) + (if last.Relayed? then [last.message] else [])
  }

  /** The adapter's variables (`transport` is set when `handled` is), the paused input that the runtime holds,
      and the streams written so far. */
  datatype RelayState = RelayState(
    forward: seq<Bytes>,
    accumulated: Bytes,
    transport: Option<Transport>,
    sendSeq: nat,
    buffered: Bytes,
    connected: bool,
    paused: Bytes,
    toTransport: Bytes,
    toClient: Bytes
  )

  const FRESH := RelayState([], [], None, 1, [], false, [], [], [])

  // One step at a time, as functions of the state.

  /** Writes one message to the client, under the next number. */
  function Send(p: Protocol, s: RelayState, message: Outgoing): RelayState {
    s.(sendSeq := s.sendSeq + 1, toClient := s.toClient + Frame(p, Numbered(p, s.sendSeq, message)))
  }

  /** The transport a request selects, unless one has been selected. */
  function Select(p: Protocol, selected: Option<Transport>, message: Message): Option<Transport> {
    if selected.Some? then selected
    else match p.request(message)
      case Launch => Some(LaunchTransport)
      case Attach(port) => Some(AttachTransport(port))
      case _ => None
  }

  /** Looks at one message before the hand-over: answers it, or keeps it for the transport. */
  function Classify(p: Protocol, s: RelayState, message: Message): RelayState {
    if p.request(message).Initialize? then Send(p, s, Answer(message))
    else s.(forward := s.forward + [Frame(p, message)], transport := Select(p, s.transport, message))
  }

  function ClassifyAll(p: Protocol, s: RelayState, messages: seq<Message>): RelayState {
    if messages == [] then s
    else Classify(p, ClassifyAll(p, s, messages[..|messages| - 1]), messages[|messages| - 1])
  }

  function RelayAll(p: Protocol, s: RelayState, messages: seq<Message>): RelayState {
    if messages == [] then s
    else Send(p, RelayAll(p, s, messages[..|messages| - 1]), Relayed(messages[|messages| - 1]))
  }

  datatype Event = FromClient(chunk: Bytes) | Connects | FromTransport(chunk: Bytes)

  /** A transport is connected to once one is selected, and speaks once it is connected. */
  predicate Enabled(s: RelayState, event: Event) {
    match event
    case FromClient(_) => true
    case Connects => s.transport.Some? && !s.connected
    case FromTransport(_) => s.connected
  }

  function Step(p: Protocol, s: RelayState, event: Event): RelayState {
    match event
    case FromClient(chunk) =>
      if s.transport.None? then
        var (messages, remaining) := Extract(p, s.accumulated + chunk);
        ClassifyAll(p, s, messages).(accumulated := remaining)
      else if s.connected then s.(toTransport := s.toTransport + chunk)
      else s.(paused := s.paused + chunk)
    case Connects =>
      s.(forward := [], accumulated := [], connected := true, paused := [],
         toTransport := s.toTransport + Concat(s.forward) + s.accumulated + s.paused)
    case FromTransport(chunk) =>
      var (messages, remaining) := Extract(p, s.buffered + chunk);
      RelayAll(p, s.(buffered := remaining), messages)
  }

  function Run(p: Protocol, events: seq<Event>): RelayState {
    if events == [] then FRESH else Step(p, Run(p, events[..|events| - 1]), events[|events| - 1])
  }

  predicate Possible(p: Protocol, events: seq<Event>) {
    events == [] ||
    (Possible(p, events[..|events| - 1]) && Enabled(Run(p, events[..|events| - 1]), events[|events| - 1]))
  }

  function ClientBytes(events: seq<Event>): Bytes {
    if events == [] then []
    else
      var last := events[|events| - 1];
      ClientBytes(events[..|events| - 1]) + (if last.FromClient? then last.chunk else [])
  }

  function TransportBytes(events: seq<Event>): Bytes {
    if events == [] then []
    else
      var last := events[|events| - 1];
      TransportBytes(events[..|events| - 1]) + (if last.FromTransport? then last.chunk else [])
  }

  /** The messages the client has completed before the hand-over: all of them, up to and including the chunk that
      completes the first launch or attach request. */
  function SeenBefore(p: Protocol, events: seq<Event>): seq<Message> {
    if events == [] then []
    else
      var before := SeenBefore(p, events[..|events| - 1]);
      if FirstTransport(p, before).Some? then before else Extract(p, ClientBytes(events)).0
  }

  // ---------------------------------------------------------------- what the relay has done

  /** The client's messages seen before the hand-over, the client's bytes after these, and the messages sent to
      the client. */
  datatype History = History(seen: seq<Message>, rest: Bytes, outgoing: seq<Outgoing>)

  /** The messages seen have been answered or kept, and the answers are among the numbered messages sent. */
  ghost predicate Treated(p: Protocol, s: RelayState, seen: seq<Message>, outgoing: seq<Outgoing>) {
    && s.transport == FirstTransport(p, seen)
    && Answered(outgoing) == Initializes(p, seen)
    && s.sendSeq == |outgoing| + 1
    && s.toClient == FrameAll(p, AllNumbered(p, outgoing))
  }

  ghost predicate Kept(p: Protocol, s: RelayState, seen: seq<Message>) {
    Concat(s.forward) == FrameAll(p, Forwarded(p, seen))
  }

  /** Where the client's bytes are. */
  ghost predicate Routed(p: Protocol, s: RelayState, h: History) {
    if s.connected then
      s.toTransport == FrameAll(p, Forwarded(p, h.seen)) + h.rest && s.transport.Some?
    else
      && s.toTransport == [] && Kept(p, s, h.seen) && h.rest == s.accumulated + s.paused
      && (s.transport.None? ==> s.paused == [] && Extract(p, h.rest) == ([], h.rest))
  }

  ghost predicate Explains(p: Protocol, s: RelayState, h: History, fromClient: Bytes, fromTransport: Bytes) {
    && Treated(p, s, h.seen, h.outgoing) && Routed(p, s, h)
    && Extract(p, fromClient) == After(h.seen, Extract(p, h.rest))
    && Extract(p, fromTransport) == (RelayedMessages(h.outgoing), s.buffered)
  }

  lemma NumberedAppend(p: Protocol, outgoing: seq<Outgoing>, message: Outgoing)
    ensures var numbered := Numbered(p, |outgoing| + 1, message);
            FrameAll(p, AllNumbered(p, outgoing + [message])) ==
                FrameAll(p, AllNumbered(p, outgoing)) + Frame(p, numbered)
  {
    var numbered := Numbered(p, |outgoing| + 1, message);
    assert (outgoing + [message])[..|outgoing|] == outgoing;
    FrameAllAppend(p, AllNumbered(p, outgoing), numbered);
  }

  lemma FrameAllAppend(p: Protocol, messages: seq<Message>, message: Message)
    ensures FrameAll(p, messages + [message]) == FrameAll(p, messages) + Frame(p, message)
  {
    assert (messages + [message])[..|messages|] == messages;
  }

  lemma ConcatAppend(chunks: seq<Bytes>, chunk: Bytes)
    ensures Concat(chunks + [chunk]) == Concat(chunks) + chunk
  {
    assert (chunks + [chunk])[..|chunks|] == chunks;
  }

  lemma SeenAppend(p: Protocol, seen: seq<Message>, message: Message)
    ensures var initialize := p.request(message).Initialize?;
            && Forwarded(p, seen + [message]) ==
                (if initialize then Forwarded(p, seen) else Forwarded(p, seen) + [message])
            && Initializes(p, seen + [message]) ==
                (if initialize then Initializes(p, seen) + [message] else Initializes(p, seen))
    ensures FirstTransport(p, seen + [message]) ==
            if FirstTransport(p, seen).Some? then FirstTransport(p, seen)
            else match p.request(message)
                 case Launch => Some(LaunchTransport)
                 case Attach(port) => Some(AttachTransport(port))
                 case _ => None
  {
    assert (seen + [message])[..|seen|] == seen;
  }

  lemma AnsweredAppend(outgoing: seq<Outgoing>, message: Outgoing)
    ensures Answered(outgoing + [message]) == Answered(outgoing) + (if message.Answer? then [message.request] else [])
    ensures RelayedMessages(outgoing + [message]) ==
              RelayedMessages(outgoing) + (if message.Relayed? then [message.message] else [])
  {
    assert (outgoing + [message])[..|outgoing|] == outgoing;
  }

  /** More input after the messages seen and a remainder. */
  lemma AfterMore(p: Protocol, seen: seq<Message>, rest: Bytes, chunk: Bytes)
    ensures var extracted := After(seen, Extract(p, rest));
            After(extracted.0, Extract(p, extracted.1 + chunk)) == After(seen, Extract(p, rest + chunk))
  {
    ExtractMore(p, rest, chunk);
    AfterTwice(seen, Extract(p, rest).0, Extract(p, Extract(p, rest).1 + chunk));
  }

  lemma AfterRemainder(p: Protocol, seen: seq<Message>, rest: Bytes)
    requires Extract(p, rest) == ([], rest)
    ensures After(seen, Extract(p, rest)) == (seen, rest)
  {
    assert seen + [] == seen;
  }

  lemma ClassifyTreats(p: Protocol, s: RelayState, seen: seq<Message>, outgoing: seq<Outgoing>, message: Message)
      returns (more: seq<Outgoing>)
    requires Treated(p, s, seen, outgoing) && Kept(p, s, seen)
    ensures var t := Classify(p, s, message);
            && Treated(p, t, seen + [message], more) && Kept(p, t, seen + [message])
            && RelayedMessages(more) == RelayedMessages(outgoing)
            && t == s.(forward := t.forward, transport := t.transport, sendSeq := t.sendSeq, toClient := t.toClient)
  {
    SeenAppend(p, seen, message);
    if p.request(message).Initialize? {
      more := outgoing + [Answer(message)];
      NumberedAppend(p, outgoing, Answer(message));
      AnsweredAppend(outgoing, Answer(message));
    } else {
      more := outgoing;
      ConcatAppend(s.forward, Frame(p, message));
      FrameAllAppend(p, Forwarded(p, seen), message);
    }
  }

  lemma {:induction false} ClassifyAllTreats(
    p: Protocol, s: RelayState, seen: seq<Message>, outgoing: seq<Outgoing>, messages: seq<Message>)
      returns (more: seq<Outgoing>)
    requires Treated(p, s, seen, outgoing) && Kept(p, s, seen)
    ensures var t := ClassifyAll(p, s, messages);
            && Treated(p, t, seen + messages, more) && Kept(p, t, seen + messages)
            && RelayedMessages(more) == RelayedMessages(outgoing)
            && t == s.(forward := t.forward, transport := t.transport, sendSeq := t.sendSeq, toClient := t.toClient)
  {
    if messages == [] {
      AppendNothing(seen);
      return outgoing;
    }
    var init, last := messages[..|messages| - 1], messages[|messages| - 1];
    var earlier := ClassifyAllTreats(p, s, seen, outgoing, init);
    InitOfConcat(init, [last]);
    Assoc(seen, init, [last]);
    more := ClassifyTreats(p, ClassifyAll(p, s, init), seen + init, earlier, last);
    assert messages == init + [last];
  }

  lemma {:induction false} RelayAllTreats(p: Protocol, s: RelayState, seen: seq<Message>, outgoing: seq<Outgoing>,
      messages: seq<Message>)
      returns (more: seq<Outgoing>)
    requires Treated(p, s, seen, outgoing)
    ensures var t := RelayAll(p, s, messages);
            && Treated(p, t, seen, more)
            && RelayedMessages(more) == RelayedMessages(outgoing) + messages
            && t == s.(sendSeq := t.sendSeq, toClient := t.toClient)
  {
    if messages == [] {
      return outgoing;
    }
    var init, last := messages[..|messages| - 1], messages[|messages| - 1];
    var earlier := RelayAllTreats(p, s, seen, outgoing, init);
    more := earlier + [Relayed(last)];
    NumberedAppend(p, earlier, Relayed(last));
    AnsweredAppend(earlier, Relayed(last));
    assert messages == init + [last];
  }

  lemma MoreAfterSeen(p: Protocol, client: Bytes, seen: seq<Message>, rest: Bytes, chunk: Bytes)
    requires Extract(p, client) == After(seen, Extract(p, rest))
    ensures Extract(p, client + chunk) == After(seen, Extract(p, rest + chunk))
  {
    ExtractMore(p, client, chunk);
    AfterMore(p, seen, rest, chunk);
  }

  lemma MoreSeen(p: Protocol, client: Bytes, seen: seq<Message>, rest: Bytes, chunk: Bytes)
    requires Extract(p, client) == After(seen, Extract(p, rest))
    ensures var (messages, remaining) := Extract(p, rest + chunk);
            && Extract(p, client + chunk) == After(seen + messages, Extract(p, remaining))
            && Extract(p, remaining) == ([], remaining)
  {
    MoreAfterSeen(p, client, seen, rest, chunk);
    RemainderIsIncomplete(p, rest + chunk);
    var (messages, remaining) := Extract(p, rest + chunk);
    AfterRemainder(p, seen + messages, remaining);
  }

  lemma SeenStepExplained(p: Protocol, s: RelayState, h: History, fromClient: Bytes, fromTransport: Bytes, chunk: Bytes)
      returns (h': History)
    requires Explains(p, s, h, fromClient, fromTransport) && s.transport.None?
    ensures Explains(p, Step(p, s, FromClient(chunk)), h', fromClient + chunk, fromTransport)
    ensures Extract(p, h'.rest) == ([], h'.rest)
  {
    assert h.rest == s.accumulated;
    MoreSeen(p, fromClient, h.seen, h.rest, chunk);
    var (messages, remaining) := Extract(p, s.accumulated + chunk);
    var more := ClassifyAllTreats(p, s, h.seen, h.outgoing, messages);
    h' := History(h.seen + messages, remaining, more);
    var t := Step(p, s, FromClient(chunk));
    assert t == ClassifyAll(p, s, messages).(accumulated := remaining);
    assert Treated(p, t, h'.seen, h'.outgoing);
    assert Routed(p, t, h') by {
      assert remaining + [] == remaining;
    }
  }

  lemma PipeStepExplained(p: Protocol, s: RelayState, h: History, fromClient: Bytes, fromTransport: Bytes, chunk: Bytes)
    requires Explains(p, s, h, fromClient, fromTransport) && s.transport.Some?
    ensures Explains(p, Step(p, s, FromClient(chunk)), h.(rest := h.rest + chunk), fromClient + chunk, fromTransport)
  {
    var t, h' := Step(p, s, FromClient(chunk)), h.(rest := h.rest + chunk);
    PipeStepRouted(p, s, h, chunk);
    assert Treated(p, t, h'.seen, h'.outgoing);
    MoreAfterSeen(p, fromClient, h.seen, h.rest, chunk);
  }

  lemma PipeStepRouted(p: Protocol, s: RelayState, h: History, chunk: Bytes)
    requires Routed(p, s, h) && s.transport.Some?
    ensures Routed(p, Step(p, s, FromClient(chunk)), h.(rest := h.rest + chunk))
  {
    var forwarded := FrameAll(p, Forwarded(p, h.seen));
    assert forwarded + h.rest + chunk == forwarded + (h.rest + chunk);
    assert s.accumulated + s.paused + chunk == s.accumulated + (s.paused + chunk);
  }

  lemma ConnectRouted(p: Protocol, s: RelayState, h: History)
    requires Routed(p, s, h) && Enabled(s, Connects)
    ensures Routed(p, Step(p, s, Connects), h)
  {
    Assoc(Concat(s.forward), s.accumulated, s.paused);
  }

  lemma ConnectExplained(p: Protocol, s: RelayState, h: History, fromClient: Bytes, fromTransport: Bytes)
    requires Explains(p, s, h, fromClient, fromTransport) && Enabled(s, Connects)
    ensures Explains(p, Step(p, s, Connects), h, fromClient, fromTransport)
  {
    ConnectRouted(p, s, h);
    assert Treated(p, Step(p, s, Connects), h.seen, h.outgoing);
  }

  lemma TransportStepExplained(p: Protocol, s: RelayState, h: History, fromClient: Bytes, fromTransport: Bytes,
      chunk: Bytes)
      returns (h': History)
    requires Explains(p, s, h, fromClient, fromTransport) && Enabled(s, FromTransport(chunk))
    ensures Explains(p, Step(p, s, FromTransport(chunk)), h', fromClient, fromTransport + chunk)
    ensures h'.seen == h.seen
  {
    ExtractMore(p, fromTransport, chunk);
    var (messages, remaining) := Extract(p, s.buffered + chunk);
    var more := RelayAllTreats(p, s.(buffered := remaining), h.seen, h.outgoing, messages);
    h' := h.(outgoing := more);
  }

  /** The messages seen are the ones completed before the hand-over. */
  lemma SeenBeforeStep(p: Protocol, events: seq<Event>, s: RelayState, h: History, h': History)
    requires events != [] && h.seen == SeenBefore(p, events[..|events| - 1])
    requires s.transport == FirstTransport(p, h.seen)
    requires s.transport.Some? ==> h'.seen == h.seen
    requires s.transport.None? ==> Extract(p, ClientBytes(events)) == After(h'.seen, Extract(p, h'.rest))
    requires s.transport.None? ==> Extract(p, h'.rest) == ([], h'.rest)
    ensures h'.seen == SeenBefore(p, events)
  {
    if s.transport.None? {
      AfterRemainder(p, h'.seen, h'.rest);
    }
  }

  /** Whatever happens, in whatever pieces and order, the relay's state is explained by one history, in which the
      messages seen are those completed before the hand-over. */
  lemma {:induction false} RunExplained(p: Protocol, events: seq<Event>) returns (h: History)
    requires Possible(p, events)
    ensures Explains(p, Run(p, events), h, ClientBytes(events), TransportBytes(events))
    ensures h.seen == SeenBefore(p, events)
  {
    if events == [] {
      h := History([], [], []);
      AfterNothing(Extract(p, []));
      return;
    }
    var init, last := events[..|events| - 1], events[|events| - 1];
    var s, client, transport := Run(p, init), ClientBytes(init), TransportBytes(init);
    var before := RunExplained(p, init);
    h := EventExplained(p, s, before, client, transport, last);
    AppendNothing(client);
    AppendNothing(transport);
    SeenBeforeStep(p, events, s, before, h);
  }

  /** One event more. */
  lemma EventExplained(p: Protocol, s: RelayState, h: History, client: Bytes, transport: Bytes, event: Event)
      returns (h': History)
    requires Explains(p, s, h, client, transport) && Enabled(s, event)
    ensures Explains(p, Step(p, s, event), h', client + (if event.FromClient? then event.chunk else []),
                     transport + if event.FromTransport? then event.chunk else [])
    ensures if s.transport.Some? then h'.seen == h.seen else event.FromClient? && Extract(p, h'.rest) == ([], h'.rest)
  {
    AppendNothing(client);
    AppendNothing(transport);
    match event {
      case FromClient(chunk) =>
        if s.transport.None? {
          h' := SeenStepExplained(p, s, h, client, transport, chunk);
        } else {
          PipeStepExplained(p, s, h, client, transport, chunk);
          h' := h.(rest := h.rest + chunk);
        }
      case Connects =>
        ConnectExplained(p, s, h, client, transport);
        h' := h;
      case FromTransport(chunk) =>
        h' := TransportStepExplained(p, s, h, client, transport, chunk);
    }
  }

  lemma {:induction false} FirstTransportOfMore(p: Protocol, seen: seq<Message>, more: seq<Message>)
    requires FirstTransport(p, seen).Some?
    ensures FirstTransport(p, seen + more) == FirstTransport(p, seen)
  {
    if more == [] {
      assert seen + more == seen;
    } else {
      FirstTransportOfMore(p, seen, more[..|more| - 1]);
      assert (seen + more)[..|seen + more| - 1] == seen + more[..|more| - 1];
    }
  }

  /** From end to end: once connected, the transport reads the client's messages in order, less the `initialize`
      requests among those completed before the hand-over. */
  lemma TransportReadsTheClient(p: Protocol, events: seq<Event>)
    requires p.RoundTrips() && Possible(p, events) && Run(p, events).connected
    ensures var (sent, remaining) := Extract(p, ClientBytes(events));
            var seen := SeenBefore(p, events);
            && seen <= sent
            && Extract(p, Run(p, events).toTransport) == (Forwarded(p, seen) + sent[|seen|..], remaining)
  {
    var h := RunExplained(p, events);
    FramesAreExtracted(p, Forwarded(p, h.seen), h.rest);
    var later := Extract(p, h.rest).0;
    assert (h.seen + later)[|h.seen|..] == later;
  }

  /** The messages of the transport, and one answer for each of some requests, in some interleaving. */
  ghost predicate Interleaves(outgoing: seq<Outgoing>, relayed: seq<Message>, requests: seq<Message>) {
    RelayedMessages(outgoing) == relayed && Answered(outgoing) == requests
  }

  /** From end to end: at every moment the client reads the transport's complete messages in order, with exactly one
      answer for each `initialize` request completed before the hand-over, in order, and nothing else. Message `k`
      is the transport's own with only its number set, or an answer made for its request, under the number k + 1. */
  lemma ClientReadsTheTransport(p: Protocol, events: seq<Event>)
    requires p.RoundTrips() && Possible(p, events)
    ensures exists outgoing: seq<Outgoing> ::
              && Interleaves(outgoing, Extract(p, TransportBytes(events)).0, Initializes(p, SeenBefore(p, events)))
              && Extract(p, Run(p, events).toClient).1 == []
              && |Extract(p, Run(p, events).toClient).0| == |outgoing|
              && forall k :: 0 <= k < |outgoing| ==>
                   Extract(p, Run(p, events).toClient).0[k] ==
                     if outgoing[k].Relayed? then p.withSeq(outgoing[k].message, k + 1)
                     else p.initializeResponse(k + 1, outgoing[k].request)
  {
    var outgoing := Written(p, events);
  }

  /** What can happen next: the client speaks at any time, a transport that was asked for connects once, and speaks from
      then on. */
  lemma PossibleNext(p: Protocol, events: seq<Event>, event: Event)
    ensures Possible(p, events + [event]) <==>
            && Possible(p, events)
            && (event.Connects? ==>
                  FirstTransport(p, Extract(p, ClientBytes(events)).0).Some? && Connects !in events)
            && (event.FromTransport? ==> Connects in events)
  {
    ConnectedIff(p, events);
    InitOfConcat(events, [event]);
    AppendNothing(events);
    if Possible(p, events) {
      TransportIsSelected(p, events);
    }
  }

  lemma {:induction false} ConnectedIff(p: Protocol, events: seq<Event>)
    ensures Run(p, events).connected <==> Connects in events
  {
    if events != [] {
      var init, last := events[..|events| - 1], events[|events| - 1];
      ConnectedIff(p, init);
      assert events == init + [last];
      if last.FromClient? {
        ClassifyAllKeepsConnected(p, Run(p, init), Extract(p, Run(p, init).accumulated + last.chunk).0);
      } else if last.FromTransport? {
        var s := Run(p, init);
        var (messages, remaining) := Extract(p, s.buffered + last.chunk);
        RelayAllKeepsConnected(p, s.(buffered := remaining), messages);
      }
    }
  }

  lemma {:induction false} ClassifyAllKeepsConnected(p: Protocol, s: RelayState, messages: seq<Message>)
    ensures ClassifyAll(p, s, messages).connected == s.connected
  {
    if messages != [] {
      ClassifyAllKeepsConnected(p, s, messages[..|messages| - 1]);
    }
  }

  lemma {:induction false} RelayAllKeepsConnected(p: Protocol, s: RelayState, messages: seq<Message>)
    ensures RelayAll(p, s, messages).connected == s.connected
  {
    if messages != [] {
      RelayAllKeepsConnected(p, s, messages[..|messages| - 1]);
    }
  }

  /** What has been written to the client. */
  lemma Written(p: Protocol, events: seq<Event>) returns (outgoing: seq<Outgoing>)
    requires p.RoundTrips() && Possible(p, events)
    ensures Interleaves(outgoing, Extract(p, TransportBytes(events)).0, Initializes(p, SeenBefore(p, events)))
    ensures var (messages, remaining) := Extract(p, Run(p, events).toClient);
            && remaining == [] && |messages| == |outgoing|
            && forall k :: 0 <= k < |outgoing| ==>
                 messages[k] == if outgoing[k].Relayed? then p.withSeq(outgoing[k].message, k + 1)
                                else p.initializeResponse(k + 1, outgoing[k].request)
  {
    var h := RunExplained(p, events);
    outgoing := h.outgoing;
    FramesAreExtracted(p, AllNumbered(p, outgoing), []);
    AppendNothing(FrameAll(p, AllNumbered(p, outgoing)));
    AppendNothing(AllNumbered(p, outgoing));
    AllNumberedSize(p, outgoing);
    forall k | 0 <= k < |outgoing|
      ensures AllNumbered(p, outgoing)[k] == Numbered(p, k + 1, outgoing[k])
    {
      AllNumberedAt(p, outgoing, k);
    }
  }

  // What is answered and what is relayed, in any interleaving, and which of the messages seen are which: laws over
  // the messages themselves.

  lemma {:induction false} SidesOfMore(outgoing: seq<Outgoing>, more: seq<Outgoing>)
    ensures Answered(outgoing + more) == Answered(outgoing) + Answered(more)
    ensures RelayedMessages(outgoing + more) == RelayedMessages(outgoing) + RelayedMessages(more)
  {
    if more == [] {
      AppendNothing(outgoing);
      AppendNothing(Answered(outgoing));
      AppendNothing(RelayedMessages(outgoing));
    } else {
      var init, last := more[..|more| - 1], more[|more| - 1];
      SidesOfMore(outgoing, init);
      InitOfConcat(outgoing, more);
      Assoc(Answered(outgoing), Answered(init), if last.Answer? then [last.request] else []);
      Assoc(RelayedMessages(outgoing), RelayedMessages(init), if last.Relayed? then [last.message] else []);
    }
  }

  lemma SidesOfOne(message: Message)
    ensures Answered([Answer(message)]) == [message] && RelayedMessages([Answer(message)]) == []
    ensures Answered([Relayed(message)]) == [] && RelayedMessages([Relayed(message)]) == [message]
  {
    AnsweredAppend([], Answer(message));
    AnsweredAppend([], Relayed(message));
  }

  lemma {:induction false} SeenMore(p: Protocol, seen: seq<Message>, more: seq<Message>)
    ensures Forwarded(p, seen + more) == Forwarded(p, seen) + Forwarded(p, more)
    ensures Initializes(p, seen + more) == Initializes(p, seen) + Initializes(p, more)
  {
    if more == [] {
      AppendNothing(seen);
      AppendNothing(Forwarded(p, seen));
      AppendNothing(Initializes(p, seen));
    } else {
      var init, last := more[..|more| - 1], more[|more| - 1];
      SeenMore(p, seen, init);
      InitOfConcat(seen, more);
      Assoc(Forwarded(p, seen), Forwarded(p, init), if p.request(last).Initialize? then [] else [last]);
      Assoc(Initializes(p, seen), Initializes(p, init), if p.request(last).Initialize? then [last] else []);
    }
  }

  lemma SeenOne(p: Protocol, message: Message)
    ensures p.request(message).Initialize? ==> Forwarded(p, [message]) == [] && Initializes(p, [message]) == [message]
    ensures !p.request(message).Initialize? ==> Forwarded(p, [message]) == [message] && Initializes(p, [message]) == []
  {
    SeenAppend(p, [], message);
  }

  predicate Selects(request: Request) {
    request.Launch? || request.Attach?
  }

  /** The first message that is a launch or an attach request selects; without one, nothing is selected. */
  lemma {:induction false} FirstSelects(p: Protocol, messages: seq<Message>, k: nat)
    requires k <= |messages|
    requires forall j :: 0 <= j < k ==> !Selects(p.request(messages[j]))
    ensures k == |messages| ==> FirstTransport(p, messages).None?
    ensures k < |messages| && p.request(messages[k]).Launch? ==> FirstTransport(p, messages) == Some(LaunchTransport)
    ensures k < |messages| && p.request(messages[k]).Attach? ==>
              FirstTransport(p, messages) == Some(AttachTransport(p.request(messages[k]).port))
  {
    if messages != [] {
      var init := messages[..|messages| - 1];
      FirstSelects(p, init, if k < |messages| then k else |init|);
    }
  }

  /** The messages completed before the hand-over are those of the first `n` events, when these are the first to hold
      a launch or attach request, or all there are. */
  lemma {:induction false} SeenUntilHandOver(p: Protocol, events: seq<Event>, n: nat)
    requires n <= |events|
    requires forall i, m :: 0 <= i < n && m in Extract(p, ClientBytes(events[..i])).0 ==> !Selects(p.request(m))
    requires n < |events| ==> exists m :: m in Extract(p, ClientBytes(events[..n])).0 && Selects(p.request(m))
    ensures SeenBefore(p, events) == Extract(p, ClientBytes(events[..n])).0
  {
    if events == [] {
      return;
    }
    var init := events[..|events| - 1];
    forall i | 0 <= i <= |init| ensures init[..i] == events[..i] {
    }
    if n == |events| {
      assert events[..n] == events;
      SeenUntilHandOver(p, init, n - 1);
      FirstSelects(p, SeenBefore(p, init), |SeenBefore(p, init)|);
    } else {
      SeenUntilHandOver(p, init, n);
      SomeSelects(p, SeenBefore(p, init));
    }
  }

  lemma {:induction false} SomeSelects(p: Protocol, messages: seq<Message>)
    requires exists m :: m in messages && Selects(p.request(m))
    ensures FirstTransport(p, messages).Some?
  {
    var init := messages[..|messages| - 1];
    if exists m :: m in init && Selects(p.request(m)) {
      SomeSelects(p, init);
    }
  }

  /** What numbers an answer or a relayed message is what a reader finds as its `seq`. */
  ghost predicate ReadsSeq(p: Protocol, seqOf: Message -> nat) {
    forall n: nat, m :: seqOf(p.withSeq(m, n)) == n && seqOf(p.initializeResponse(n, m)) == n
  }

  lemma {:induction false} AllNumberedAt(p: Protocol, outgoing: seq<Outgoing>, k: nat)
    requires k < |outgoing|
    ensures |AllNumbered(p, outgoing)| == |outgoing|
    ensures AllNumbered(p, outgoing)[k] == Numbered(p, k + 1, outgoing[k])
  {
    var init := outgoing[..|outgoing| - 1];
    if init != [] {
      AllNumberedAt(p, init, if k < |init| then k else 0);
    }
  }

  /** The `seq` values the client reads are 1, 2, 3 and so on, under any interleaving of answers and relayed
      messages. */
  lemma ClientReadsNoGap(p: Protocol, events: seq<Event>, seqOf: Message -> nat)
    requires p.RoundTrips() && Possible(p, events) && ReadsSeq(p, seqOf)
    ensures CountsUp(Extract(p, Run(p, events).toClient).0, seqOf)
  {
    var outgoing := Written(p, events);
  }

  ghost predicate CountsUp(messages: seq<Message>, seqOf: Message -> nat) {
    forall k :: 0 <= k < |messages| ==> seqOf(messages[k]) == k + 1
  }

  lemma {:induction false} AllNumberedSize(p: Protocol, outgoing: seq<Outgoing>)
    ensures |AllNumbered(p, outgoing)| == |outgoing|
  {
    if outgoing != [] {
      AllNumberedSize(p, outgoing[..|outgoing| - 1]);
    }
  }

  /** A transport is selected as soon as the client has sent a whole launch or attach request: by the first. */
  lemma TransportIsSelected(p: Protocol, events: seq<Event>)
    requires Possible(p, events)
    ensures Run(p, events).transport == FirstTransport(p, Extract(p, ClientBytes(events)).0)
  {
    var h := RunExplained(p, events);
    if Run(p, events).transport.Some? {
      FirstTransportOfMore(p, h.seen, Extract(p, h.rest).0);
    } else {
      AfterRemainder(p, h.seen, h.rest);
    }
  }

  // ---------------------------------------------------------------- the adapter

  class Relay {
    var forward: seq<Bytes>
    var accumulated: Bytes
    var transport: Option<Transport>
    var sendSeq: nat
    var buffered: Bytes
    var connected: bool
    var paused: Bytes
    var toTransport: Bytes
    var toClient: Bytes

    function State(): RelayState
      reads this
    {
      RelayState(forward, accumulated, transport, sendSeq, buffered, connected, paused, toTransport, toClient)
    }

    constructor ()
      ensures State() == FRESH
    {
      forward, accumulated, transport, sendSeq, buffered := [], [], None, 1, [];
      connected, paused, toTransport, toClient := false, [], [], [];
    }

    method AnswerInitialize(p: Protocol, request: Message)
      modifies this
      ensures State() == old(Send(p, State(), Answer(request)))
    {
      toClient := toClient + Frame(p, p.initializeResponse(sendSeq, request));
      sendSeq := sendSeq + 1;
    }

    /** Input before the hand-over. */
    method OnData(p: Protocol, chunk: Bytes)
      requires transport.None?
      modifies this
      ensures State() == old(Step(p, State(), FromClient(chunk)))
    {
      accumulated := accumulated + chunk;
      var messages, remaining := ExtractMessages(p, accumulated);
      accumulated := remaining;
      var selected: Option<Transport> := None;
      ghost var before := old(State()).(accumulated := remaining);
      for k := 0 to |messages|
        invariant transport.None? && State().(transport := selected) == ClassifyAll(p, before, messages[..k])
      {
        assert messages[..k + 1][..k] == messages[..k];
        if p.request(messages[k]).Initialize? {
          AnswerInitialize(p, messages[k]);
          continue;
        }
        forward := forward + [Frame(p, messages[k])];
        if selected.Some? {
          continue;
        }
        match p.request(messages[k]) {
          case Launch => selected := Some(LaunchTransport);
          case Attach(port) => selected := Some(AttachTransport(port));
          case _ =>
        }
      }
      assert messages[..|messages|] == messages;
      ClassifyIgnoresAccumulated(p, old(State()), messages, remaining);
      transport := selected;
    }

    /** Input after the hand-over: into the paused stream, or through the pipe. */
    method OnPipe(p: Protocol, chunk: Bytes)
      requires transport.Some?
      modifies this
      ensures State() == old(Step(p, State(), FromClient(chunk)))
    {
      if connected {
        toTransport := toTransport + chunk;
      } else {
        paused := paused + chunk;
      }
    }

    /** The transport is there: replay what was kept, then let the paused input through. */
    method Replay(p: Protocol)
      requires Enabled(State(), Connects)
      modifies this
      ensures State() == old(Step(p, State(), Connects))
    {
      for k := 0 to |forward|
        invariant State() == old(State()).(toTransport := old(toTransport) + Concat(old(forward)[..k]))
      {
        assert old(forward)[..k + 1][..k] == old(forward)[..k];
        toTransport := toTransport + forward[k];
      }
      assert old(forward)[..|old(forward)|] == old(forward);
      forward := [];
      if |accumulated| > 0 {
        toTransport := toTransport + accumulated;
        accumulated := [];
      }
      connected := true;
      toTransport := toTransport + paused;
      paused := [];
    }

    /** Output of the transport: every complete message is renumbered and passed on. */
    method RelayOutput(p: Protocol, chunk: Bytes)
      requires connected
      modifies this
      ensures State() == old(Step(p, State(), FromTransport(chunk)))
    {
      buffered := buffered + chunk;
      var messages, remaining := ExtractMessages(p, buffered);
      buffered := remaining;
      ghost var before := State();
      for k := 0 to |messages|
        invariant State() == RelayAll(p, before, messages[..k])
      {
        assert messages[..k + 1][..k] == messages[..k];
        var message := p.withSeq(messages[k], sendSeq);
        sendSeq := sendSeq + 1;
        toClient := toClient + Frame(p, message);
      }
      assert messages[..|messages|] == messages;
    }
  }

  lemma {:induction false} ClassifyIgnoresAccumulated(p: Protocol, s: RelayState, messages: seq<Message>,
      remaining: Bytes)
    ensures ClassifyAll(p, s.(accumulated := remaining), messages) ==
              ClassifyAll(p, s, messages).(accumulated := remaining)
  {
    if messages != [] {
      ClassifyIgnoresAccumulated(p, s, messages[..|messages| - 1], remaining);
    }
  }

  /** The adapter on any possible sequence of events, event by event. */
  method Serve(p: Protocol, events: seq<Event>) returns (relay: Relay)
    requires Possible(p, events)
    ensures fresh(relay) && relay.State() == Run(p, events)
  {
    relay := new Relay();
    for i := 0 to |events|
      invariant fresh(relay) && relay.State() == Run(p, events[..i])
    {
      PossibleSoFar(p, events, i + 1);
      assert events[..i + 1][..i] == events[..i];
      match events[i] {
        case FromClient(chunk) =>
          if relay.transport.None? {
            relay.OnData(p, chunk);
          } else {
            relay.OnPipe(p, chunk);
          }
        case Connects => relay.Replay(p);
        case FromTransport(chunk) => relay.RelayOutput(p, chunk);
      }
    }
    assert events[..|events|] == events;
  }

  lemma {:induction false} PossibleSoFar(p: Protocol, events: seq<Event>, i: nat)
    requires Possible(p, events) && i <= |events|
    ensures Possible(p, events[..i])
    decreases |events|
  {
    if i < |events| {
      PossibleSoFar(p, events[..|events| - 1], i);
      assert events[..|events| - 1][..i] == events[..i];
    } else {
      assert events[..i] == events;
    }
  }
}
