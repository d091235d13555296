/**
 The chat component's state and the events that change it. The component
 keeps three pieces of state: the message timeline, whether the relay
 connection is up, and the text being composed. Relay events replace the
 timeline (`messages`), append to it (`message`) or flip the liveness flag
 (`connect`, `disconnect`); local actions edit the composition text or send
 it. The timeline is a plain list: it is replaced and appended to exactly as
 delivered, with no de-duplication and no merging.
 */
module Chat {
  import opened JsString
  import opened Wrappers

  /** A chat message as the relay delivers it. */
  datatype Message = Message(id: string, text: string, ip: string, createdAt: string)

  /** The component's state. */
  datatype State = State(messages: seq<Message>, connected: bool, input: string)

  /** The state on mount: no messages, not connected, nothing typed. */
  const Initial: State := State([], false, "")

  /** What reaches the component, in the order it is delivered. */
  datatype Event =
    | MessagesEvent(snapshot: seq<Message>)  // relay `messages`: the whole list
    | MessageEvent(message: Message)         // relay `message`: one new entry
    | ConnectEvent                           // relay `connect`
    | DisconnectEvent                        // relay `disconnect`
    | InputChanged(value: string)            // the text box's change handler
    | SendClicked                            // the send button
  {
    predicate IsRelay() {
      MessagesEvent? || MessageEvent? || ConnectEvent? || DisconnectEvent?
    }
  }

  /** What the component emits to the relay: a `message` carrying only text. */
  datatype Outbound = EmitMessage(text: string)

  /** The state after one event and what that event emitted. */
  datatype Transition = Transition(state: State, emitted: seq<Outbound>)

  /** The `messages` handler: the snapshot becomes the timeline. */
  function OnMessages(s: State, snapshot: seq<Message>): (r: State)
    ensures r.messages == snapshot
    ensures r.connected == s.connected && r.input == s.input
  {
    s.(messages := snapshot)
  }

  /** The `message` handler: one entry more, at the end, earlier ones kept. */
  function OnMessage(s: State, m: Message): (r: State)
    ensures |r.messages| == |s.messages| + 1
    ensures r.messages[..|s.messages|] == s.messages
    ensures r.messages[|s.messages|] == m
    ensures r.connected == s.connected && r.input == s.input
  {
    s.(messages := s.messages + [m])
  }

  /** The `connect` handler. */
  function OnConnect(s: State): (r: State)
    ensures r.connected
    ensures r.messages == s.messages && r.input == s.input
  {
    s.(connected := true)
  }

  /** The `disconnect` handler. */
  function OnDisconnect(s: State): (r: State)
    ensures !r.connected
    ensures r.messages == s.messages && r.input == s.input
  {
    s.(connected := false)
  }

  /** The text box's change handler: the typed value becomes the input. */
  function OnInputChange(s: State, value: string): (r: State)
    ensures r.input == value
    ensures r.messages == s.messages && r.connected == s.connected
  {
    s.(input := value)
  }

  /** `sendMessage`: a blank input emits nothing and changes nothing; any
      other input is emitted exactly as typed, untrimmed, and then cleared.
      The timeline is left alone either way. */
  function SendMessage(s: State): (t: Transition)
    ensures t.emitted == [] <==> IsBlank(s.input)
    ensures IsBlank(s.input) ==> t.state == s
    ensures !IsBlank(s.input) ==> t.emitted == [EmitMessage(s.input)] && t.state.input == ""
    ensures t.state.messages == s.messages && t.state.connected == s.connected
  {
    TrimEmptyIffBlank(s.input);
    if Trim(s.input) != "" then Transition(s.(input := ""), [EmitMessage(s.input)])
    else Transition(s, [])
  }

  /** One event, dispatched to its handler. Only the send button emits, and
      what it emits is never blank; relay events never touch the input and
      local actions never touch the timeline. */
  function Step(s: State, e: Event): (t: Transition)
    ensures e.MessagesEvent? ==> t.state == OnMessages(s, e.snapshot)
    ensures e.MessageEvent? ==> t.state == OnMessage(s, e.message)
    ensures e.ConnectEvent? ==> t.state == OnConnect(s)
    ensures e.DisconnectEvent? ==> t.state == OnDisconnect(s)
    ensures e.InputChanged? ==> t.state.input == e.value
    ensures e.SendClicked? ==> t == SendMessage(s)
    ensures !e.SendClicked? ==> t.emitted == []
    ensures |t.emitted| <= 1
    ensures forall i :: 0 <= i < |t.emitted| ==> !IsBlank(t.emitted[i].text)
    ensures e.IsRelay() ==> t.state.input == s.input
    ensures !e.IsRelay() ==> t.state.messages == s.messages && t.state.connected == s.connected
  {
    match e
    case MessagesEvent(snapshot) => Transition(OnMessages(s, snapshot), [])
    case MessageEvent(m) => Transition(OnMessage(s, m), [])
    case ConnectEvent => Transition(OnConnect(s), [])
    case DisconnectEvent => Transition(OnDisconnect(s), [])
    case InputChanged(value) => Transition(OnInputChange(s, value), [])
    case SendClicked => SendMessage(s)
  }

  /** How many times the send button was pressed. */
  function CountSends(es: seq<Event>): nat {
    if |es| == 0 then 0
    else CountSends(es[..|es| - 1]) + (if es[|es| - 1].SendClicked? then 1 else 0)
  }

  /** A sequence of events, processed in order; the emissions are collected
      in order. At most one emission per press of the send button, and none
      of them blank. */
  function Run(s: State, es: seq<Event>): (t: Transition)
    ensures |t.emitted| <= CountSends(es)
    ensures forall i :: 0 <= i < |t.emitted| ==> !IsBlank(t.emitted[i].text)
  {
    if |es| == 0 then Transition(s, [])
    else
      var before := Run(s, es[..|es| - 1]);
      var last := Step(before.state, es[|es| - 1]);
      Transition(last.state, before.emitted + last.emitted)
  }

  /** The payloads of the `message` events, in delivery order. */
  function Received(es: seq<Event>): seq<Message> {
    if |es| == 0 then []
    else
      var e := es[|es| - 1];
      Received(es[..|es| - 1]) + (if e.MessageEvent? then [e.message] else [])
  }

  /** The position of the last `messages` event, if there is one. */
  function LastSnapshot(es: seq<Event>): (k: Option<nat>)
    ensures k.Some? ==> k.value < |es| && es[k.value].MessagesEvent?
    ensures k.Some? ==> forall j :: k.value < j < |es| ==> !es[j].MessagesEvent?
    ensures k.None? ==> forall j :: 0 <= j < |es| ==> !es[j].MessagesEvent?
  {
    if |es| == 0 then None
    else if es[|es| - 1].MessagesEvent? then Some(|es| - 1)
    else LastSnapshot(es[..|es| - 1])
  }

  /** The position of the last `connect` or `disconnect` event, if any. */
  function LastLiveness(es: seq<Event>): (k: Option<nat>)
    ensures k.Some? ==> k.value < |es| && (es[k.value].ConnectEvent? || es[k.value].DisconnectEvent?)
    ensures k.Some? ==> forall j :: k.value < j < |es| ==> !es[j].ConnectEvent? && !es[j].DisconnectEvent?
    ensures k.None? ==> forall j :: 0 <= j < |es| ==> !es[j].ConnectEvent? && !es[j].DisconnectEvent?
  {
    if |es| == 0 then None
    else if es[|es| - 1].ConnectEvent? || es[|es| - 1].DisconnectEvent? then Some(|es| - 1)
    else LastLiveness(es[..|es| - 1])
  }

  /** The timeline a replay predicts: the last snapshot followed by every
      message delivered after it, or, with no snapshot, the starting
      timeline followed by every message delivered. */
  function ExpectedTimeline(start: seq<Message>, es: seq<Event>): seq<Message> {
    match LastSnapshot(es)
    case None => start + Received(es)
    case Some(k) => es[k].snapshot + Received(es[k + 1..])
  }

  /** The timeline after any run of events is the one the replay predicts;
      in particular sends and typing never add to it. */
  lemma {:induction false} RunTimeline(s: State, es: seq<Event>)
    ensures Run(s, es).state.messages == ExpectedTimeline(s.messages, es)
  {
    if |es| > 0 {
      var init := es[..|es| - 1];
      var e := es[|es| - 1];
      RunTimeline(s, init);
      var before := Run(s, init).state;
      var after := Step(before, e).state;
      assert Run(s, es).state == after;
      if e.MessagesEvent? {
        assert LastSnapshot(es) == Some(|es| - 1);
        assert es[|es|..] == [];
      } else {
        ExpectedTimelineStep(s.messages, es);
        assert after.messages == before.messages + (if e.MessageEvent? then [e.message] else []);
      }
    }
  }

  /** A last event that is no snapshot extends the predicted timeline by
      its payload if it is a `message` event, and by nothing otherwise. */
  lemma ExpectedTimelineStep(start: seq<Message>, es: seq<Event>)
    requires |es| > 0 && !es[|es| - 1].MessagesEvent?
    ensures var e := es[|es| - 1];
            ExpectedTimeline(start, es) ==
            ExpectedTimeline(start, es[..|es| - 1]) + (if e.MessageEvent? then [e.message] else [])
  {
    var init := es[..|es| - 1];
    assert LastSnapshot(es) == LastSnapshot(init);
    match LastSnapshot(es)
    case None =>
      ReceivedStep(es);
    case Some(k) =>
      var tail := es[k + 1..];
      assert tail[..|tail| - 1] == init[k + 1..];
      ReceivedStep(tail);
  }

  /** The messages received over a sequence are those received over all but
      its last event, then the last event's payload if it is a `message`. */
  lemma ReceivedStep(es: seq<Event>)
    requires |es| > 0
    ensures var e := es[|es| - 1];
            Received(es) == Received(es[..|es| - 1]) + (if e.MessageEvent? then [e.message] else [])
  {
  }

  /** The liveness flag after any run of events is set by the last
      `connect` or `disconnect` among them, and kept when there is none. */
  lemma {:induction false} RunConnected(s: State, es: seq<Event>)
    ensures Run(s, es).state.connected ==
      match LastLiveness(es)
      case None => s.connected
      case Some(k) => es[k].ConnectEvent?
  {
    if |es| > 0 {
      var init := es[..|es| - 1];
      var e := es[|es| - 1];
      RunConnected(s, init);
      var after := Step(Run(s, init).state, e).state;
      assert Run(s, es).state == after;
      if !e.ConnectEvent? && !e.DisconnectEvent? {
        assert LastLiveness(es) == LastLiveness(init);
        assert after.connected == Run(s, init).state.connected;
      }
    }
  }

  /** The position of the last change to the text box, if any. */
  function LastTyped(es: seq<Event>): (k: Option<nat>)
    ensures k.Some? ==> k.value < |es| && es[k.value].InputChanged?
    ensures k.Some? ==> forall j :: k.value < j < |es| ==> !es[j].InputChanged?
    ensures k.None? ==> forall j :: 0 <= j < |es| ==> !es[j].InputChanged?
  {
    if |es| == 0 then None
    else if es[|es| - 1].InputChanged? then Some(|es| - 1)
    else LastTyped(es[..|es| - 1])
  }

  /** Whether the send button is pressed somewhere in `es`. */
  predicate SendIn(es: seq<Event>) {
    exists j :: 0 <= j < |es| && es[j].SendClicked?
  }

  /** The text left in the box when `typed` was last put there and `later`
      followed without typing: cleared if it was not blank and send was
      pressed, kept otherwise. */
  function AfterSends(typed: string, later: seq<Event>): string {
    if !IsBlank(typed) && SendIn(later) then "" else typed
  }

  /** The input a replay predicts: the last typed value (or the starting
      input), cleared if it was not blank and send was pressed after it. */
  function ExpectedInput(start: string, es: seq<Event>): string {
    match LastTyped(es)
    case None => AfterSends(start, es)
    case Some(k) => AfterSends(es[k].value, es[k + 1..])
  }

  /** The input after any run of events is the one the replay predicts. */
  lemma {:induction false} RunInput(s: State, es: seq<Event>)
    ensures Run(s, es).state.input == ExpectedInput(s.input, es)
  {
    if |es| > 0 {
      var init := es[..|es| - 1];
      var e := es[|es| - 1];
      RunInput(s, init);
      var before := Run(s, init).state;
      assert Run(s, es).state == Step(before, e).state;
      if e.InputChanged? {
        assert LastTyped(es) == Some(|es| - 1);
        assert !SendIn(es[|es|..]);
      } else {
        ExpectedInputStep(s.input, es);
        if e.SendClicked? {
          TrimEmptyIffBlank(before.input);
        }
      }
    }
  }

  /** An event other than typing clears the predicted input when it is a send
      press and the input was not blank, and leaves it alone otherwise. */
  lemma ExpectedInputStep(start: string, es: seq<Event>)
    requires |es| > 0 && !es[|es| - 1].InputChanged?
    ensures var prev := ExpectedInput(start, es[..|es| - 1]);
            ExpectedInput(start, es)
              == if es[|es| - 1].SendClicked? && !IsBlank(prev) then "" else prev
  {
    var init := es[..|es| - 1];
    assert LastTyped(es) == LastTyped(init);
    match LastTyped(es)
    case None =>
      AfterSendsStep(start, es);
    case Some(k) =>
      var tail := es[k + 1..];
      assert tail[..|tail| - 1] == init[k + 1..];
      assert tail[|tail| - 1] == es[|es| - 1];
      AfterSendsStep(es[k].value, tail);
  }

  /** One more event after the last typing: a send press clears text that is
      still there and not blank. */
  lemma AfterSendsStep(typed: string, later: seq<Event>)
    requires |later| > 0
    ensures var prev := AfterSends(typed, later[..|later| - 1]);
            AfterSends(typed, later)
              == if later[|later| - 1].SendClicked? && !IsBlank(prev) then "" else prev
  {
    SendInStep(later);
    assert IsBlank("");
  }

  /** Send is pressed in a non-empty sequence exactly when it is pressed in
      all but its last event, or at that last event. */
  lemma SendInStep(es: seq<Event>)
    requires |es| > 0
    ensures SendIn(es) <==> SendIn(es[..|es| - 1]) || es[|es| - 1].SendClicked?
  {
    var init := es[..|es| - 1];
    if SendIn(init) {
      var j :| 0 <= j < |init| && init[j].SendClicked?;
      assert es[j] == init[j];
    }
    if SendIn(es) && !es[|es| - 1].SendClicked? {
      var j :| 0 <= j < |es| && es[j].SendClicked?;
      assert init[j] == es[j];
    }
  }

  /** From the state on mount: without a snapshot the timeline is exactly the
      messages delivered; the flag is up exactly when the last liveness event
      was a `connect`; without typing the input stays empty. */
  lemma RunFromInitial(es: seq<Event>)
    ensures LastSnapshot(es).None? ==> Run(Initial, es).state.messages == Received(es)
    ensures Run(Initial, es).state.connected <==>
              LastLiveness(es).Some? && es[LastLiveness(es).value].ConnectEvent?
    ensures LastTyped(es).None? ==> Run(Initial, es).state.input == ""
  {
    RunTimeline(Initial, es);
    RunConnected(Initial, es);
    RunInput(Initial, es);
    assert [] + Received(es) == Received(es);
  }

  /** A run splits at any point into the run of its first part followed by
      the run of the rest. */
  lemma {:induction false} RunConcat(s: State, a: seq<Event>, b: seq<Event>)
    ensures Run(s, a + b).state == Run(Run(s, a).state, b).state
    ensures Run(s, a + b).emitted == Run(s, a).emitted + Run(Run(s, a).state, b).emitted
  {
    if |b| > 0 {
      var b' := b[..|b| - 1];
      assert (a + b)[..|a + b| - 1] == a + b';
      assert (a + b)[|a + b| - 1] == b[|b| - 1];
      RunConcat(s, a, b');
    } else {
      assert a + b == a;
    }
  }

  /** Sending a non-blank input and then receiving the relay's echo of it
      adds exactly one message, at the end, whose text is the input as typed;
      the send alone adds nothing. */
  lemma SendThenEcho(s: State, id: string, ip: string, createdAt: string)
    requires !IsBlank(s.input)
    ensures var sent := Run(s, [SendClicked]);
            && sent.state.messages == s.messages
            && sent.emitted == [EmitMessage(s.input)]
            && var echo := Message(id, sent.emitted[0].text, ip, createdAt);
               Run(sent.state, [MessageEvent(echo)]).state.messages == s.messages + [echo]
  {
    assert [SendClicked][..0] == [];
  }

  /** Pressing send twice in a row emits at most once: the first press
      clears the input, so the second finds it blank. */
  lemma SendTwiceEmitsOnce(s: State)
    ensures |Run(s, [SendClicked, SendClicked]).emitted| <= 1
  {
    assert [SendClicked, SendClicked][..1] == [SendClicked];
    assert [SendClicked][..0] == [];
    assert IsBlank("");
  }
}
