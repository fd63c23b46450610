/**
 * The streaming transcription client of the SDK (`transcribe`). The
 * websocket, the audio queue and the transcript callback are abstract: the
 * inbound messages are a sequence of decoded JSON values (`None` where
 * `json.loads` fails), the outcome of each send and each callback is a
 * parameter, and the sender and the receiver are modelled one after the
 * other. The `while True` reconnect loop is an explicit state machine.
 */
module Transcribe {
  import opened Wrappers
  import PyText
  import Json
  import Decoder

  // ---------------------------------------------------------------------
  // One inbound message

  /** What `receive_transcripts` does with one message. */
  datatype MessageOutcome =
    | ServiceError          // an object carrying "error": logged and skipped
    | Transcript(text: string)  // a non-empty stripped transcript, passed to the callback
    | NoTranscript          // no transcript to report
    | DecodeError           // `json.loads` raised
    | ProcessingError       // another exception while reading the message

  /** The wire shape `{"channel": {"alternatives": [{"transcript": <string>}, ...]}}`. */
  predicate HasTranscriptShape(v: Json.Value)
  {
    && v.Obj? && "channel" in v.fields
    && var channel := v.fields["channel"];
    && channel.Obj? && "alternatives" in channel.fields
    && var alternatives := channel.fields["alternatives"];
    && alternatives.Arr? && |alternatives.items| > 0
    && var best := alternatives.items[0];
    && best.Obj? && "transcript" in best.fields && best.fields["transcript"].Str?
  }

  /** The transcript text of a message of that shape. */
  function ShapeTranscript(v: Json.Value): string
    requires HasTranscriptShape(v)
  {
    v.fields["channel"].fields["alternatives"].items[0].fields["transcript"].s
  }

  /**
   * `alternatives[0].get("transcript", "")` and the test
   * `transcript and transcript.strip()`: indexing anything but a non-empty
   * list, `.get` on anything but a dict and `.strip()` on a truthy
   * non-string all raise.
   */
  function FromAlternatives(alternatives: Json.Value): (o: MessageOutcome)
    ensures o.Transcript? <==>
      && alternatives.Arr? && |alternatives.items| > 0
      && var best := alternatives.items[0];
      && best.Obj? && "transcript" in best.fields && best.fields["transcript"].Str?
      && PyText.Strip(best.fields["transcript"].s) != []
    ensures o.Transcript? ==>
      && o.text == PyText.Strip(alternatives.items[0].fields["transcript"].s)
      && PyText.Strip(o.text) == o.text
    ensures o == ProcessingError <==>
      || !alternatives.Arr? || |alternatives.items| == 0
      || var best := alternatives.items[0];
         || !best.Obj?
         || ("transcript" in best.fields && Json.Truthy(best.fields["transcript"])
             && !best.fields["transcript"].Str?)
    ensures o != ServiceError && o != DecodeError
  {
    if !alternatives.Arr? || |alternatives.items| == 0 then ProcessingError
    else
      var best := alternatives.items[0];
      if !best.Obj? then ProcessingError
      else
        var t := if "transcript" in best.fields then best.fields["transcript"] else Json.Str("");
        if !Json.Truthy(t) then NoTranscript
        else if !t.Str? then ProcessingError
        else
          var text := PyText.Strip(t.s);
          PyText.StripIdempotent(t.s);
          if text == [] then NoTranscript else Transcript(text)
  }

  /**
   * The body of the `async for msg in ws` loop for one message, up to the
   * callback. Python's `in` and indexing are applied to whatever JSON value
   * arrived; every exception they raise ends in `ProcessingError`.
   */
  function HandleMessage(msg: Option<Json.Value>): (o: MessageOutcome)
    ensures o == DecodeError <==> msg.None?
    ensures o.Transcript? <==>
      && msg.Some? && HasTranscriptShape(msg.value)
      && "error" !in msg.value.fields
      && PyText.Strip(ShapeTranscript(msg.value)) != []
    ensures o.Transcript? ==> o.text == PyText.Strip(ShapeTranscript(msg.value))
    ensures o.Transcript? ==> o.text != [] && PyText.Strip(o.text) == o.text
    ensures o == ServiceError <==> msg.Some? && msg.value.Obj? && "error" in msg.value.fields
  {
    match msg
    case None => DecodeError
    case Some(response) =>
      match Json.In("error", response)
      case None => ProcessingError
      case Some(true) => if response.Obj? then ServiceError else ProcessingError
      case Some(false) =>
        match Json.In("channel", response)
        case None => ProcessingError
        case Some(false) => NoTranscript
        case Some(true) =>
          match Json.Get(response, "channel")
          case None => ProcessingError
          case Some(channel) =>
            match Json.In("alternatives", channel)
            case None => ProcessingError
            case Some(false) => NoTranscript
            case Some(true) =>
              match Json.Get(channel, "alternatives")
              case None => ProcessingError
              case Some(alternatives) =>
                FromAlternatives(alternatives)
  }

  /** An object carrying "error" is skipped even when it also carries a usable transcript. */
  lemma ErrorWinsOverTranscript(fields: map<string, Json.Value>)
    requires "error" in fields
    ensures HandleMessage(Some(Json.Obj(fields))) == ServiceError
  {
  }

  /** Malformed JSON, non-objects and an empty alternatives list never reach the callback. */
  lemma MalformedNeverDelivered(msg: Option<Json.Value>)
    requires
      || msg.None?
      || !msg.value.Obj?
      || ("channel" in msg.value.fields
          && msg.value.fields["channel"].Obj?
          && "alternatives" in msg.value.fields["channel"].fields
          && msg.value.fields["channel"].fields["alternatives"] == Json.Arr([]))
    ensures !HandleMessage(msg).Transcript?
  {
  }

  // ---------------------------------------------------------------------
  // The receive loop

  /** The outcome of every message, in arrival order. */
  function Outcomes(msgs: seq<Option<Json.Value>>): (r: seq<MessageOutcome>)
    ensures |r| == |msgs|
    ensures forall i :: 0 <= i < |msgs| ==> r[i] == HandleMessage(msgs[i])
    decreases |msgs|
  {
    if msgs == [] then [] else [HandleMessage(msgs[0])] + Outcomes(msgs[1..])
  }

  /** One callback invocation: the text passed and whether the callback raised. */
  datatype Invocation = Invocation(text: string, raised: bool)

  /**
   * The delivery part of `receive_transcripts`, over the outcomes of the
   * messages: in order, one awaited callback invocation per transcript; a
   * callback that raises is logged and the loop goes on. `raises(j)` says
   * whether the `j`-th invocation raises. `sources[j]` is the index of the
   * message behind invocation `j`.
   */
  method DeliverTranscripts(outcomes: seq<MessageOutcome>, hasCallback: bool, raises: nat -> bool)
    returns (calls: seq<Invocation>, sources: seq<nat>)
    ensures |calls| == |sources| <= |outcomes|
    ensures !hasCallback ==> calls == []
    ensures forall j :: 0 <= j < |calls| ==>
      sources[j] < |outcomes| && outcomes[sources[j]] == Transcript(calls[j].text)
    ensures forall j :: 0 <= j < |calls| ==> calls[j].raised == raises(j)
    ensures forall j, k :: 0 <= j < k < |sources| ==> sources[j] < sources[k]
    ensures hasCallback ==>
      forall i :: 0 <= i < |outcomes| && outcomes[i].Transcript? ==> i in sources
  {
    calls, sources := [], [];
    var i := 0;
    while i < |outcomes|
      invariant 0 <= i <= |outcomes|
      invariant |calls| == |sources| <= i
      invariant !hasCallback ==> calls == []
      invariant forall j :: 0 <= j < |calls| ==>
        sources[j] < i && outcomes[sources[j]] == Transcript(calls[j].text)
      invariant forall j :: 0 <= j < |calls| ==> calls[j].raised == raises(j)
      invariant forall j, k :: 0 <= j < k < |sources| ==> sources[j] < sources[k]
      invariant hasCallback ==>
        forall m :: 0 <= m < i && outcomes[m].Transcript? ==> m in sources
    {
      var outcome := outcomes[i];
      if outcome.Transcript? && hasCallback {
        calls := calls + [Invocation(outcome.text, raises(|calls|))];
        sources := sources + [i];
      }
      i := i + 1;
    }
  }

  /**
   * `receive_transcripts` over the messages of one connection: every
   * invocation carries the stripped transcript of a distinct message, in
   * arrival order, and every message with a transcript gets one.
   */
  method ReceiveTranscripts(msgs: seq<Option<Json.Value>>, hasCallback: bool, raises: nat -> bool)
    returns (calls: seq<Invocation>, sources: seq<nat>)
    ensures |calls| == |sources| <= |msgs|
    ensures !hasCallback ==> calls == []
    ensures forall j :: 0 <= j < |calls| ==>
      sources[j] < |msgs| && HandleMessage(msgs[sources[j]]) == Transcript(calls[j].text)
    ensures forall j, k :: 0 <= j < k < |sources| ==> sources[j] < sources[k]
    ensures hasCallback ==>
      forall i :: 0 <= i < |msgs| && HandleMessage(msgs[i]).Transcript? ==> i in sources
  {
    calls, sources := DeliverTranscripts(Outcomes(msgs), hasCallback, raises);
  }

  // ---------------------------------------------------------------------
  // The send loop

  type Chunk = seq<Decoder.byte>

  /**
   * `send_audio` over the chunks queued so far: each is dequeued and sent in
   * order; the first send that raises ends the loop, and the chunk it was
   * sending is gone from the queue. `accepts(k)` says whether the `k`-th send
   * succeeds. When every send succeeds the loop is left waiting on the empty
   * queue (`stopped` is false).
   */
  method SendAudio(queue: seq<Chunk>, accepts: nat -> bool)
    returns (sent: seq<Chunk>, rest: seq<Chunk>, stopped: bool)
    ensures |sent| <= |queue| && sent == queue[..|sent|]
    ensures forall k :: 0 <= k < |sent| ==> accepts(k)
    ensures stopped <==> exists k :: 0 <= k < |queue| && !accepts(k)
    ensures stopped ==> |sent| < |queue| && !accepts(|sent|) && rest == queue[|sent| + 1..]
    ensures !stopped ==> sent == queue && rest == []
  {
    sent := [];
    var i := 0;
    while i < |queue|
      invariant 0 <= i <= |queue|
      invariant sent == queue[..i]
      invariant forall k :: 0 <= k < i ==> accepts(k)
    {
      var chunk := queue[i];
      if !accepts(i) {
        return sent, queue[i + 1..], true;
      }
      sent := sent + [chunk];
      i := i + 1;
    }
    return sent, [], false;
  }

  // ---------------------------------------------------------------------
  // The reconnect loop

  /** Seconds slept before reconnecting after an exception. */
  const RetryDelay := 5

  datatype Phase = Connecting | Streaming | RetryWait

  /** What the loop emits: a status passed to `status_callback`, or the `asyncio.sleep`. */
  datatype Signal = StatusConnecting | StatusConnected | StatusRetrying | Sleep(seconds: nat)

  datatype Event =
    | Opened       // `websockets.connect` succeeds
    | OpenFailed   // `websockets.connect` raises
    | BlockExited  // the connection block returns: both the sender and the receiver have finished
    | BlockRaised  // an exception escapes the connection block (opening or closing it, or the status callback)
    | Slept        // the retry delay has elapsed

  /** Statuses reach the sink only when a `status_callback` was given. */
  function Statuses(statusOn: bool, s: seq<Signal>): seq<Signal>
  {
    if statusOn then s else []
  }

  /** One transition of the `while True` loop; `None` when `event` cannot happen in `phase`. */
  function Step(phase: Phase, event: Event, statusOn: bool): (r: Option<(Phase, seq<Signal>)>)
    ensures r.Some? ==> (Sleep(RetryDelay) in r.value.1 <==> event == OpenFailed || event == BlockRaised)
    ensures r.Some? && r.value.1 != [] && statusOn && phase == Connecting ==> r.value.1[0] == StatusConnecting
    ensures r.Some? && r.value.0 == Connecting ==> r.value.1 == []
  {
    match (phase, event)
    case (Connecting, Opened) =>
      Some((Streaming, Statuses(statusOn, [StatusConnecting, StatusConnected])))
    case (Connecting, OpenFailed) =>
      Some((RetryWait, Statuses(statusOn, [StatusConnecting, StatusRetrying]) + [Sleep(RetryDelay)]))
    case (Streaming, BlockExited) =>
      Some((Connecting, []))
    case (Streaming, BlockRaised) =>
      Some((RetryWait, Statuses(statusOn, [StatusRetrying]) + [Sleep(RetryDelay)]))
    case (RetryWait, Slept) =>
      Some((Connecting, []))
    case _ => None
  }

  /** No phase is final: some event always moves the loop on, so it never ends by itself. */
  lemma NoFinalPhase(phase: Phase, statusOn: bool)
    ensures Step(phase, Opened, statusOn).Some?
         || Step(phase, BlockExited, statusOn).Some?
         || Step(phase, Slept, statusOn).Some?
  {
  }

  /** Runs a sequence of events from `phase`; `None` if one of them cannot happen. */
  function Run(phase: Phase, events: seq<Event>, statusOn: bool): Option<(Phase, seq<Signal>)>
    decreases |events|
  {
    if events == [] then Some((phase, []))
    else
      match Step(phase, events[0], statusOn)
      case None => None
      case Some((next, out)) =>
        match Run(next, events[1..], statusOn)
        case None => None
        case Some((last, rest)) => Some((last, out + rest))
  }

  /** Running two event sequences one after the other is running their concatenation. */
  lemma {:induction false} RunAppend(phase: Phase, a: seq<Event>, b: seq<Event>, statusOn: bool)
    requires Run(phase, a, statusOn).Some?
    ensures Run(phase, a + b, statusOn) ==
      match Run(Run(phase, a, statusOn).value.0, b, statusOn)
      case None => None
      case Some((last, rest)) => Some((last, Run(phase, a, statusOn).value.1 + rest))
    decreases |a|
  {
    if a == [] {
      assert a + b == b;
      match Run(phase, b, statusOn)
      case None =>
      case Some((last, rest)) => assert [] + rest == rest;
    } else {
      assert (a + b)[0] == a[0];
      assert (a + b)[1..] == a[1..] + b;
      var next := Step(phase, a[0], statusOn).value;
      var tail := Run(next.0, a[1..], statusOn).value;
      RunAppend(next.0, a[1..], b, statusOn);
      assert Run(phase, a, statusOn).value == (tail.0, next.1 + tail.1);
      match Run(tail.0, b, statusOn)
      case None =>
      case Some((last, rest)) =>
        assert next.1 + (tail.1 + rest) == (next.1 + tail.1) + rest;
    }
  }

  /**
   * A run of the loop sleeps the retry delay at some point iff one of its
   * events is a failed connect or an exception escaping the connection block.
   */
  lemma {:induction false} RunSleepsIffRaised(phase: Phase, events: seq<Event>, statusOn: bool)
    requires Run(phase, events, statusOn).Some?
    ensures Sleep(RetryDelay) in Run(phase, events, statusOn).value.1
        <==> OpenFailed in events || BlockRaised in events
    decreases |events|
  {
    if events != [] {
      var next := Step(phase, events[0], statusOn).value;
      RunSleepsIffRaised(next.0, events[1..], statusOn);
      assert events == [events[0]] + events[1..];
    }
  }

  lemma RunSingle(phase: Phase, event: Event, statusOn: bool)
    requires Step(phase, event, statusOn).Some?
    ensures Run(phase, [event], statusOn) == Step(phase, event, statusOn)
  {
    var out := Step(phase, event, statusOn).value.1;
    assert [event][1..] == [];
    assert out + [] == out;
  }

  lemma RunCons(phase: Phase, event: Event, rest: seq<Event>, statusOn: bool)
    requires Step(phase, event, statusOn).Some?
    requires Run(Step(phase, event, statusOn).value.0, rest, statusOn).Some?
    ensures Run(phase, [event] + rest, statusOn) ==
      Some((Run(Step(phase, event, statusOn).value.0, rest, statusOn).value.0,
            Step(phase, event, statusOn).value.1 + Run(Step(phase, event, statusOn).value.0, rest, statusOn).value.1))
  {
    assert ([event] + rest)[0] == event;
    assert ([event] + rest)[1..] == rest;
  }

  /** The signals of a transition that raised: the statuses, then the one sleep. */
  lemma CountStatusesThenSleep(statusOn: bool, statuses: seq<Signal>)
    requires |statuses| <= 2 && Sleep(RetryDelay) !in statuses
    ensures Count(Statuses(statusOn, statuses) + [Sleep(RetryDelay)], Sleep(RetryDelay)) == 1
    ensures Count(Statuses(statusOn, statuses) + [Sleep(RetryDelay)], StatusConnecting)
         == Count(Statuses(statusOn, statuses), StatusConnecting)
  {
    var shown := Statuses(statusOn, statuses);
    CountAppend(shown, [Sleep(RetryDelay)], Sleep(RetryDelay));
    CountAppend(shown, [Sleep(RetryDelay)], StatusConnecting);
    CountSingle(Sleep(RetryDelay), Sleep(RetryDelay));
    CountSingle(Sleep(RetryDelay), StatusConnecting);
    if |shown| == 1 {
      assert shown == [shown[0]];
      CountSingle(shown[0], Sleep(RetryDelay));
    } else if |shown| == 2 {
      assert shown == [shown[0], shown[1]];
      CountPair(shown[0], shown[1], Sleep(RetryDelay));
    }
  }

  /** How one pass of the loop body ends. */
  datatype Attempt =
    | ConnectFailed   // connecting raised
    | SessionClosed   // connected, then the block returned once both the sender and the receiver had finished
    | SessionFailed   // connected, then an exception escaped the block

  function AttemptEvents(a: Attempt): seq<Event>
  {
    match a
    case ConnectFailed => [OpenFailed, Slept]
    case SessionClosed => [Opened, BlockExited]
    case SessionFailed => [Opened, BlockRaised, Slept]
  }

  function AllEvents(attempts: seq<Attempt>): seq<Event>
    decreases |attempts|
  {
    if attempts == [] then [] else AttemptEvents(attempts[0]) + AllEvents(attempts[1..])
  }

  function Count(s: seq<Signal>, x: Signal): nat
    decreases |s|
  {
    if s == [] then 0 else (if s[0] == x then 1 else 0) + Count(s[1..], x)
  }

  lemma CountSingle(y: Signal, x: Signal)
    ensures Count([y], x) == if y == x then 1 else 0
  {
    assert [y][1..] == [];
  }

  lemma CountPair(y: Signal, z: Signal, x: Signal)
    ensures Count([y, z], x) == (if y == x then 1 else 0) + (if z == x then 1 else 0)
  {
    assert [y, z] == [y] + [z];
    CountAppend([y], [z], x);
    CountSingle(y, x);
    CountSingle(z, x);
  }

  lemma {:induction false} CountAppend(a: seq<Signal>, b: seq<Signal>, x: Signal)
    ensures Count(a + b, x) == Count(a, x) + Count(b, x)
    decreases |a|
  {
    if a == [] {
      assert a + b == b;
    } else {
      assert (a + b)[0] == a[0];
      assert (a + b)[1..] == a[1..] + b;
      CountAppend(a[1..], b, x);
    }
  }

  function Failures(attempts: seq<Attempt>): nat
    decreases |attempts|
  {
    if attempts == [] then 0
    else (if attempts[0] == SessionClosed then 0 else 1) + Failures(attempts[1..])
  }

  /** The signals one attempt emits, in order. */
  function AttemptSignals(a: Attempt, statusOn: bool): seq<Signal>
  {
    match a
    case ConnectFailed => Statuses(statusOn, [StatusConnecting, StatusRetrying]) + [Sleep(RetryDelay)]
    case SessionClosed => Statuses(statusOn, [StatusConnecting, StatusConnected])
    case SessionFailed =>
      Statuses(statusOn, [StatusConnecting, StatusConnected])
        + (Statuses(statusOn, [StatusRetrying]) + [Sleep(RetryDelay)])
  }

  /** One attempt starts from `Connecting` and comes back to it, emitting `AttemptSignals`. */
  lemma AttemptRun(a: Attempt, statusOn: bool)
    ensures Run(Connecting, AttemptEvents(a), statusOn) == Some((Connecting, AttemptSignals(a, statusOn)))
  {
    match a
    case ConnectFailed =>
      RunSingle(RetryWait, Slept, statusOn);
      RunCons(Connecting, OpenFailed, [Slept], statusOn);
      assert AttemptSignals(a, statusOn) + [] == AttemptSignals(a, statusOn);
    case SessionClosed =>
      RunSingle(Streaming, BlockExited, statusOn);
      RunCons(Connecting, Opened, [BlockExited], statusOn);
      assert AttemptSignals(a, statusOn) + [] == AttemptSignals(a, statusOn);
    case SessionFailed =>
      var second := Statuses(statusOn, [StatusRetrying]) + [Sleep(RetryDelay)];
      RunSingle(RetryWait, Slept, statusOn);
      RunCons(Streaming, BlockRaised, [Slept], statusOn);
      assert second + [] == second;
      RunCons(Connecting, Opened, [BlockRaised, Slept], statusOn);
  }

  /**
   * Each attempt announces itself first, announces "Connecting" once, and
   * sleeps the retry delay exactly when an exception ended it; once the
   * block has returned normally, the loop reconnects without a sleep or a
   * "Retrying" status.
   */
  lemma AttemptCycle(a: Attempt, statusOn: bool)
    ensures var out := AttemptSignals(a, statusOn);
      && (statusOn ==> out != [] && out[0] == StatusConnecting)
      && Count(out, StatusConnecting) == (if statusOn then 1 else 0)
      && Count(out, Sleep(RetryDelay)) == (if a == SessionClosed then 0 else 1)
      && (a == SessionClosed ==> StatusRetrying !in out)
  {
    var first := Statuses(statusOn, [StatusConnecting, StatusConnected]);
    CountPair(StatusConnecting, StatusConnected, StatusConnecting);
    CountPair(StatusConnecting, StatusConnected, Sleep(RetryDelay));
    match a
    case ConnectFailed =>
      CountPair(StatusConnecting, StatusRetrying, StatusConnecting);
      CountStatusesThenSleep(statusOn, [StatusConnecting, StatusRetrying]);
    case SessionClosed =>
    case SessionFailed =>
      var second := Statuses(statusOn, [StatusRetrying]) + [Sleep(RetryDelay)];
      CountSingle(StatusRetrying, StatusConnecting);
      CountStatusesThenSleep(statusOn, [StatusRetrying]);
      CountAppend(first, second, StatusConnecting);
      CountAppend(first, second, Sleep(RetryDelay));
  }

  /**
   * Over any number of attempts the loop is back at `Connecting`, has
   * announced "Connecting" once per attempt and has slept once per attempt
   * that an exception ended.
   */
  lemma {:induction false} LoopNeverGivesUp(attempts: seq<Attempt>, statusOn: bool)
    ensures Run(Connecting, AllEvents(attempts), statusOn).Some?
    ensures var r := Run(Connecting, AllEvents(attempts), statusOn).value;
      && r.0 == Connecting
      && Count(r.1, StatusConnecting) == (if statusOn then |attempts| else 0)
      && Count(r.1, Sleep(RetryDelay)) == Failures(attempts)
    decreases |attempts|
  {
    if attempts != [] {
      var first := AttemptEvents(attempts[0]);
      AttemptRun(attempts[0], statusOn);
      AttemptCycle(attempts[0], statusOn);
      LoopNeverGivesUp(attempts[1..], statusOn);
      RunAppend(Connecting, first, AllEvents(attempts[1..]), statusOn);
      var r1 := Run(Connecting, first, statusOn).value;
      var r2 := Run(Connecting, AllEvents(attempts[1..]), statusOn).value;
      CountAppend(r1.1, r2.1, StatusConnecting);
      CountAppend(r1.1, r2.1, Sleep(RetryDelay));
    }
  }
}
