/**
 * The session state of the `Segmentation` controller and its transitions.
 * Each `await` in `encode` and `decode` is a step boundary: a start step
 * runs up to the inference call and a finish step runs when its result
 * arrives, which turns the asynchronous single-flight decode into a
 * sequential state machine.
 */
module Session {
  import opened Wrappers
  import opened PromptPoint

  /** The controller's flags and point list (fields of class `Segmentation`). */
  datatype State = State(
    hasProcessor: bool, hasModel: bool, imageProcessed: bool, hasEmbeddings: bool,
    isEncoding: bool, isDecoding: bool, decodePending: bool, isMultiMaskMode: bool,
    lastPoints: seq<Point>)

  /** The prompt points an inference call is made with (lines 80-95). */
  type Request = seq<Point>

  /** The state after a transition, and the inference call it starts, if any. */
  datatype Step = Step(next: State, request: Option<Request>)

  /** The state of a freshly constructed controller: idle, nothing loaded, no points. */
  function Initial(): (s: State)
    ensures Inv(s) && !s.isEncoding && !s.isDecoding && !s.hasEmbeddings && s.lastPoints == []
  {
    State(false, false, false, false, false, false, false, false, [])
  }

  /** The guard in front of `encode` (line 61). */
  predicate CanEncode(s: State)
  {
    s.hasProcessor && s.hasModel && !s.isEncoding
  }

  /** The guard in front of `decode` (line 72). */
  predicate CanDecode(s: State)
  {
    s.hasProcessor && s.hasModel && s.imageProcessed && s.hasEmbeddings && !s.isEncoding
  }

  /**
   * The coalescing invariant: a decode is pending only while one is in flight
   * (so it is one of Idle, InFlight, InFlightWithPendingRefresh), and outside
   * multi-mask mode the list holds at most the hover point.
   */
  predicate Inv(s: State)
  {
    (s.decodePending ==> s.isDecoding) && (!s.isMultiMaskMode ==> |s.lastPoints| <= 1)
  }

  /** `setup_sam_model` once both loads have resolved (lines 51-58). */
  function SetupSamModel(s: State): (r: State)
    ensures r.hasProcessor && r.hasModel
    ensures r.(hasProcessor := s.hasProcessor, hasModel := s.hasModel) == s
    ensures CanEncode(r) <==> !s.isEncoding
  {
    s.(hasProcessor := true, hasModel := true)
  }

  /**
   * `encode` up to its first `await` (lines 61-62): a no-op while an encode
   * runs or without processor and model, otherwise it marks encoding.
   */
  function EncodeStart(s: State): (r: State)
    ensures !CanEncode(s) ==> r == s
    ensures CanEncode(s) ==> r.isEncoding
    ensures r.(isEncoding := s.isEncoding) == s
    ensures Inv(s) ==> Inv(r)
  {
    if !s.hasProcessor || !s.hasModel || s.isEncoding then s
    else s.(isEncoding := true)
  }

  /**
   * The rest of `encode` (lines 63-67), once the image, its preprocessing and
   * its embeddings have arrived. Embeddings are only replaced when the
   * preprocessing produced a result; encoding ends either way.
   */
  function EncodeFinish(s: State, processed: bool): (r: State)
    requires s.isEncoding
    ensures !r.isEncoding
    ensures r.imageProcessed == processed
    ensures r.hasEmbeddings <==> processed || s.hasEmbeddings
    ensures r.(isEncoding := true, imageProcessed := s.imageProcessed, hasEmbeddings := s.hasEmbeddings) == s
    ensures Inv(s) ==> Inv(r)
  {
    s.(imageProcessed := processed,
       hasEmbeddings := if processed then true else s.hasEmbeddings,
       isEncoding := false)
  }

  /**
   * `decode` up to the inference call (lines 72-90). Nothing happens while
   * the guard fails; while a decode is in flight only the pending flag is
   * set; otherwise the decode goes in flight with the current points.
   */
  function DecodeStart(s: State): (r: Step)
    ensures !CanDecode(s) ==> r == Step(s, None)
    ensures CanDecode(s) && s.isDecoding ==> r == Step(s.(decodePending := true), None)
    ensures r.request.Some? <==> CanDecode(s) && !s.isDecoding
    ensures r.request.Some? ==> r.request.value == s.lastPoints && r.next == s.(isDecoding := true)
    ensures Inv(s) ==> Inv(r.next)
  {
    if !CanDecode(s) then Step(s, None)
    else if s.isDecoding then Step(s.(decodePending := true), None)
    else Step(s.(isDecoding := true), Some(s.lastPoints))
  }

  /**
   * `decode` after its inference result arrives (lines 105-113): the decode
   * leaves flight and, if another was requested meanwhile, exactly one new
   * decode starts, with the points current now.
   */
  function DecodeFinish(s: State): (r: Step)
    requires s.isDecoding
    ensures r.request.Some? <==> s.decodePending && CanDecode(s)
    ensures r.request.Some? ==> r.request.value == s.lastPoints
    ensures r.next.isDecoding <==> r.request.Some?
    ensures !r.next.decodePending
    ensures r.next.(isDecoding := s.isDecoding, decodePending := s.decodePending) == s
    ensures Inv(s) ==> Inv(r.next)
  {
    var done := s.(isDecoding := false);
    if done.decodePending then DecodeStart(done.(decodePending := false))
    else Step(done, None)
  }

  /**
   * `handleContainerMouseMove` (lines 248-260): ignored before encoding
   * finished or in multi-mask mode; otherwise the hover point replaces the
   * list and a decode is requested.
   */
  function MouseMove(s: State, p: Point): (r: Step)
    ensures !s.hasEmbeddings || s.isMultiMaskMode ==> r == Step(s, None)
    ensures s.hasEmbeddings && !s.isMultiMaskMode ==>
      r.next.lastPoints == [p] && r == DecodeStart(s.(lastPoints := [p]))
    ensures Inv(s) ==> Inv(r.next)
  {
    if !s.hasEmbeddings || s.isMultiMaskMode then Step(s, None)
    else DecodeStart(s.(lastPoints := [p]))
  }

  /** A mouse-down event that `handleContainerMouseDown` acts on. */
  predicate AcceptsClick(s: State, button: int)
  {
    (button == 0 || button == 2) && s.hasEmbeddings && !s.isEncoding
  }

  /**
   * `handleContainerMouseDown` (lines 262-293): the first accepted click
   * leaves hover mode and empties the list; every accepted click appends its
   * point and requests a decode.
   */
  function MouseDown(s: State, button: int, p: Point): (r: Step)
    ensures !AcceptsClick(s, button) ==> r == Step(s, None)
    ensures AcceptsClick(s, button) ==>
      r.next.isMultiMaskMode
      && r.next.lastPoints == (if s.isMultiMaskMode then s.lastPoints else []) + [p]
      && r == DecodeStart(s.(isMultiMaskMode := true, lastPoints := r.next.lastPoints))
    ensures AcceptsClick(s, button) && s.isMultiMaskMode ==>
      |r.next.lastPoints| == |s.lastPoints| + 1 && r.next.lastPoints[..|s.lastPoints|] == s.lastPoints
    ensures Inv(s) ==> Inv(r.next)
  {
    if button != 0 && button != 2 then Step(s, None)
    else if !s.hasEmbeddings || s.isEncoding then Step(s, None)
    else
      var entered := if !s.isMultiMaskMode then s.(lastPoints := [], isMultiMaskMode := true) else s;
      DecodeStart(entered.(lastPoints := entered.lastPoints + [p]))
  }

  /**
   * `reset_mask` (lines 46-49), and the state part of `clearPointsAndMask`
   * (lines 220-221): back to hover mode with no points. The decode flags are
   * left as they are.
   */
  function ClearPoints(s: State): (r: State)
    ensures r.lastPoints == [] && !r.isMultiMaskMode
    ensures r.(lastPoints := s.lastPoints, isMultiMaskMode := s.isMultiMaskMode) == s
    ensures Inv(s) ==> Inv(r)
  {
    s.(lastPoints := [], isMultiMaskMode := false)
  }

  /** The user-side events that can arrive while a decode is in flight. */
  datatype Event = Move(p: Point) | Down(button: int, p: Point) | Decode | ResetMask

  function Apply(s: State, e: Event): Step
  {
    match e
    case Move(p) => MouseMove(s, p)
    case Down(button, p) => MouseDown(s, button, p)
    case Decode => DecodeStart(s)
    case ResetMask => Step(ClearPoints(s), None)
  }

  /** The event reaches a call of `decode`. */
  predicate CallsDecode(s: State, e: Event)
  {
    match e
    case Move(_) => s.hasEmbeddings && !s.isMultiMaskMode
    case Down(button, _) => AcceptsClick(s, button)
    case Decode => true
    case ResetMask => false
  }

  /** The final state after a sequence of events, and the inference calls they started, in order. */
  function Run(s: State, es: seq<Event>): (r: (State, seq<Request>))
    ensures Inv(s) ==> Inv(r.0)
    ensures r.0.hasEmbeddings == s.hasEmbeddings && r.0.isEncoding == s.isEncoding
    decreases |es|
  {
    if es == [] then (s, [])
    else
      var first := Apply(s, es[0]);
      var rest := Run(first.next, es[1..]);
      (rest.0, (if first.request.Some? then [first.request.value] else []) + rest.1)
  }

  /** Some event of the sequence, in the state it arrives in, calls `decode`. */
  predicate SomeCallsDecode(s: State, es: seq<Event>)
    decreases |es|
  {
    es != [] && (CallsDecode(s, es[0]) || SomeCallsDecode(Apply(s, es[0]).next, es[1..]))
  }

  /**
   * While a decode is in flight, no event starts an inference call: the
   * decode stays in flight, and a refresh is pending exactly when one was
   * before or some event called `decode`.
   */
  lemma {:induction false} InFlightCoalesces(s: State, es: seq<Event>)
    requires CanDecode(s) && s.isDecoding
    ensures var r := Run(s, es);
      r.1 == [] && r.0.isDecoding && CanDecode(r.0)
      && (r.0.decodePending <==> s.decodePending || SomeCallsDecode(s, es))
    decreases |es|
  {
    if es != [] {
      InFlightCoalesces(Apply(s, es[0]).next, es[1..]);
    }
  }

  /**
   * The single-flight guarantee: a decode started from an idle, ready session
   * is followed by no inference call until it finishes, and then by exactly
   * one more if anything called `decode` meanwhile, made with the points
   * current at that moment rather than those of any intermediate call.
   */
  lemma CoalescedRerun(s: State, es: seq<Event>)
    requires CanDecode(s) && !s.isDecoding && Inv(s)
    ensures var first := DecodeStart(s);
      var r := Run(first.next, es);
      first.request == Some(s.lastPoints)
      && r.1 == [] && r.0.isDecoding
      && DecodeFinish(r.0).request == (if SomeCallsDecode(first.next, es) then Some(r.0.lastPoints) else None)
  {
    InFlightCoalesces(DecodeStart(s).next, es);
  }
}
