/**
 * The runtime record `{post, present, future}` of a finite-state machine
 * (src/fsm.js) as a value, one function per mutator giving the record it
 * leaves behind, and the laws that hold between them.
 */
module FsmHistory {
  import opened Wrappers
  import opened FsmConfig

  /** The failures the machine signals. */
  datatype FsmError =
    | ConfigMissing      // the constructor was given no configuration
    | StateDoesNotExist  // changeState's target is not a declared state
    | EventDoesNotExist  // the active state has no transition for the event

  /** `post` and `future` are stacks whose most recent entry is last. */
  datatype RuntimeState = RuntimeState(present: StateId, post: seq<StateId>, future: seq<StateId>)

  /** The record of a newly constructed machine. */
  function Initial(c: Config): RuntimeState {
    RuntimeState(c.initial, [], [])
  }

  function ChangeStateStep(c: Config, h: RuntimeState, target: StateId): Result<RuntimeState, FsmError> {
    if c.Declares(target) then Success(RuntimeState(target, h.post + [h.present], []))
    else Failure(StateDoesNotExist)
  }

  function TriggerStep(c: Config, h: RuntimeState, event: EventId): Result<RuntimeState, FsmError> {
    match c.Target(h.present, event)
    case None => Failure(EventDoesNotExist)
    case Some(target) => ChangeStateStep(c, h, target)
  }

  function ResetStep(c: Config, h: RuntimeState): RuntimeState {
    h.(present := c.initial)
  }

  /** None when there is nothing to undo. */
  function UndoStep(h: RuntimeState): Option<RuntimeState> {
    if |h.post| == 0 then None
    else Some(RuntimeState(h.post[|h.post| - 1], h.post[..|h.post| - 1], h.future + [h.present]))
  }

  /** None when there is nothing to redo. */
  function RedoStep(h: RuntimeState): Option<RuntimeState> {
    if |h.future| == 0 then None
    else Some(RuntimeState(h.future[|h.future| - 1], h.post + [h.present], h.future[..|h.future| - 1]))
  }

  function ClearHistoryStep(h: RuntimeState): RuntimeState {
    h.(post := [], future := [])
  }

  function Reverse(s: seq<StateId>): seq<StateId> {
    if s == [] then [] else Reverse(s[1..]) + [s[0]]
  }

  /** Every state visited, oldest first: `post`, then `present`, then `future` read from its top. */
  function Timeline(h: RuntimeState): seq<StateId> {
    h.post + [h.present] + Reverse(h.future)
  }

  /** Every state the record mentions is one the machine can occupy. */
  predicate AllKnown(c: Config, h: RuntimeState) {
    c.Known(h.present) && (forall s :: s in h.post ==> c.Known(s)) && (forall s :: s in h.future ==> c.Known(s))
  }

  /** Successful changeState calls, one per target, stopping at the first failure. */
  function ChangeStates(c: Config, h: RuntimeState, targets: seq<StateId>): Result<RuntimeState, FsmError>
    decreases |targets|
  {
    if targets == [] then Success(h)
    else
      match ChangeStateStep(c, h, targets[0])
      case Failure(e) => Failure(e)
      case Success(h1) => ChangeStates(c, h1, targets[1..])
  }

  /** `n` undo calls; None if one of them reports that there is nothing to undo. */
  function Undos(h: RuntimeState, n: nat): Option<RuntimeState>
    decreases n
  {
    if n == 0 then Some(h)
    else
      match UndoStep(h)
      case None => None
      case Some(h1) => Undos(h1, n - 1)
  }

  // ---------------------------------------------------------------------
  // Sequence facts

  lemma {:induction false} ReverseAppend(s: seq<StateId>, x: StateId)
    ensures Reverse(s + [x]) == [x] + Reverse(s)
  {
    if s == [] {
      assert s + [x] == [x];
    } else {
      assert (s + [x])[1..] == s[1..] + [x];
      ReverseAppend(s[1..], x);
    }
  }

  lemma {:induction false} ReverseReverse(s: seq<StateId>)
    ensures Reverse(Reverse(s)) == s
  {
    if s != [] {
      ReverseAppend(Reverse(s[1..]), s[0]);
      ReverseReverse(s[1..]);
    }
  }

  // ---------------------------------------------------------------------
  // Laws of the history

  /** A record is determined by its timeline and the height of its `post` stack. */
  lemma TimelineDetermines(a: RuntimeState, b: RuntimeState)
    requires Timeline(a) == Timeline(b) && |a.post| == |b.post|
    ensures a == b
  {
    var k := |a.post|;
    assert a.post == Timeline(a)[..k] && b.post == Timeline(b)[..k];
    assert a.present == Timeline(a)[k] && b.present == Timeline(b)[k];
    assert Reverse(a.future) == Timeline(a)[k + 1..] && Reverse(b.future) == Timeline(b)[k + 1..];
    ReverseReverse(a.future);
    ReverseReverse(b.future);
  }

  /**
   * undo fails exactly when `post` is empty; otherwise it moves one state from
   * `post` to `future` through `present`, so the timeline and the total
   * history size `|post| + |future|` are unchanged.
   */
  lemma UndoKeepsTimeline(h: RuntimeState)
    ensures UndoStep(h).Some? <==> h.post != []
    ensures UndoStep(h).Some? ==>
      var h' := UndoStep(h).value;
      Timeline(h') == Timeline(h) && |h'.post| == |h.post| - 1 &&
      |h'.post| + |h'.future| == |h.post| + |h.future|
  {
    if h.post != [] {
      var h' := UndoStep(h).value;
      ReverseAppend(h.future, h.present);
      assert h.post == h'.post + [h'.present];
    }
  }

  /** redo mirrors undo: it fails exactly when `future` is empty and otherwise keeps the timeline. */
  lemma RedoKeepsTimeline(h: RuntimeState)
    ensures RedoStep(h).Some? <==> h.future != []
    ensures RedoStep(h).Some? ==>
      var h' := RedoStep(h).value;
      Timeline(h') == Timeline(h) && |h'.post| == |h.post| + 1 &&
      |h'.post| + |h'.future| == |h.post| + |h.future|
  {
    if h.future != [] {
      var h' := RedoStep(h).value;
      ReverseAppend(h'.future, h'.present);
      assert h.future == h'.future + [h'.present];
    }
  }

  /** A successful undo followed at once by redo restores the record. */
  lemma UndoThenRedo(h: RuntimeState)
    requires UndoStep(h).Some?
    ensures RedoStep(UndoStep(h).value) == Some(h)
  {
    var h' := UndoStep(h).value;
    UndoKeepsTimeline(h);
    RedoKeepsTimeline(h');
    TimelineDetermines(RedoStep(h').value, h);
  }

  /** A successful redo followed at once by undo restores the record. */
  lemma RedoThenUndo(h: RuntimeState)
    requires RedoStep(h).Some?
    ensures UndoStep(RedoStep(h).value) == Some(h)
  {
    var h' := RedoStep(h).value;
    RedoKeepsTimeline(h);
    UndoKeepsTimeline(h');
    TimelineDetermines(UndoStep(h').value, h);
  }

  /**
   * changeState succeeds exactly for a declared target; it then truncates the
   * timeline after `present`, appends the target, and leaves nothing to redo.
   */
  lemma ChangeStateTruncates(c: Config, h: RuntimeState, target: StateId)
    ensures ChangeStateStep(c, h, target).Success? <==> c.Declares(target)
    ensures ChangeStateStep(c, h, target).Failure? ==> ChangeStateStep(c, h, target).error == StateDoesNotExist
    ensures ChangeStateStep(c, h, target).Success? ==>
      var h' := ChangeStateStep(c, h, target).value;
      Timeline(h') == h.post + [h.present, target] && RedoStep(h') == None &&
      UndoStep(h') == Some(RuntimeState(h.present, h.post, [target]))
  {
    if c.Declares(target) {
      var h' := ChangeStateStep(c, h, target).value;
      assert Reverse(h'.future) == [];
      assert h'.post[..|h'.post| - 1] == h.post;
      assert h'.future + [h'.present] == [target];
    }
  }

  /**
   * A run of successful forward moves leaves the old timeline up to `present`
   * followed by the targets, with nothing to redo.
   */
  lemma {:induction false} ChangeStatesTimeline(c: Config, h: RuntimeState, targets: seq<StateId>)
    requires targets != []
    requires forall t :: t in targets ==> c.Declares(t)
    ensures ChangeStates(c, h, targets).Success?
    ensures var h' := ChangeStates(c, h, targets).value;
      h'.future == [] && Timeline(h') == h.post + [h.present] + targets &&
      |h'.post| == |h.post| + |targets|
    decreases |targets|
  {
    var h1 := ChangeStateStep(c, h, targets[0]).value;
    assert h1 == RuntimeState(targets[0], h.post + [h.present], []);
    if |targets| == 1 {
      assert targets == [targets[0]];
    } else {
      ChangeStatesTimeline(c, h1, targets[1..]);
      assert targets == [targets[0]] + targets[1..];
    }
  }

  /** `n` undos succeed while `post` holds `n` states; they keep the timeline and lower `post` by `n`. */
  lemma {:induction false} UndosKeepTimeline(h: RuntimeState, n: nat)
    requires n <= |h.post|
    ensures Undos(h, n).Some?
    ensures Timeline(Undos(h, n).value) == Timeline(h) && |Undos(h, n).value.post| == |h.post| - n
    decreases n
  {
    if n > 0 {
      UndoKeepsTimeline(h);
      UndosKeepTimeline(UndoStep(h).value, n - 1);
    }
  }

  /**
   * Undoing as many times as there were successful forward moves returns to
   * the state before them, with the same `post`, and the moves on the redo stack.
   */
  lemma ChangeStatesThenUndos(c: Config, h: RuntimeState, targets: seq<StateId>)
    requires targets != []
    requires forall t :: t in targets ==> c.Declares(t)
    ensures ChangeStates(c, h, targets).Success?
    ensures Undos(ChangeStates(c, h, targets).value, |targets|) == Some(RuntimeState(h.present, h.post, Reverse(targets)))
  {
    ChangeStatesTimeline(c, h, targets);
    var h' := ChangeStates(c, h, targets).value;
    UndosKeepTimeline(h', |targets|);
    var expected := RuntimeState(h.present, h.post, Reverse(targets));
    ReverseReverse(targets);
    assert Timeline(expected) == h.post + [h.present] + targets;
    TimelineDetermines(Undos(h', |targets|).value, expected);
  }

  /**
   * From a newly constructed machine, every one of as many undos as forward
   * moves succeeds and returns to `initial`; the undo after them fails.
   */
  lemma FreshRoundTrip(c: Config, targets: seq<StateId>)
    requires forall t :: t in targets ==> c.Declares(t)
    ensures ChangeStates(c, Initial(c), targets).Success?
    ensures var back := Undos(ChangeStates(c, Initial(c), targets).value, |targets|);
      back.Some? && back.value.present == c.initial && UndoStep(back.value) == None
  {
    if targets != [] {
      ChangeStatesThenUndos(c, Initial(c), targets);
    }
  }

  /** After clearHistory neither undo nor redo has anything to do, and `present` is kept. */
  lemma ClearHistoryEmpties(h: RuntimeState)
    ensures ClearHistoryStep(h).present == h.present
    ensures UndoStep(ClearHistoryStep(h)) == None && RedoStep(ClearHistoryStep(h)) == None
  {
  }

  /**
   * reset keeps both stacks, so an undo after it returns to the state on top
   * of `post` from before the reset.
   */
  lemma ResetKeepsHistory(c: Config, h: RuntimeState)
    ensures ResetStep(c, h).post == h.post && ResetStep(c, h).future == h.future
    ensures h.post != [] ==> UndoStep(ResetStep(c, h)).Some? && UndoStep(ResetStep(c, h)).value.present == UndoStep(h).value.present
  {
  }

  /** changeState to a declared target keeps every state in the record declared or `initial`. */
  lemma ChangeStateKeepsKnown(c: Config, h: RuntimeState, target: StateId)
    requires AllKnown(c, h)
    ensures ChangeStateStep(c, h, target).Success? ==> AllKnown(c, ChangeStateStep(c, h, target).value)
  {
  }

  /** trigger keeps every state in the record declared or `initial`. */
  lemma TriggerKeepsKnown(c: Config, h: RuntimeState, event: EventId)
    requires AllKnown(c, h)
    ensures TriggerStep(c, h, event).Success? ==> AllKnown(c, TriggerStep(c, h, event).value)
  {
  }

  /** reset and clearHistory keep every state in the record declared or `initial`. */
  lemma ResetAndClearKeepKnown(c: Config, h: RuntimeState)
    requires AllKnown(c, h)
    ensures AllKnown(c, ResetStep(c, h)) && AllKnown(c, ClearHistoryStep(h))
  {
  }

  /** undo keeps every state in the record declared or `initial`: it only moves states between the stacks. */
  lemma UndoKeepsKnown(c: Config, h: RuntimeState)
    requires AllKnown(c, h)
    ensures UndoStep(h).Some? ==> AllKnown(c, UndoStep(h).value)
  {
    if h.post != [] {
      assert h.post[|h.post| - 1] in h.post;
    }
  }

  /** redo keeps every state in the record declared or `initial`: it only moves states between the stacks. */
  lemma RedoKeepsKnown(c: Config, h: RuntimeState)
    requires AllKnown(c, h)
    ensures RedoStep(h).Some? ==> AllKnown(c, RedoStep(h).value)
  {
    if h.future != [] {
      assert h.future[|h.future| - 1] in h.future;
    }
  }
}
