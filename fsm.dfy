/**
 * The `FSM` class of src/fsm.js: a finite-state machine over a fixed
 * configuration whose runtime record `{post, present, future}` its
 * mutators update in place.
 */
module Fsm {
  import opened Wrappers
  import opened FsmConfig
  import opened FsmHistory

  class FSM {
    const config: Config
    var present: StateId
    var post: seq<StateId>
    var future: seq<StateId>

    /** The runtime record as a value. */
    function Record(): RuntimeState
      reads this
    {
      RuntimeState(present, post, future)
    }

    /** The configuration is well formed and the record mentions only declared states or `initial`. */
    ghost predicate Valid()
      reads this
    {
      config.Wf() && AllKnown(config, Record())
    }

    constructor (config: Config)
      requires config.Wf()
      ensures Valid() && this.config == config
      ensures present == config.initial && post == [] && future == []
    {
      this.config := config;
      present := config.initial;
      post := [];
      future := [];
    }

    /** `new FSM(config)`: a missing configuration is refused, anything else gives a fresh machine at `initial`. */
    static method Create(config: Option<Config>) returns (r: Result<FSM, FsmError>)
      requires config.Some? ==> config.value.Wf()
      ensures config.None? <==> r == Failure(ConfigMissing)
      ensures r.Success? <==> config.Some?
      ensures r.Success? ==>
        fresh(r.value) && r.value.Valid() && r.value.config == config.value && r.value.Record() == Initial(config.value)
    {
      match config
      case None =>
        r := Failure(ConfigMissing);
      case Some(c) =>
        var m := new FSM(c);
        r := Success(m);
    }

    /** `getState()`: the active state. */
    function GetState(): (s: StateId)
      reads this
      ensures s == Record().present
    {
      present
    }

    /**
     * `changeState(target)`: for a declared target, push `present` onto `post`,
     * move to the target and drop the redo stack; otherwise fail with nothing changed.
     */
    method ChangeState(target: StateId) returns (r: Outcome<FsmError>)
      requires Valid()
      modifies this
      ensures Valid()
      ensures r == Pass <==> config.Declares(target)
      ensures r.Fail? ==> r.error == StateDoesNotExist && unchanged(this)
      ensures r.Pass? ==> present == target && post == old(post) + [old(present)] && future == []
      ensures ChangeStateStep(config, old(Record()), target) == if r.Pass? then Success(Record()) else Failure(r.error)
    {
      if config.Declares(target) {
        ChangeStateKeepsKnown(config, Record(), target);
        post := post + [present];
        present := target;
        future := [];
        r := Pass;
      } else {
        r := Fail(StateDoesNotExist);
      }
    }

    /**
     * `trigger(event)`: when the active state has a transition on `event`,
     * exactly `changeState` of its target; otherwise fail with nothing changed.
     */
    method Trigger(event: EventId) returns (r: Outcome<FsmError>)
      requires Valid()
      modifies this
      ensures Valid()
      ensures config.Target(old(present), event).None? ==> r == Fail(EventDoesNotExist) && unchanged(this)
      ensures config.Target(old(present), event).Some? ==>
        var target := config.Target(old(present), event).value;
        (r == Pass <==> config.Declares(target)) &&
        (r.Fail? ==> r.error == StateDoesNotExist && unchanged(this)) &&
        (r.Pass? ==> present == target && post == old(post) + [old(present)] && future == [])
      ensures TriggerStep(config, old(Record()), event) == if r.Pass? then Success(Record()) else Failure(r.error)
    {
      var target := config.Target(GetState(), event);
      if target.Some? {
        r := ChangeState(target.value);
      } else {
        r := Fail(EventDoesNotExist);
      }
    }

    /** `reset()`: back to `initial`, keeping both history stacks. */
    method Reset()
      requires Valid()
      modifies this
      ensures Valid()
      ensures present == config.initial && post == old(post) && future == old(future)
      ensures Record() == ResetStep(config, old(Record()))
    {
      present := config.initial;
    }

    /** `getStates(event)`: the declared state ids, or those with a transition on `event`, in declaration order. */
    function GetStates(event: Option<EventId>): (r: seq<StateId>)
      requires config.Wf()
      ensures event.None? ==> r == config.order
      ensures event.Some? ==> forall s :: s in r <==> config.Declares(s) && event.value in config.states[s].transitions
      ensures IsSubsequence(r, config.order) && Distinct(r)
    {
      match event
      case None => SubsequenceOfSelf(config.order); config.order
      case Some(e) => StatesWith(config, config.order, e)
    }

    /**
     * `undo()`: false with nothing changed when `post` is empty; otherwise push
     * `present` onto `future`, pop `post` into `present` and return true.
     */
    method Undo() returns (ok: bool)
      requires Valid()
      modifies this
      ensures Valid()
      ensures ok <==> old(post) != []
      ensures !ok ==> unchanged(this)
      ensures ok ==>
        present == old(post)[|old(post)| - 1] && post == old(post)[..|old(post)| - 1] &&
        future == old(future) + [old(present)]
      ensures UndoStep(old(Record())) == if ok then Some(Record()) else None
    {
      if |post| == 0 {
        return false;
      }
      UndoKeepsKnown(config, Record());
      future := future + [present];
      present := post[|post| - 1];
      post := post[..|post| - 1];
      return true;
    }

    /**
     * `redo()`: false with nothing changed when `future` is empty; otherwise push
     * `present` onto `post`, pop `future` into `present` and return true.
     */
    method Redo() returns (ok: bool)
      requires Valid()
      modifies this
      ensures Valid()
      ensures ok <==> old(future) != []
      ensures !ok ==> unchanged(this)
      ensures ok ==>
        present == old(future)[|old(future)| - 1] && future == old(future)[..|old(future)| - 1] &&
        post == old(post) + [old(present)]
      ensures RedoStep(old(Record())) == if ok then Some(Record()) else None
    {
      if |future| == 0 {
        return false;
      }
      RedoKeepsKnown(config, Record());
      post := post + [present];
      present := future[|future| - 1];
      future := future[..|future| - 1];
      return true;
    }

    /** `clearHistory()`: empty both stacks, keeping `present`. */
    method ClearHistory()
      requires Valid()
      modifies this
      ensures Valid()
      ensures present == old(present) && post == [] && future == []
      ensures Record() == ClearHistoryStep(old(Record()))
    {
      post := [];
      future := [];
    }
  }

  /** The two-state configuration idle/running: `start` leads from idle to running, `stop` back. */
  function IdleRunning(): Config {
    Config("idle", ["idle", "running"],
           map["idle" := StateDef(map["start" := "running"]),
               "running" := StateDef(map["stop" := "idle"])])
  }

  /** Triggers, undo and redo on idle/running: every outcome follows from the contracts above. */
  method IdleRunningScenario()
  {
    var c := IdleRunning();
    assert "idle" != "running";
    assert c.Wf();
    var m := new FSM(c);
    assert m.GetState() == "idle";
    var r := m.Trigger("start");
    assert r == Pass && m.GetState() == "running";
    r := m.Trigger("stop");
    assert r == Pass && m.GetState() == "idle";
    var ok := m.Undo();
    assert ok && m.GetState() == "running";
    ok := m.Undo();
    assert ok && m.GetState() == "idle";
    ok := m.Undo();
    assert !ok && m.GetState() == "idle";
    ok := m.Redo();
    assert ok && m.GetState() == "running";
  }

  /** On idle/running an unknown event and an undeclared target both fail and leave the machine where it was. */
  method IdleRunningFailures()
  {
    var c := IdleRunning();
    assert "idle" != "running";
    assert c.Wf();
    var m := new FSM(c);
    var r := m.Trigger("stop");
    assert r == Fail(EventDoesNotExist) && m.Record() == Initial(c);
    r := m.ChangeState("gone");
    assert r == Fail(StateDoesNotExist) && m.Record() == Initial(c);
  }

  /** `getStates` on idle/running, with no event and with each event. */
  lemma IdleRunningStates(m: FSM)
    requires m.config == IdleRunning()
    ensures m.config.Wf()
    ensures m.GetStates(None) == ["idle", "running"]
    ensures m.GetStates(Some("start")) == ["idle"]
    ensures m.GetStates(Some("stop")) == ["running"]
    ensures m.GetStates(Some("nope")) == []
  {
    assert "idle" != "running";
  }
}
