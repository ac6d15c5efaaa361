/**
 * The caller-supplied configuration of a finite-state machine and the
 * queries over it that `getStates` answers (src/fsm.js).
 */
module FsmConfig {
  import opened Wrappers

  type StateId = string
  type EventId = string

  /** One entry of `config.states`: its `transitions`, event id to target state id. */
  datatype StateDef = StateDef(transitions: map<EventId, StateId>)

  /**
   * `initial` and `states` as in the configuration object; `order` is the
   * key order `Object.keys(config.states)` yields.
   */
  datatype Config = Config(initial: StateId, order: seq<StateId>, states: map<StateId, StateDef>) {

    /** The key list of an object names each of its keys exactly once. */
    predicate Wf() {
      Distinct(order) && (forall s :: s in order ==> s in states) && (forall s :: s in states ==> s in order)
    }

    /** `config.states[s]` exists. */
    predicate Declares(s: StateId) {
      s in states
    }

    /** The target of `event` out of state `s`, if `s` is declared and has such a transition. */
    function Target(s: StateId, event: EventId): Option<StateId> {
      if s in states && event in states[s].transitions then Some(states[s].transitions[event]) else None
    }

    /** A state the machine can occupy: a declared one, or `initial`, which is never validated. */
    predicate Known(s: StateId) {
      Declares(s) || s == initial
    }
  }

  predicate Distinct(s: seq<StateId>) {
    forall i, j :: 0 <= i < j < |s| ==> s[i] != s[j]
  }

  /** `a` is obtained from `b` by deleting elements, keeping the order of the rest. */
  predicate IsSubsequence(a: seq<StateId>, b: seq<StateId>) {
    a == [] || (b != [] && ((a[0] == b[0] && IsSubsequence(a[1..], b[1..])) || IsSubsequence(a, b[1..])))
  }

  /**
   * The ids of `ids` whose state has a transition on `event`, in the order of
   * `ids`: the `filter` of `getStates(event)`.
   */
  function StatesWith(c: Config, ids: seq<StateId>, event: EventId): (r: seq<StateId>)
    ensures forall s :: s in r <==> s in ids && c.Target(s, event).Some?
    ensures IsSubsequence(r, ids)
    ensures Distinct(ids) ==> Distinct(r)
  {
    if ids == [] then []
    else
      var rest := StatesWith(c, ids[1..], event);
      if c.Target(ids[0], event).Some? then
        assert ([ids[0]] + rest)[1..] == rest;
        [ids[0]] + rest
      else rest
  }

  lemma {:induction false} SubsequenceOfSelf(s: seq<StateId>)
    ensures IsSubsequence(s, s)
  {
    if s != [] {
      SubsequenceOfSelf(s[1..]);
    }
  }
}
