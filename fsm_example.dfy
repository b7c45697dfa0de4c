/** The sample connection machine of fsm.cpp, used as a concrete table for the engine. */
module FsmExample {
  import opened Fsm

  datatype State = Start | Connecting | Connected | Disconnected | Failed

  /** `success<sock>` and `exception`: event kinds, whatever their payload. */
  datatype Event = Success | Exception

  /** The sample table: two transitions out of `Start`. The transitions out of `Connecting` and
      `Connected` are commented out in the sample, so they are absent here too. */
  function Transitions(): Table<State, Event> {
    [Transition(Start, Success, Connecting), Transition(Start, Exception, Failed)]
  }

  /** The sample table is large enough for a machine, each of its rows is found by its own key,
      and a key with no row gives the table's length. */
  lemma TransitionsMatch()
    ensures |Transitions()| > 1
    ensures Match(Transitions(), Start, Success) == 0
    ensures Match(Transitions(), Start, Exception) == 1
    ensures Match(Transitions(), Connecting, Success) == |Transitions()|
  {
  }

  /** The sample run: a machine over the sample table, dispatched from `Start` on a success,
      builds a `Connecting` state from the machine's context. */
  method RunExample<C>(ctx: C) returns (next: StateInstance<State, C>)
    ensures next == StateInstance(Connecting, ctx)
  {
    var fsm := new StateMachine(Transitions(), ctx);
    next := fsm.Dispatch(Start, Success);
  }
}
