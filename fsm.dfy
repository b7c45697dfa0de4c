/** The transition table and the dispatching state machine (fsm.hpp).

    State types and event types become values of the type parameters `S` and `E`,
    and type identity (`std::is_same_v`) becomes equality on them. The table,
    a `std::variant` of transitions, is an ordered sequence of transitions.
 */
module Fsm {

  datatype Option<T> = None | Some(value: T)

  /** `transition<Entry, Event, Next>`: on `event` in state `entry`, go to state `next`. */
  datatype Transition<S, E> = Transition(entry: S, event: E, next: S)

  /** The transition table, in declaration order. */
  type Table<S, E> = seq<Transition<S, E>>

  /** `equals<T, U, V>`: the transition starts in state `s` and is taken on event `e`. */
  predicate Equals<S(==), E(==)>(t: Transition<S, E>, s: S, e: E) {
    t.entry == s && t.event == e
  }

  /** `Equals` looks at the entry state and the event only: the next state plays no part,
      and a transition always matches its own entry state and event. */
  lemma EqualsIgnoresNextState<S, E>(t: Transition<S, E>, s: S, e: E, other: S)
    ensures Equals(Transition(t.entry, t.event, other), s, e) == Equals(t, s, e)
    ensures Equals(t, t.entry, t.event)
  {
  }

  /** `match<Table, U, V, index>`: scanning from `index`, the first position whose transition
      matches `s` and `e`, or the table's length when none does. */
  function MatchFrom<S(==), E(==)>(table: Table<S, E>, s: S, e: E, index: nat): (r: nat)
    requires index <= |table|
    ensures index <= r <= |table|
    ensures r < |table| ==> Equals(table[r], s, e)
    ensures forall i :: index <= i < r ==> !Equals(table[i], s, e)
    decreases |table| - index
  {
    if index == |table| then index
    else if Equals(table[index], s, e) then index
    else MatchFrom(table, s, e, index + 1)
  }

  /** `match<Table, U, V>` with its default start index 0. The result is never beyond the table;
      below the table's length it is the smallest matching position; it equals the table's
      length exactly when no transition matches. */
  function Match<S(==), E(==)>(table: Table<S, E>, s: S, e: E): (r: nat)
    ensures r <= |table|
    ensures r < |table| ==> Equals(table[r], s, e)
    ensures forall i :: 0 <= i < r ==> !Equals(table[i], s, e)
    ensures r == |table| <==> forall i :: 0 <= i < |table| ==> !Equals(table[i], s, e)
  {
    MatchFrom(table, s, e, 0)
  }

  /** Reference reading of the table as rules tried head first: the next state of the first
      transition for `s` and `e`, or `None` when there is none. */
  function Lookup<S(==), E(==)>(table: Table<S, E>, s: S, e: E): Option<S>
  {
    if table == [] then None
    else if Equals(table[0], s, e) then Some(table[0].next)
    else Lookup(table[1..], s, e)
  }

  lemma {:induction false} MatchFromAgreesWithLookup<S, E>(table: Table<S, E>, s: S, e: E, index: nat)
    requires index <= |table|
    ensures var m := MatchFrom(table, s, e, index);
      Lookup(table[index..], s, e) == if m < |table| then Some(table[m].next) else None
    decreases |table| - index
  {
    if index < |table| && !Equals(table[index], s, e) {
      assert table[index..][1..] == table[index + 1..];
      MatchFromAgreesWithLookup(table, s, e, index + 1);
    }
  }

  /** `Match` and the head-first reading agree: a position below the length names the transition
      whose next state `Lookup` finds, and the length means `Lookup` finds nothing. */
  lemma MatchAgreesWithLookup<S, E>(table: Table<S, E>, s: S, e: E)
    ensures var m := Match(table, s, e);
      Lookup(table, s, e) == if m < |table| then Some(table[m].next) else None
  {
    MatchFromAgreesWithLookup(table, s, e, 0);
    assert table[0..] == table;
  }

  /** First match wins: transitions placed after a matching one are never consulted, and a table
      with no match for `s` and `e` passes the search on to whatever follows it. */
  lemma MatchAppend<S, E>(t1: Table<S, E>, t2: Table<S, E>, s: S, e: E)
    ensures var m := Match(t1, s, e);
      Match(t1 + t2, s, e) == if m < |t1| then m else |t1| + Match(t2, s, e)
  {
    var m, r := Match(t1, s, e), Match(t1 + t2, s, e);
    if m < |t1| {
      assert (t1 + t2)[m] == t1[m];
    } else {
      var m2 := Match(t2, s, e);
      forall i | 0 <= i < |t1|
        ensures !Equals((t1 + t2)[i], s, e)
      {
        assert (t1 + t2)[i] == t1[i];
      }
      if m2 < |t2| {
        assert (t1 + t2)[|t1| + m2] == t2[m2];
      }
    }
  }

  /** A state object as `operator()` builds it: an instance of state type `kind`, constructed
      from the context it was handed. */
  datatype StateInstance<S, C> = StateInstance(kind: S, ctx: C)

  /** `state_machine<TransitionTable, Context>`. */
  class StateMachine<S(==), E(==), C> {
    /** The transition table, fixed with the machine's type. */
    const table: Table<S, E>
    /** `state_count`: the number of transitions in the table. */
    const stateCount: nat
    /** `m_ctx`: the context every next state is built from. */
    var ctx: C

    /** The `static_assert`: a machine always has more than one transition. */
    predicate Valid() {
      stateCount == |table| && stateCount > 1
    }

    /** A machine over `table` with context `c`; tables of fewer than two transitions are rejected. */
    constructor (table: Table<S, E>, c: C)
      requires |table| > 1
      ensures Valid()
      ensures this.table == table && ctx == c
    {
      this.table := table;
      stateCount := |table|;
      ctx := c;
    }

    /** `operator()`: the next state for `current` on `event`, built from the stored context.
        Only defined on a machine that passed the size check and when some transition matches;
        the context is read, never written. */
    method Dispatch(current: S, event: E) returns (next: StateInstance<S, C>)
      requires Valid()
      requires Match(table, current, event) < |table|
      ensures Lookup(table, current, event) == Some(next.kind)
      ensures next.ctx == ctx
    {
      var index := Match(table, current, event);
      MatchAgreesWithLookup(table, current, event);
      next := StateInstance(table[index].next, ctx);
    }
  }
}
