# A finite-state-machine engine with a compile-time transition table, modelled in Dafny

The engine describes a state machine as a table of transitions. Each transition is a triple:
entry state, event, next state. In the C++ original every state and every event is a type. The
table lookup (`equals`, `match`), the size check and the type-list utilities run at compile time
through template metaprogramming; `operator()` then builds the chosen next state at run time.
This model replaces type identity with equality on values:

- a state or event type is a value of a type parameter `S` or `E`;
- the `std::variant` of transitions is a `seq<Transition<S, E>>`;
- a type list `TT<A, B, C>` is a `seq<T>`;
- the tuple of singletons that `pack` builds is a `seq<seq<T>>` whose elements all have length one;
- `std::tuple_cat` is `Meta.Concat`, the flattening of a sequence of sequences.

Modules:

- `Fsm` (fsm.dfy) models fsm.hpp. It has the transition triple and the `equals` test. It has the
  first-match search `match` (`MatchFrom`/`Match`). It also has the class `StateMachine` with its
  size check, its context and its dispatch operator. `Lookup` is an independent head-first reading
  of the table. `Match` is proved to agree with it.
- `Meta` (meta.dfy) models meta.hpp: `pack`, `unpack`, `merge_t` and `remove_duplicates_t`.
  `remove_duplicates` works as in the source. It packs the list, runs
  `remove_duplicates_pack_first` once per index, concatenates the results in index order and
  unpacks.
- `FsmExample` (fsm_example.dfy) holds the two-transition table of the sample program. It serves
  as a concrete witness for the size precondition, for `match` and for dispatch.

The engine has no completeness verifier, no derived state or event sets, no terminal states and
no run loop (fsm.cpp:109 is only a comment). `operator()` performs one dispatch step.

## Model

| member | source | states |
|---|---|---|
| `Fsm.Equals` | fsm.hpp:18-21 | `equals`: the transition's entry state is `s` and its event is `e`. It has no `ensures` of its own; `EqualsIgnoresNextState` states its properties, and `Match` is specified through it. |
| `Fsm.EqualsIgnoresNextState` | fsm.hpp:18-21 | Replacing a transition's next state never changes whether it matches `(s, e)`, and every transition matches its own entry state and event. |
| `Fsm.MatchFrom` | fsm.hpp:23-32 | Scanning from `index`, the result lies between `index` and the table length. Below the length, the transition at the result matches. No transition between `index` and the result matches. |
| `Fsm.Match` | fsm.hpp:23-32 | The result is never beyond the table length. Below the length it is the smallest matching position. It equals the length exactly when no transition in the table matches. |
| `Fsm.Lookup` | fsm.hpp:23-32 | The reference reading of the table: the next state of the first transition for `(s, e)`, tried from the head, or `None`. It has no `ensures` of its own; `MatchAgreesWithLookup` ties it to `Match`, and `Dispatch` is specified through it. |
| `Fsm.MatchAgreesWithLookup` | fsm.hpp:23-32 | `Match` agrees with the head-first reference `Lookup`. A position below the length gives `Some` of that transition's next state. The length gives `None`. |
| `Fsm.MatchAppend` | fsm.hpp:27-30 | The first match wins. If `t1` has a match, appending `t2` does not change the result, even when `t2` repeats the key. Otherwise the search continues in `t2`, offset by the length of `t1`. |
| `Fsm.StateMachine.constructor` | fsm.hpp:43-48 | A machine can only be built over a table of more than one transition. It records the table, `state_count` as the table length, and the given context. |
| `Fsm.StateMachine.Dispatch` | fsm.hpp:58-92 | Dispatch is defined only on a machine that passed the size check (`Valid()`), and only when some transition matches the current state and event. The result is the next state of the first matching transition, built from the stored context. The method has no `modifies` clause, so it changes neither the context nor anything else. |
| `FsmExample.TransitionsMatch` | fsm.cpp:99-107 | The sample table has more than one transition. `(start, success)` is found at 0 and `(start, exception)` at 1. `(connecting, success)`, which appears only in commented-out rows, gives the table length. |
| `FsmExample.RunExample` | fsm.cpp:112-118 | A machine over the sample table dispatched from `start` on a success yields a `connecting` state built from the machine's context. |
| `Meta.Pack` | meta.hpp:11-13 | `pack` gives a tuple as long as the list, whose element `i` is the list's element `i` alone. |
| `Meta.Unpack` | meta.hpp:15-17 | `unpack` accepts only tuples of singletons. It gives a list as long as the tuple, whose element `i` is the content of singleton `i`. |
| `Meta.UnpackPack` | meta.hpp:11-17 | `pack` always builds singletons, and `unpack(pack(L)) == L`. |
| `Meta.PackUnpack` | meta.hpp:11-17 | On a tuple of singletons, `pack(unpack(T)) == T`. |
| `Meta.Concat` | meta.hpp:36 | `std::tuple_cat` as used by `merge_t` and `remove_duplicates`: the elements of every tuple, in argument order. It has no `ensures` of its own; `ConcatAppend` and `ConcatPackAll` state its properties. |
| `Meta.Merge` | meta.hpp:35-36 | `merge_t`: unpack the `tuple_cat` of the packs of the argument lists. It has no `ensures` of its own; `MergeIsConcat`, `MergeSingle`, `MergeAppend` and `MergeMembership` state its properties. |
| `Meta.MergeIsConcat` | meta.hpp:35-36 | `merge_t` is the in-order concatenation of its argument lists. |
| `Meta.MergeSingle` | meta.hpp:35-36 | `merge_t` of no lists is empty, and `merge_t` of one list is that list. |
| `Meta.MergeAppend` | meta.hpp:35-36 | `merge_t` of two runs of argument lists is the concatenation of the two merges. With `MergeSingle`, this makes `merge_t` the in-order concatenation of its arguments. |
| `Meta.MergeMembership` | meta.hpp:35-36 | An element is in the merge exactly when it is in one of the argument lists. |
| `Meta.RemoveDuplicatesPackFirst` | meta.hpp:22-24 | `remove_duplicates_pack_first<N>` gives element `N` alone exactly when no earlier position holds an equal element, and nothing otherwise. |
| `Meta.KeptIndices` | meta.hpp:22-24 | The positions below `k` that hold a first occurrence, meaning that no earlier position holds an equal element. There are at most `k` of them, all below `k`. |
| `Meta.KeptIndicesFirstOccurrences` | meta.hpp:22-24 | The positions of `KeptIndices` are strictly increasing, and they include every first-occurrence position below `k` and no other. |
| `Meta.PackFirstsSelect` | meta.hpp:22-28 | Concatenating the first `k` results of `remove_duplicates_pack_first`, in index order, gives the elements at the first-occurrence positions below `k`, in position order. |
| `Meta.RemoveDuplicatesTuple` | meta.hpp:26-28 | `remove_duplicates` on a tuple: `tuple_cat` of `remove_duplicates_pack_first<Is>` for every index, in index order. It has no `ensures` of its own; `RemoveDuplicatesTupleSelects` states what it computes. |
| `Meta.RemoveDuplicatesTupleSelects` | meta.hpp:26-28 | On a tuple, `remove_duplicates` is the selection of its first-occurrence positions, in order. |
| `Meta.RemoveDuplicates` | meta.hpp:30-39 | `remove_duplicates_t`: pack the list, remove duplicates from the tuple, unpack. It has no `ensures` of its own; `RemoveDuplicatesSelects`, `RemoveDuplicatesNoDuplicates`, `RemoveDuplicatesSameElements`, `RemoveDuplicatesOfDistinct` and `RemoveDuplicatesIdempotent` state its properties. |
| `Meta.RemoveDuplicatesSelects` | meta.hpp:22-39 | `remove_duplicates_t` keeps the element at position `N` exactly when no earlier position holds an equal element. It keeps elements in input order: the result is the input read at the increasing positions `KeptIndices`. |
| `Meta.RemoveDuplicatesNoDuplicates` | meta.hpp:22-28 | The result of `remove_duplicates_t` holds no element twice. |
| `Meta.RemoveDuplicatesSameElements` | meta.hpp:22-32 | Every element of the input appears in the result, and only input elements do. The result is never longer than the input. |
| `Meta.RemoveDuplicatesOfDistinct` | meta.hpp:22-32 | A list without duplicates is returned unchanged. |
| `Meta.RemoveDuplicatesIdempotent` | meta.hpp:22-32 | Applying `remove_duplicates_t` to its own result changes nothing. |

## Left out

- `printf` of the transition count and `typeid(...).name()` tracing (fsm.hpp:49, 72) are console output and runtime type introspection.
- `start` (fsm.hpp:52-55) has an empty body, so there is no behaviour to model.
- The call of the new state's handler with the event and a callback lambda (fsm.hpp:86-89) is a side-effecting call into user code. The model only chooses and builds the next state.
- The default argument `Context c = Context()` of the constructor is not modelled: a generic context type has no default value, so the caller always supplies one.
- `Fsm.MatchFrom` models fsm.hpp:25-30 as if it used `if constexpr`. As written, the plain `if` instantiates every branch, so the recursion is instantiated past the end of the table and names `variant_alternative_t` at the size index. The source is therefore ill-formed for every table, whether or not the pair matches. The model gives the evidently intended first-match search instead.
- With that intended reading, an unmatched `(state, event)` pair would still fail to compile in `operator()`, since `variant_alternative_t` at the size index is ill-formed. The model turns this into the precondition of `Dispatch` rather than an error result.
- A completeness verifier, derived state and event sets, terminal states and a dispatch loop are not part of this model: the code has none of them (fsm.cpp:109 is a comment).
- The sample program's state handlers, their logging and `exit(1)` (fsm.cpp:36-96) are sample usage. Only the sample's table and its one dispatch are used, as witnesses.
- `FsmExample.RunExample` models only choosing and building the next state of the sample dispatch (fsm.cpp:118). The sample would not compile even with the intended first-match search. Its handlers take one argument (fsm.cpp:62, 78, 91), but fsm.hpp:86 calls the new state with two (the event and a lambda). `main` also default-constructs the `shared_ptr` context (fsm.cpp:113), so `connecting` would be built from an empty pointer.
- `std::decay`, `std::index_sequence` and the other template mechanics are replaced by plain sequence operations. Template instantiation limits and compile-time recursion depth are not modelled.
