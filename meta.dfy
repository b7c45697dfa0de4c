/** Type-list utilities (meta.hpp), with type identity replaced by equality.

    A type list `TT<A, B, C>` is a `seq<T>`. The tuple of singletons
    `std::tuple<TT<A>, TT<B>, TT<C>>` that `pack` builds is a `seq<seq<T>>`
    whose every element has length one. `std::tuple_cat` is `Concat`.
 */
module Meta {

  /** True when every element of `t` is a one-element list: the only tuple shape `unpack` accepts. */
  predicate Singletons<T>(t: seq<seq<T>>) {
    forall i :: 0 <= i < |t| ==> |t[i]| == 1
  }

  /** `detail::pack`: the tuple holding each element of `l` alone, in order. */
  function Pack<T>(l: seq<T>): (t: seq<seq<T>>)
    ensures |t| == |l|
    ensures forall i :: 0 <= i < |l| ==> t[i] == [l[i]]
  {
    if l == [] then [] else [[l[0]]] + Pack(l[1..])
  }

  /** `detail::unpack`: the list of the elements held by a tuple of singletons, in order. */
  function Unpack<T>(t: seq<seq<T>>): (l: seq<T>)
    requires Singletons(t)
    ensures |l| == |t|
    ensures forall i :: 0 <= i < |t| ==> l[i] == t[i][0]
  {
    if t == [] then [] else [t[0][0]] + Unpack(t[1..])
  }

  /** Unpacking a packed list gives the list back. */
  lemma UnpackPack<T>(l: seq<T>)
    ensures Singletons(Pack(l))
    ensures Unpack(Pack(l)) == l
  {
  }

  /** Packing an unpacked tuple of singletons gives the tuple back. */
  lemma PackUnpack<T>(t: seq<seq<T>>)
    requires Singletons(t)
    ensures Pack(Unpack(t)) == t
  {
    forall i | 0 <= i < |t|
      ensures Pack(Unpack(t))[i] == t[i]
    {
      assert t[i] == [t[i][0]];
    }
  }

  /** `std::tuple_cat`: the elements of every tuple, tuple by tuple, in argument order. */
  function Concat<U>(ts: seq<seq<U>>): seq<U>
  {
    if ts == [] then [] else ts[0] + Concat(ts[1..])
  }

  /** Concatenating two runs of tuples is concatenating their two results. */
  lemma {:induction false} ConcatAppend<U>(a: seq<seq<U>>, b: seq<seq<U>>)
    ensures Concat(a + b) == Concat(a) + Concat(b)
  {
    if a == [] {
      assert a + b == b;
    } else {
      assert (a + b)[1..] == a[1..] + b;
      ConcatAppend(a[1..], b);
    }
  }

  /** Packing distributes over concatenation. */
  lemma PackAppend<T>(a: seq<T>, b: seq<T>)
    ensures Pack(a + b) == Pack(a) + Pack(b)
  {
  }

  /** The tuple of packs, one per argument list, as `merge_t` hands them to `tuple_cat`. */
  function PackAll<T>(lists: seq<seq<T>>): (ts: seq<seq<seq<T>>>)
    ensures |ts| == |lists|
    ensures forall i :: 0 <= i < |lists| ==> ts[i] == Pack(lists[i])
  {
    if lists == [] then [] else [Pack(lists[0])] + PackAll(lists[1..])
  }

  /** Concatenating the packs of several lists is packing their concatenation. */
  lemma {:induction false} ConcatPackAll<T>(lists: seq<seq<T>>)
    ensures Concat(PackAll(lists)) == Pack(Concat(lists))
  {
    if lists != [] {
      assert PackAll(lists)[1..] == PackAll(lists[1..]);
      ConcatPackAll(lists[1..]);
      PackAppend(lists[0], Concat(lists[1..]));
    }
  }

  /** `merge_t`: unpack the `tuple_cat` of the packs of the argument lists. */
  function Merge<T>(lists: seq<seq<T>>): seq<T>
  {
    ConcatPackAll(lists);
    UnpackPack(Concat(lists));
    Unpack(Concat(PackAll(lists)))
  }

  /** Merging no lists gives the empty list; merging one list gives that list. */
  lemma MergeSingle<T>(l: seq<T>)
    ensures Merge<T>([]) == []
    ensures Merge([l]) == l
  {
    assert [l][1..] == [];
    UnpackPack(l);
    UnpackPack(Concat([l]));
  }

  /** Merging two runs of argument lists is the concatenation of the two merges:
      together with `MergeSingle`, the merge is the in-order concatenation of its arguments. */
  lemma MergeAppend<T>(a: seq<seq<T>>, b: seq<seq<T>>)
    ensures Merge(a + b) == Merge(a) + Merge(b)
  {
    ConcatAppend(a, b);
    UnpackPack(Concat(a + b));
    UnpackPack(Concat(a));
    UnpackPack(Concat(b));
    ConcatPackAll(a + b);
    ConcatPackAll(a);
    ConcatPackAll(b);
  }

  /** `merge_t` is the in-order concatenation of its argument lists. */
  lemma MergeIsConcat<T>(lists: seq<seq<T>>)
    ensures Merge(lists) == Concat(lists)
  {
    ConcatPackAll(lists);
    UnpackPack(Concat(lists));
  }

  /** An element is in the merge exactly when it is in one of the argument lists. */
  lemma {:induction false} MergeMembership<T>(lists: seq<seq<T>>, x: T)
    ensures x in Merge(lists) <==> exists i :: 0 <= i < |lists| && x in lists[i]
  {
    if lists == [] {
      MergeSingle<T>([]);
    } else {
      assert lists == [lists[0]] + lists[1..];
      MergeAppend([lists[0]], lists[1..]);
      MergeSingle(lists[0]);
      MergeMembership(lists[1..], x);
      if x in Merge(lists[1..]) {
        var i :| 0 <= i < |lists[1..]| && x in lists[1..][i];
        assert x in lists[i + 1];
      }
    }
  }

  /** True when `t[n]` is the first occurrence of its value: no earlier position holds an equal element. */
  predicate FirstOccurrence<U(==)>(t: seq<U>, n: nat)
    requires n < |t|
  {
    forall i :: 0 <= i < n ==> t[i] != t[n]
  }

  /** True when no two positions of `s` hold equal elements. */
  predicate NoDuplicates<U(==)>(s: seq<U>) {
    forall j, k :: 0 <= j < k < |s| ==> s[j] != s[k]
  }

  /** `detail::remove_duplicates_pack_first<N>`: the element at position `n` alone, or nothing
      when the fold over every index `i` finds `n > i` with an equal element at `i`. */
  function RemoveDuplicatesPackFirst<U(==)>(n: nat, t: seq<U>): (r: seq<U>)
    requires n < |t|
    ensures r == (if FirstOccurrence(t, n) then [t[n]] else [])
  {
    if exists i :: 0 <= i < |t| && n > i && t[n] == t[i] then [] else [t[n]]
  }

  /** The first `k` calls of `remove_duplicates_pack_first`, one per index, in index order. */
  function PackFirsts<U(==)>(t: seq<U>, k: nat): seq<seq<U>>
    requires k <= |t|
  {
    seq(k, n requires 0 <= n < k => RemoveDuplicatesPackFirst(n, t))
  }

  /** `detail::remove_duplicates` on a tuple: `tuple_cat` of `remove_duplicates_pack_first<Is>` for
      every index of the tuple. */
  function RemoveDuplicatesTuple<U(==)>(t: seq<U>): seq<U>
  {
    Concat(PackFirsts(t, |t|))
  }

  /** The positions below `k` that hold a first occurrence, in increasing order
      (`KeptIndicesFirstOccurrences`). */
  ghost function KeptIndices<U>(t: seq<U>, k: nat): (idx: seq<nat>)
    requires k <= |t|
    ensures |idx| <= k
    ensures forall j :: 0 <= j < |idx| ==> idx[j] < k
  {
    if k == 0 then []
    else KeptIndices(t, k - 1) + (if FirstOccurrence(t, k - 1) then [k - 1] else [])
  }

  /** `KeptIndices` is strictly increasing and holds every first-occurrence position below `k`
      and no other position. */
  lemma {:induction false} KeptIndicesFirstOccurrences<U>(t: seq<U>, k: nat)
    requires k <= |t|
    ensures var idx := KeptIndices(t, k);
      && (forall j, j' :: 0 <= j < j' < |idx| ==> idx[j] < idx[j'])
      && (forall n: nat :: n in idx <==> n < k && FirstOccurrence(t, n))
  {
    if k > 0 {
      KeptIndicesFirstOccurrences(t, k - 1);
    }
  }

  /** The elements of `t` at the positions `idx`, in the order of `idx`. */
  function Select<U>(t: seq<U>, idx: seq<nat>): (r: seq<U>)
    requires forall j :: 0 <= j < |idx| ==> idx[j] < |t|
  {
    seq(|idx|, j requires 0 <= j < |idx| => t[idx[j]])
  }

  /** The first `k` pack-first results concatenate to the first occurrences among the first `k`
      positions, in position order. */
  lemma {:induction false} PackFirstsSelect<U>(t: seq<U>, k: nat)
    requires k <= |t|
    ensures Concat(PackFirsts(t, k)) == Select(t, KeptIndices(t, k))
  {
    if k > 0 {
      PackFirstsSelect(t, k - 1);
      ConcatPackFirstsStep(t, k);
      SelectKeptIndicesStep(t, k);
    }
  }

  /** One more index appends its pack-first result to the concatenation. */
  lemma ConcatPackFirstsStep<U>(t: seq<U>, k: nat)
    requires 0 < k <= |t|
    ensures Concat(PackFirsts(t, k)) == Concat(PackFirsts(t, k - 1)) + RemoveDuplicatesPackFirst(k - 1, t)
  {
    var x := RemoveDuplicatesPackFirst(k - 1, t);
    PackFirstsStep(t, k);
    ConcatAppend(PackFirsts(t, k - 1), [x]);
    ConcatSingle(x);
  }

  /** One more position appends its element to the selection exactly when it is a first occurrence,
      which is what its pack-first result holds. */
  lemma SelectKeptIndicesStep<U>(t: seq<U>, k: nat)
    requires 0 < k <= |t|
    ensures Select(t, KeptIndices(t, k)) == Select(t, KeptIndices(t, k - 1)) + RemoveDuplicatesPackFirst(k - 1, t)
  {
    var prev := KeptIndices(t, k - 1);
    if FirstOccurrence(t, k - 1) {
      assert KeptIndices(t, k) == prev + [k - 1];
      SelectAppend(t, prev, k - 1);
    } else {
      assert KeptIndices(t, k) == prev;
    }
  }

  /** One more index adds one more pack-first result at the end. */
  lemma PackFirstsStep<U>(t: seq<U>, k: nat)
    requires 0 < k <= |t|
    ensures PackFirsts(t, k) == PackFirsts(t, k - 1) + [RemoveDuplicatesPackFirst(k - 1, t)]
  {
  }

  /** `tuple_cat` of one tuple is that tuple. */
  lemma ConcatSingle<U>(x: seq<U>)
    ensures Concat([x]) == x
  {
    assert [x][1..] == [];
  }

  /** Selecting one more position appends that position's element. */
  lemma SelectAppend<U>(t: seq<U>, idx: seq<nat>, n: nat)
    requires forall j :: 0 <= j < |idx| ==> idx[j] < |t|
    requires n < |t|
    ensures Select(t, idx + [n]) == Select(t, idx) + [t[n]]
  {
  }

  /** On a tuple, `remove_duplicates` keeps exactly the first occurrences, in position order. */
  lemma RemoveDuplicatesTupleSelects<U>(t: seq<U>)
    ensures RemoveDuplicatesTuple(t) == Select(t, KeptIndices(t, |t|))
  {
    PackFirstsSelect(t, |t|);
  }

  /** Packing preserves which positions hold first occurrences. */
  lemma {:induction false} KeptIndicesPack<T>(l: seq<T>, k: nat)
    requires k <= |l|
    ensures KeptIndices(Pack(l), k) == KeptIndices(l, k)
  {
    if k > 0 {
      KeptIndicesPack(l, k - 1);
      FirstOccurrencePack(l, k - 1);
    }
  }

  /** A position of a packed list holds a first occurrence exactly when it does in the list. */
  lemma FirstOccurrencePack<T>(l: seq<T>, n: nat)
    requires n < |l|
    ensures FirstOccurrence(Pack(l), n) == FirstOccurrence(l, n)
  {
    var p := Pack(l);
    forall i | 0 <= i < n
      ensures (p[i] == p[n]) == (l[i] == l[n])
    {
      assert p[i] == [l[i]] && p[n] == [l[n]];
      if p[i] == p[n] {
        assert p[i][0] == p[n][0];
      }
    }
  }

  /** `remove_duplicates_t`: pack the list, remove duplicates from the tuple, unpack. */
  function RemoveDuplicates<T(==)>(l: seq<T>): seq<T>
  {
    RemoveDuplicatesTupleSelects(Pack(l));
    Unpack(RemoveDuplicatesTuple(Pack(l)))
  }

  /** The element at position `n` is kept exactly when no earlier position holds an equal element,
      and the kept elements appear in their input order: the result is the input at the increasing
      positions `KeptIndices(l, |l|)`. */
  lemma RemoveDuplicatesSelects<T>(l: seq<T>)
    ensures RemoveDuplicates(l) == Select(l, KeptIndices(l, |l|))
  {
    var idx := KeptIndices(l, |l|);
    RemoveDuplicatesTupleSelects(Pack(l));
    KeptIndicesPack(l, |l|);
    UnpackSelectPack(l, idx);
  }

  /** Selecting positions of a packed list and unpacking is selecting them from the list. */
  lemma UnpackSelectPack<T>(l: seq<T>, idx: seq<nat>)
    requires forall j :: 0 <= j < |idx| ==> idx[j] < |l|
    ensures Singletons(Select(Pack(l), idx))
    ensures Unpack(Select(Pack(l), idx)) == Select(l, idx)
  {
    var p := Pack(l);
    var sel := Select(p, idx);
    forall j | 0 <= j < |idx|
      ensures sel[j] == [l[idx[j]]]
    {
      assert sel[j] == p[idx[j]];
    }
    assert Singletons(sel);
    var u := Unpack(sel);
    forall j | 0 <= j < |idx|
      ensures u[j] == l[idx[j]]
    {
      assert u[j] == sel[j][0];
    }
  }

  /** The result of `remove_duplicates` holds no element twice. */
  lemma RemoveDuplicatesNoDuplicates<T>(l: seq<T>)
    ensures NoDuplicates(RemoveDuplicates(l))
  {
    RemoveDuplicatesSelects(l);
    KeptIndicesFirstOccurrences(l, |l|);
    var idx := KeptIndices(l, |l|);
    forall j | 0 <= j < |idx|
      ensures FirstOccurrence(l, idx[j])
    {
      assert idx[j] in idx;
    }
    SelectFirstOccurrencesDistinct(l, idx);
  }

  /** Reading first occurrences at increasing positions never reads the same element twice. */
  lemma SelectFirstOccurrencesDistinct<T>(l: seq<T>, idx: seq<nat>)
    requires forall j :: 0 <= j < |idx| ==> idx[j] < |l| && FirstOccurrence(l, idx[j])
    requires forall j, j' :: 0 <= j < j' < |idx| ==> idx[j] < idx[j']
    ensures NoDuplicates(Select(l, idx))
  {
    var r := Select(l, idx);
    forall j, k | 0 <= j < k < |r|
      ensures r[j] != r[k]
    {
      assert r[j] == l[idx[j]] && r[k] == l[idx[k]];
      assert FirstOccurrence(l, idx[k]);
      assert idx[j] < idx[k];
    }
  }

  /** Some position at or before `n` holds the first occurrence of `l[n]`. */
  lemma {:induction false} EarliestOccurrence<T>(l: seq<T>, n: nat) returns (m: nat)
    requires n < |l|
    ensures m <= n && l[m] == l[n] && FirstOccurrence(l, m)
    decreases n
  {
    if FirstOccurrence(l, n) {
      m := n;
    } else {
      var i :| 0 <= i < n && l[i] == l[n];
      m := EarliestOccurrence(l, i);
    }
  }

  /** `remove_duplicates` keeps the set of elements and never lengthens the list. */
  lemma RemoveDuplicatesSameElements<T>(l: seq<T>)
    ensures forall x :: x in RemoveDuplicates(l) <==> x in l
    ensures |RemoveDuplicates(l)| <= |l|
  {
    RemoveDuplicatesSelects(l);
    KeptIndicesFirstOccurrences(l, |l|);
    var idx := KeptIndices(l, |l|);
    var r := RemoveDuplicates(l);
    forall x | x in l
      ensures x in r
    {
      var n :| 0 <= n < |l| && l[n] == x;
      var m := EarliestOccurrence(l, n);
      assert m in idx;
      var j :| 0 <= j < |idx| && idx[j] == m;
      assert r[j] == x;
    }
  }

  /** When every position below `k` holds a first occurrence, all of them are kept. */
  lemma {:induction false} KeptIndicesAll<T>(l: seq<T>, k: nat)
    requires k <= |l|
    requires forall n :: 0 <= n < k ==> FirstOccurrence(l, n)
    ensures KeptIndices(l, k) == seq(k, i requires 0 <= i => i as nat)
  {
    if k > 0 {
      KeptIndicesAll(l, k - 1);
      assert FirstOccurrence(l, k - 1);
    }
  }

  /** A list without duplicates is its own `remove_duplicates`. */
  lemma RemoveDuplicatesOfDistinct<T>(l: seq<T>)
    requires NoDuplicates(l)
    ensures RemoveDuplicates(l) == l
  {
    KeptIndicesAll(l, |l|);
    RemoveDuplicatesSelects(l);
  }

  /** `remove_duplicates` is idempotent. */
  lemma RemoveDuplicatesIdempotent<T>(l: seq<T>)
    ensures RemoveDuplicates(RemoveDuplicates(l)) == RemoveDuplicates(l)
  {
    RemoveDuplicatesNoDuplicates(l);
    RemoveDuplicatesOfDistinct(RemoveDuplicates(l));
  }
}
