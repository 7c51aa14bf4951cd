/**
 * The root registry of newton_fractal (newton_complex_fract_plot.py): the list
 * `roots` that get_root_index searches and appends to, and the indices it
 * hands out over a whole traversal.
 *
 * Entries are solver results. A Fail entry stands for the NaN the solver
 * returns on failure; numpy's isclose never calls NaN close to anything, NaN
 * included, so Matches is false whenever either side is Fail. Closeness of
 * two actual values is the parameter `close`, always applied as
 * close(roots[i], r): stored entry first, new value second, as in
 * np.isclose(roots, r).
 */
module RootRegistry {
  import opened Newton

  /** roots[i] counts as the same root as r; the NaN sentinel matches nothing, itself included. */
  function Matches<T>(close: (T, T) -> bool, entry: Solution<T>, r: Solution<T>): (m: bool)
    ensures entry == Fail || r == Fail ==> !m
    ensures m ==> entry.Root? && r.Root? && close(entry.x, r.x)
  {
    entry.Root? && r.Root? && close(entry.x, r.x)
  }

  /** No entry matches a later entry: the registry's invariant. */
  ghost predicate Distinct<T>(close: (T, T) -> bool, roots: seq<Solution<T>>)
  {
    forall i, j :: 0 <= i < j < |roots| ==> !Matches(close, roots[i], roots[j])
  }

  /** The index of the first entry matching r, or |roots| when none does. */
  function Lookup<T>(close: (T, T) -> bool, roots: seq<Solution<T>>, r: Solution<T>): (k: nat)
    ensures k <= |roots|
    ensures k < |roots| ==> Matches(close, roots[k], r)
    ensures forall j :: 0 <= j < k ==> !Matches(close, roots[j], r)
  {
    if roots == [] then 0
    else if Matches(close, roots[0], r) then 0
    else 1 + Lookup(close, roots[1..], r)
  }

  /**
   * get_root_index as a function of the registry: the new registry and the
   * index returned.
   */
  function Insert<T>(close: (T, T) -> bool, roots: seq<Solution<T>>, r: Solution<T>)
    : (res: (seq<Solution<T>>, nat))
    ensures roots <= res.0 && |res.0| <= |roots| + 1 && res.1 < |res.0|
    ensures (exists i :: 0 <= i < |roots| && Matches(close, roots[i], r)) ==>
              res.0 == roots && Matches(close, roots[res.1], r)
              && forall j :: 0 <= j < res.1 ==> !Matches(close, roots[j], r)
    ensures (forall i :: 0 <= i < |roots| ==> !Matches(close, roots[i], r)) ==>
              res.0 == roots + [r] && res.1 == |roots|
  {
    var k := Lookup(close, roots, r);
    if k < |roots| then (roots, k) else (roots + [r], |roots|)
  }

  /** Insert keeps the registry's invariant. */
  lemma InsertKeepsDistinct<T>(close: (T, T) -> bool, roots: seq<Solution<T>>, r: Solution<T>)
    requires Distinct(close, roots)
    ensures Distinct(close, Insert(close, roots, r).0)
  {
    var k := Lookup(close, roots, r);
    if k == |roots| {
      var nr := roots + [r];
      forall i, j | 0 <= i < j < |nr| ensures !Matches(close, nr[i], nr[j]) {
        if j < |roots| {
          assert nr[i] == roots[i] && nr[j] == roots[j];
        }
      }
    }
  }

  /**
   * Calling get_root_index twice with the same value returns the same index
   * and does not grow the registry the second time, provided the value is
   * close to itself (it is not the NaN sentinel).
   */
  lemma InsertIdempotent<T>(close: (T, T) -> bool, roots: seq<Solution<T>>, r: Solution<T>)
    requires Matches(close, r, r)
    ensures Insert(close, Insert(close, roots, r).0, r) == Insert(close, roots, r)
  {
    var (nr, i) := Insert(close, roots, r);
    assert Matches(close, nr[i], r);
  }

  /** The failure sentinel matches nothing, so it is always appended under a fresh index. */
  lemma InsertFailAppends<T>(close: (T, T) -> bool, roots: seq<Solution<T>>)
    ensures Insert(close, roots, Fail) == (roots + [Fail], |roots|)
  {
  }

  /** Repeated failures keep growing the registry: the second one is not matched to the first. */
  lemma RepeatedFailAppends<T>(close: (T, T) -> bool, roots: seq<Solution<T>>)
    ensures Insert(close, Insert(close, roots, Fail).0, Fail) == (roots + [Fail, Fail], |roots| + 1)
  {
    InsertFailAppends(close, roots);
    InsertFailAppends(close, roots + [Fail]);
    assert roots + [Fail] + [Fail] == roots + [Fail, Fail];
  }

  /**
   * The registry and the sequence of indices after get_root_index has been
   * called on each of rs in turn, starting from an empty registry.
   */
  function RootIndices<T>(close: (T, T) -> bool, rs: seq<Solution<T>>)
    : (res: (seq<Solution<T>>, seq<nat>))
    ensures |res.1| == |rs| && |res.0| <= |rs|
    decreases |rs|
  {
    if rs == [] then ([], [])
    else
      var (roots, indices) := RootIndices(close, rs[..|rs| - 1]);
      var (roots', i) := Insert(close, roots, rs[|rs| - 1]);
      (roots', indices + [i])
  }

  /**
   * Each index handed out is a valid index of the final registry, and the
   * registry keeps its invariant.
   */
  lemma {:induction false} RootIndicesShape<T>(close: (T, T) -> bool, rs: seq<Solution<T>>)
    ensures forall t :: 0 <= t < |rs| ==> RootIndices(close, rs).1[t] < |RootIndices(close, rs).0|
    ensures Distinct(close, RootIndices(close, rs).0)
    decreases |rs|
  {
    if rs != [] {
      var (roots, indices) := RootIndices(close, rs[..|rs| - 1]);
      RootIndicesShape(close, rs[..|rs| - 1]);
      InsertKeepsDistinct(close, roots, rs[|rs| - 1]);
    }
  }

  /**
   * The registry only grows at its end and the indices handed out are never
   * revised: the state after a prefix of the calls is a prefix of the final one.
   */
  lemma {:induction false} RootIndicesPrefix<T>(close: (T, T) -> bool, rs: seq<Solution<T>>, t: nat)
    requires t <= |rs|
    ensures RootIndices(close, rs[..t]).0 <= RootIndices(close, rs).0
    ensures RootIndices(close, rs[..t]).1 == RootIndices(close, rs).1[..t]
    decreases |rs|
  {
    RootIndicesShape(close, rs);
    if t < |rs| {
      var front := rs[..|rs| - 1];
      assert front[..t] == rs[..t];
      RootIndicesPrefix(close, front, t);
      RootIndicesShape(close, front);
    } else {
      assert rs[..t] == rs;
    }
  }

  /**
   * states and indices trace get_root_index called on each of rs in turn,
   * starting from an empty registry: states[t] is the registry before call t
   * and indices[t] the index that call returns.
   */
  ghost predicate Traces<T>(close: (T, T) -> bool, rs: seq<Solution<T>>,
                            states: seq<seq<Solution<T>>>, indices: seq<nat>)
  {
    |states| == |rs| + 1 && |indices| == |rs| && states[0] == []
    && forall t :: 0 <= t < |rs| ==> (states[t + 1], indices[t]) == Insert(close, states[t], rs[t])
  }

  /** A step-by-step trace ends in the registry and indices RootIndices computes. */
  lemma {:induction false} TracesRootIndices<T>(close: (T, T) -> bool, rs: seq<Solution<T>>,
                                                states: seq<seq<Solution<T>>>, indices: seq<nat>)
    requires Traces(close, rs, states, indices)
    ensures states[|rs|] == RootIndices(close, rs).0 && indices == RootIndices(close, rs).1
    decreases |rs|
  {
    if rs != [] {
      var L := |rs| - 1;
      var front := rs[..L];
      assert Traces(close, front, states[..L + 1], indices[..L]) by {
        forall t | 0 <= t < L
          ensures (states[..L + 1][t + 1], indices[..L][t]) == Insert(close, states[..L + 1][t], front[t])
        {
          assert front[t] == rs[t];
        }
      }
      TracesRootIndices(close, front, states[..L + 1], indices[..L]);
      var (roots, before) := RootIndices(close, front);
      assert RootIndices(close, rs) == (Insert(close, roots, rs[L]).0, before + [Insert(close, roots, rs[L]).1]);
      assert (states[L + 1], indices[L]) == Insert(close, states[L], rs[L]);
      LastSplit(indices);
    }
  }

  /** A non-empty sequence is its front followed by its last element. */
  lemma LastSplit<X>(s: seq<X>)
    requires s != []
    ensures s == s[..|s| - 1] + [s[|s| - 1]]
  {
  }

  /** Along a trace the registry only grows at its end. */
  lemma {:induction false} TracesGrow<T>(close: (T, T) -> bool, rs: seq<Solution<T>>,
                                         states: seq<seq<Solution<T>>>, indices: seq<nat>, s: nat, u: nat)
    requires Traces(close, rs, states, indices) && s <= u <= |rs|
    ensures states[s] <= states[u]
    decreases u - s
  {
    if s < u {
      TracesGrow(close, rs, states, indices, s + 1, u);
      assert (states[s + 1], indices[s]) == Insert(close, states[s], rs[s]);
    }
  }

  /** Every sequence of calls has a trace. */
  lemma {:induction false} TraceOf<T>(close: (T, T) -> bool, rs: seq<Solution<T>>)
    returns (states: seq<seq<Solution<T>>>, indices: seq<nat>)
    ensures Traces(close, rs, states, indices)
    decreases |rs|
  {
    if rs == [] {
      states, indices := [[]], [];
    } else {
      var L := |rs| - 1;
      var front := rs[..L];
      var s0, i0 := TraceOf(close, front);
      var (next, i) := Insert(close, s0[L], rs[L]);
      states, indices := s0 + [next], i0 + [i];
      forall t | 0 <= t < |rs|
        ensures (states[t + 1], indices[t]) == Insert(close, states[t], rs[t])
      {
        if t < L {
          assert front[t] == rs[t];
        }
      }
    }
  }

  /**
   * Every call's index names either the very value passed (it was appended)
   * or an entry that matches it.
   */
  lemma IndexMatchesValue<T>(close: (T, T) -> bool, rs: seq<Solution<T>>, t: nat)
    requires t < |rs|
    ensures var (roots, indices) := RootIndices(close, rs);
            t < |indices| && indices[t] < |roots|
            && (roots[indices[t]] == rs[t] || Matches(close, roots[indices[t]], rs[t]))
  {
    var states, indices := TraceOf(close, rs);
    TracesRootIndices(close, rs, states, indices);
    TracesGrow(close, rs, states, indices, t + 1, |rs|);
    assert (states[t + 1], indices[t]) == Insert(close, states[t], rs[t]);
  }

  /**
   * Registry order is discovery order: entry k was first handed out at some
   * call t, is the value passed at that call, and every earlier call got an
   * index below k.
   */
  lemma {:induction false} DiscoveryOrder<T>(close: (T, T) -> bool, rs: seq<Solution<T>>, k: nat)
    requires k < |RootIndices(close, rs).0|
    ensures exists t :: 0 <= t < |rs| && RootIndices(close, rs).1[t] == k
              && RootIndices(close, rs).0[k] == rs[t]
              && forall s :: 0 <= s < t ==> RootIndices(close, rs).1[s] < k
    decreases |rs|
  {
    var front, last := rs[..|rs| - 1], rs[|rs| - 1];
    var (roots, indices) := RootIndices(close, front);
    var (roots', i) := Insert(close, roots, last);
    assert RootIndices(close, rs) == (roots', indices + [i]);
    if k < |roots| {
      DiscoveryOrder(close, front, k);
      var t :| 0 <= t < |front| && indices[t] == k && roots[k] == front[t]
               && forall s :: 0 <= s < t ==> indices[s] < k;
      assert (indices + [i])[t] == k && roots'[k] == rs[t];
      assert forall s :: 0 <= s < t ==> (indices + [i])[s] < k;
    } else {
      RootIndicesShape(close, front);
      var t := |front|;
      assert (indices + [i])[t] == k && roots'[k] == rs[t];
      assert forall s :: 0 <= s < t ==> (indices + [i])[s] < k;
    }
  }

  /**
   * A failed solve gets an index of its own: no other call, before or after,
   * is handed the same index.
   */
  lemma {:induction false} FailGetsOwnIndex<T>(close: (T, T) -> bool, rs: seq<Solution<T>>, t: nat, s: nat)
    requires t < |rs| && s < |rs| && s != t && rs[t] == Fail
    ensures RootIndices(close, rs).1[s] != RootIndices(close, rs).1[t]
    decreases |rs|
  {
    var front, last := rs[..|rs| - 1], rs[|rs| - 1];
    var (roots, indices) := RootIndices(close, front);
    var (roots', i) := Insert(close, roots, last);
    assert RootIndices(close, rs) == (roots', indices + [i]);
    RootIndicesShape(close, front);
    var L := |front|;
    if t < L && s < L {
      FailGetsOwnIndex(close, front, t, s);
    } else if t < L {
      IndexMatchesValue(close, front, t);
      assert roots[indices[t]] == Fail;
      assert !Matches(close, roots[indices[t]], last);
    } else {
      InsertFailAppends(close, roots);
    }
  }

  /**
   * The registry and indices newton_fractal would build if its guard skipped
   * the solver's failures, as the comment beside it says it means to: a Fail
   * leaves the registry alone and its cell keeps the 0 that np.zeros put
   * there. (The guard as written, `r is not False`, lets every result
   * through; RootIndices models that.)
   */
  function ConvergedIndices<T>(close: (T, T) -> bool, rs: seq<Solution<T>>)
    : (res: (seq<Solution<T>>, seq<nat>))
    ensures |res.1| == |rs| && |res.0| <= |rs|
    decreases |rs|
  {
    if rs == [] then ([], [])
    else
      var (roots, indices) := ConvergedIndices(close, rs[..|rs| - 1]);
      var r := rs[|rs| - 1];
      if r.Fail? then (roots, indices + [0])
      else
        var (roots', i) := Insert(close, roots, r);
        (roots', indices + [i])
  }

  /**
   * With failures skipped the registry holds actual roots only, pairwise
   * unmatched; a failed cell keeps index 0 and a converged cell gets a valid
   * registry index.
   */
  lemma {:induction false} ConvergedIndicesShape<T>(close: (T, T) -> bool, rs: seq<Solution<T>>)
    ensures forall k :: 0 <= k < |ConvergedIndices(close, rs).0| ==> ConvergedIndices(close, rs).0[k].Root?
    ensures Distinct(close, ConvergedIndices(close, rs).0)
    ensures forall t :: 0 <= t < |rs| && rs[t].Fail? ==> ConvergedIndices(close, rs).1[t] == 0
    ensures forall t :: 0 <= t < |rs| && rs[t].Root? ==> ConvergedIndices(close, rs).1[t] < |ConvergedIndices(close, rs).0|
    decreases |rs|
  {
    if rs != [] {
      var front, last := rs[..|rs| - 1], rs[|rs| - 1];
      ConvergedIndicesShape(close, front);
      var (roots, indices) := ConvergedIndices(close, front);
      if last.Root? {
        InsertKeepsDistinct(close, roots, last);
        var (roots', i) := Insert(close, roots, last);
        assert ConvergedIndices(close, rs) == (roots', indices + [i]);
        forall k | 0 <= k < |roots'| ensures roots'[k].Root? {
          if k < |roots| {
            assert roots'[k] == roots[k];
          }
        }
        forall t | 0 <= t < |rs| ensures rs[t].Root? ==> (indices + [i])[t] < |roots'| {
          if t < |front| {
            assert rs[t] == front[t];
          }
        }
        forall t | 0 <= t < |rs| ensures rs[t].Fail? ==> (indices + [i])[t] == 0 {
          if t < |front| {
            assert rs[t] == front[t];
          }
        }
      } else {
        assert ConvergedIndices(close, rs) == (roots, indices + [0]);
        forall t | 0 <= t < |rs| ensures rs[t].Root? ==> (indices + [0])[t] < |roots| {
          if t < |front| {
            assert rs[t] == front[t];
          }
        }
        forall t | 0 <= t < |rs| ensures rs[t].Fail? ==> (indices + [0])[t] == 0 {
          if t < |front| {
            assert rs[t] == front[t];
          }
        }
      }
    }
  }

  /** The correction changes nothing for a traversal in which every solve converges. */
  lemma {:induction false} ConvergedAgreesWithoutFailures<T>(close: (T, T) -> bool, rs: seq<Solution<T>>)
    requires forall t :: 0 <= t < |rs| ==> rs[t].Root?
    ensures ConvergedIndices(close, rs) == RootIndices(close, rs)
    decreases |rs|
  {
    if rs != [] {
      var front := rs[..|rs| - 1];
      assert forall t :: 0 <= t < |front| ==> front[t] == rs[t];
      ConvergedAgreesWithoutFailures(close, front);
    }
  }

  /** As written, a failed solve is appended to the registry under the next free index. */
  lemma RootIndicesFailStep<T>(close: (T, T) -> bool, rs: seq<Solution<T>>)
    ensures var (roots, indices) := RootIndices(close, rs);
            RootIndices(close, rs + [Fail]) == (roots + [Fail], indices + [|roots|])
  {
    assert (rs + [Fail])[..|rs|] == rs;
    InsertFailAppends(close, RootIndices(close, rs).0);
  }

  /** With failures skipped, a failed solve leaves the registry as it is and its cell at 0. */
  lemma ConvergedIndicesFailStep<T>(close: (T, T) -> bool, rs: seq<Solution<T>>)
    ensures var (roots, indices) := ConvergedIndices(close, rs);
            ConvergedIndices(close, rs + [Fail]) == (roots, indices + [0])
  {
    assert (rs + [Fail])[..|rs|] == rs;
  }

  /**
   * The guard as written: two failed solves are both registered, as two
   * NaN entries under indices 0 and 1, where skipping them would leave the
   * registry empty and both cells at 0.
   */
  lemma FailuresRegistered<T>(close: (T, T) -> bool)
    ensures RootIndices(close, [Fail, Fail]) == ([Fail, Fail], [0, 1])
    ensures ConvergedIndices(close, [Fail, Fail]) == ([], [0, 0])
  {
    var none: seq<Solution<T>>, unset: seq<nat> := [], [];
    var one := none + [Fail];
    var two := one + [Fail];
    assert two == [Fail, Fail];
    assert RootIndices(close, none) == (none, unset) && ConvergedIndices(close, none) == (none, unset);
    RootIndicesFailStep(close, none);
    RootIndicesFailStep(close, one);
    assert RootIndices(close, two) == (two, unset + [0] + [1]);
    ConvergedIndicesFailStep(close, none);
    ConvergedIndicesFailStep(close, one);
    assert ConvergedIndices(close, two) == (none, unset + [0] + [0]);
    assert unset + [0] + [1] == [0, 1] && unset + [0] + [0] == [0, 0];
  }

  /**
   * The registry that get_root_index updates in place. The entries stay
   * pairwise unmatched (Valid) under every call.
   */
  class Registry<T> {
    const close: (T, T) -> bool
    var roots: seq<Solution<T>>

    ghost predicate Valid()
      reads this
    {
      Distinct(close, roots)
    }

    /** An empty registry, as `roots = []`. */
    constructor (close: (T, T) -> bool)
      ensures this.close == close && roots == [] && Valid()
    {
      this.close := close;
      roots := [];
    }

    /**
     * get_root_index: the index of the first entry close to r; when there is
     * none, r is appended and its new index returned.
     */
    method GetRootIndex(r: Solution<T>) returns (i: nat)
      modifies this
      ensures (roots, i) == Insert(close, old(roots), r)
      ensures old(Valid()) ==> Valid()
    {
      i := 0;
      while i < |roots| && !Matches(close, roots[i], r)
        invariant i <= |roots|
        invariant forall j :: 0 <= j < i ==> !Matches(close, roots[j], r)
      {
        i := i + 1;
      }
      if i == |roots| {
        if Valid() {
          InsertKeepsDistinct(close, roots, r);
        }
        roots := roots + [r];
      }
    }
  }
}
