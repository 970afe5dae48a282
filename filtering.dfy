/**
 * Order-preserving filters over sequences, as a queryset `filter` applies them
 * to a table: which elements are kept, at which positions, and in what order.
 */
module Filtering {

  /** The elements of `s` that satisfy `keep`, in their order in `s`. */
  function Keep<T>(s: seq<T>, keep: T -> bool): seq<T>
  {
    if s == [] then []
    else
      var n := |s| - 1;
      Keep(s[..n], keep) + (if keep(s[n]) then [s[n]] else [])
  }

  /** The positions in `s` of the elements `Keep` retains, in the same order. */
  function KeptPositions<T>(s: seq<T>, keep: T -> bool): seq<nat>
  {
    if s == [] then []
    else
      var n := |s| - 1;
      KeptPositions(s[..n], keep) + (if keep(s[n]) then [n] else [])
  }

  /** The set of positions in `s` whose element satisfies `keep`. */
  function PositionsWhere<T>(s: seq<T>, keep: T -> bool): set<nat>
  {
    set k: nat | k < |s| && keep(s[k])
  }

  /** Each entry is smaller than every later one, so no entry repeats. */
  predicate StrictlyIncreasing(s: seq<nat>)
  {
    forall i, j | 0 <= i < j < |s| :: s[i] < s[j]
  }

  /** An element is kept iff it occurs in `s` and satisfies `keep`; when every element does, all of `s` is kept. */
  lemma {:induction false} KeepMembers<T>(s: seq<T>, keep: T -> bool)
    ensures forall a :: a in Keep(s, keep) <==> a in s && keep(a)
    ensures |Keep(s, keep)| <= |s|
    ensures (forall k | 0 <= k < |s| :: keep(s[k])) ==> Keep(s, keep) == s
  {
    if s != [] {
      var n := |s| - 1;
      KeepMembers(s[..n], keep);
      assert s == s[..n] + [s[n]];
    }
  }

  /** A position is listed iff the element there satisfies `keep`. */
  lemma {:induction false} KeptPositionsExactly<T>(s: seq<T>, keep: T -> bool)
    ensures forall k: nat :: k in KeptPositions(s, keep) <==> k < |s| && keep(s[k])
  {
    if s != [] {
      var n := |s| - 1;
      var init := s[..n];
      KeptPositionsExactly(init, keep);
      assert forall k | 0 <= k < n :: init[k] == s[k];
    }
  }

  /** The listed positions increase, so each is listed once and in the order of `s`. */
  lemma {:induction false} KeptPositionsIncreasing<T>(s: seq<T>, keep: T -> bool)
    ensures StrictlyIncreasing(KeptPositions(s, keep))
  {
    if s != [] {
      var n := |s| - 1;
      var init := s[..n];
      KeptPositionsIncreasing(init, keep);
      KeptPositionsExactly(init, keep);
      var before := KeptPositions(init, keep);
      forall i | 0 <= i < |before| ensures before[i] < n {
        assert before[i] in before;
      }
      if keep(s[n]) {
        var pos := before + [n];
        forall i, j | 0 <= i < j < |pos| ensures pos[i] < pos[j] {
          assert pos[i] == before[i];
        }
      }
    }
  }

  /** The j-th kept element is the element at the j-th listed position. */
  lemma {:induction false} KeptPositionsPick<T>(s: seq<T>, keep: T -> bool)
    ensures var pos, kept := KeptPositions(s, keep), Keep(s, keep);
      |pos| == |kept| && forall j | 0 <= j < |pos| :: pos[j] < |s| && kept[j] == s[pos[j]]
  {
    if s != [] {
      var n := |s| - 1;
      var init := s[..n];
      KeptPositionsPick(init, keep);
      assert forall k | 0 <= k < n :: init[k] == s[k];
    }
  }

  /** As many elements are kept as there are positions whose element satisfies `keep`. */
  lemma {:induction false} KeepCount<T>(s: seq<T>, keep: T -> bool)
    ensures |Keep(s, keep)| == |PositionsWhere(s, keep)|
  {
    if s != [] {
      var n := |s| - 1;
      var init := s[..n];
      KeepCount(init, keep);
      var whole := PositionsWhere(s, keep);
      var before := PositionsWhere(init, keep);
      if keep(s[n]) {
        assert whole == before + {n};
      } else {
        assert whole == before;
      }
    }
  }

  /** Filtering by `p` and then by `q` keeps what satisfies both, in the original order. */
  lemma {:induction false} KeepKeep<T>(s: seq<T>, p: T -> bool, q: T -> bool, both: T -> bool)
    requires forall a :: both(a) == (p(a) && q(a))
    ensures Keep(Keep(s, p), q) == Keep(s, both)
  {
    if s != [] {
      var n := |s| - 1;
      KeepKeep(s[..n], p, q, both);
      var inner := Keep(s[..n], p);
      assert both(s[n]) == (p(s[n]) && q(s[n]));
      assert Keep(s, both) == Keep(s[..n], both) + (if both(s[n]) then [s[n]] else []);
      if p(s[n]) {
        var outer := inner + [s[n]];
        assert Keep(s, p) == outer;
        assert outer[..|inner|] == inner;
        assert Keep(outer, q) == Keep(inner, q) + (if q(s[n]) then [s[n]] else []);
        assert Keep(inner, q) == Keep(s[..n], both);
        assert Keep(Keep(s, p), q) == Keep(outer, q);
      } else {
        assert Keep(s, p) == inner;
      }
    }
  }
}
