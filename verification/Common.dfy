/** Small shared vocabulary: an optional value, duplicate-free and ascending
    sequences of node indices, and the flattening of a list of groups. */
module Common {

  /** A value that may be missing (the source's sentinel values and its
      fatal exits become `None`). */
  datatype Option<T> = None | Some(value: T)

  /** Ascending, hence duplicate-free, list of node indices. */
  predicate StrictlyIncreasing(s: seq<nat>) {
    forall i, j | 0 <= i < j < |s| :: s[i] < s[j]
  }

  /** No element occurs twice. */
  predicate NoDup<T(==)>(s: seq<T>) {
    forall i, j | 0 <= i < j < |s| :: s[i] != s[j]
  }

  /** Appending an element not yet present keeps a sequence duplicate-free. */
  lemma NoDupSnoc<T>(s: seq<T>, x: T)
    requires NoDup(s) && x !in s
    ensures NoDup(s + [x])
  {
    forall i, j | 0 <= i < j < |s + [x]| ensures (s + [x])[i] != (s + [x])[j] {
      if j == |s| {
        assert (s + [x])[i] == s[i];
      }
    }
  }

  /** The groups of a partition laid end to end, in order. */
  function Flatten<T>(groups: seq<seq<T>>): (r: seq<T>)
  {
    if |groups| == 0 then [] else Flatten(groups[..|groups| - 1]) + groups[|groups| - 1]
  }

  /** A non-empty prefix is the shorter prefix and its last element. */
  lemma PrefixSnoc<T>(s: seq<T>, i: nat)
    requires 0 < i <= |s|
    ensures s[..i] == s[..i - 1] + [s[i - 1]]
  {
  }

  lemma FlattenAppend<T>(groups: seq<seq<T>>, g: seq<T>)
    ensures Flatten(groups + [g]) == Flatten(groups) + g
  {
    assert (groups + [g])[..|groups|] == groups;
  }

  /** Every element of a group shows up in the flattening, and every element
      of the flattening comes from some group. */
  lemma {:induction false} InFlatten<T>(groups: seq<seq<T>>, x: T)
    ensures x in Flatten(groups) <==> exists a :: 0 <= a < |groups| && x in groups[a]
  {
    if |groups| > 0 {
      var init := groups[..|groups| - 1];
      InFlatten(init, x);
      if x in Flatten(groups) {
        if x in Flatten(init) {
          var a :| 0 <= a < |init| && x in init[a];
          assert groups[a] == init[a];
        } else {
          assert x in groups[|groups| - 1];
        }
      }
      if exists a :: 0 <= a < |groups| && x in groups[a] {
        var a :| 0 <= a < |groups| && x in groups[a];
        if a < |groups| - 1 {
          assert init[a] == groups[a];
        }
      }
    }
  }

  /** A duplicate-free flattening means the groups are pairwise disjoint and
      each one is itself duplicate-free: every element belongs to exactly one
      group, once. */
  lemma {:induction false} FlattenNoDupDisjoint<T>(groups: seq<seq<T>>, a: nat, b: nat, x: T)
    requires NoDup(Flatten(groups))
    requires a < |groups| && b < |groups| && x in groups[a] && x in groups[b]
    ensures a == b
  {
    var init := groups[..|groups| - 1];
    var last := groups[|groups| - 1];
    assert Flatten(groups) == Flatten(init) + last;
    assert NoDup(Flatten(init)) by {
      forall i, j | 0 <= i < j < |Flatten(init)|
        ensures Flatten(init)[i] != Flatten(init)[j]
      {
        assert Flatten(init)[i] == Flatten(groups)[i];
        assert Flatten(init)[j] == Flatten(groups)[j];
      }
    }
    if a < |groups| - 1 && b < |groups| - 1 {
      assert init[a] == groups[a] && init[b] == groups[b];
      FlattenNoDupDisjoint(init, a, b, x);
    } else if a != b {
      // one of the two groups is the last one, the other an earlier one
      var early := if a < b then a else b;
      assert x in init[early] by { assert init[early] == groups[early]; }
      InFlatten(init, x);
      var i :| 0 <= i < |Flatten(init)| && Flatten(init)[i] == x;
      var j :| 0 <= j < |last| && last[j] == x;
      // x would occur twice in the flattening
      assert Flatten(groups)[i] == x == Flatten(groups)[|Flatten(init)| + j];
    }
  }

  lemma {:induction false} GroupNoDup<T>(groups: seq<seq<T>>, a: nat)
    requires NoDup(Flatten(groups)) && a < |groups|
    ensures NoDup(groups[a])
  {
    var init := groups[..|groups| - 1];
    var last := groups[|groups| - 1];
    assert Flatten(groups) == Flatten(init) + last;
    if a == |groups| - 1 {
      forall i, j | 0 <= i < j < |last| ensures last[i] != last[j] {
        assert last[i] == Flatten(groups)[|Flatten(init)| + i];
        assert last[j] == Flatten(groups)[|Flatten(init)| + j];
      }
    } else {
      assert NoDup(Flatten(init)) by {
        forall i, j | 0 <= i < j < |Flatten(init)|
          ensures Flatten(init)[i] != Flatten(init)[j]
        {
          assert Flatten(init)[i] == Flatten(groups)[i];
          assert Flatten(init)[j] == Flatten(groups)[j];
        }
      }
      assert init[a] == groups[a];
      GroupNoDup(init, a);
    }
  }

  /** An ascending list of indices below `n` has at most `n` entries. */
  lemma {:induction false} StrictlyIncreasingBounded(s: seq<nat>, n: nat)
    requires StrictlyIncreasing(s)
    requires forall k | 0 <= k < |s| :: s[k] < n
    ensures |s| <= n
  {
    if |s| > 0 {
      AtLeastIndex(s, |s| - 1);
    }
  }

  lemma {:induction false} AtLeastIndex(s: seq<nat>, i: nat)
    requires StrictlyIncreasing(s) && i < |s|
    ensures s[i] >= i
  {
    if i > 0 {
      AtLeastIndex(s, i - 1);
    }
  }
}
