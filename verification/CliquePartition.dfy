/** The Tseng–Siewiorek clique-partitioning heuristic as the code of
    clique_partition.h runs it: one clique is grown at a time over an
    unchanged copy of the compatibility matrix. Its seed is a remaining node
    of maximum degree. It then keeps adding a node of the common-neighbour
    set Y, chosen by the Y1/Y2 tie-break, until Y is empty. */
module CliquePartition {
  import opened Common

  /** Capacity of the source's fixed result table (MAXCLIQUES). */
  const MaxCliques: nat := 200

  /** Sentinel the source stores in unused slots (CLIQUE_UNKNOWN). */
  const Unknown: int := -12345

  type Matrix = seq<seq<int>>

  predicate IsSquare(m: Matrix) {
    forall i | 0 <= i < |m| :: |m[i]| == |m|
  }

  predicate IsBinary(m: Matrix)
    requires IsSquare(m)
  {
    forall i, j | 0 <= i < |m| && 0 <= j < |m| :: m[i][j] == 0 || m[i][j] == 1
  }

  predicate IsSymmetric(m: Matrix)
    requires IsSquare(m)
  {
    forall i, j | 0 <= i < |m| && 0 <= j < |m| :: m[i][j] == m[j][i]
  }

  /** What input_sanity_check accepts; the diagonal may hold 0 or 1. */
  predicate WellFormed(m: Matrix) {
    IsSquare(m) && IsBinary(m) && IsSymmetric(m)
  }

  predicate InRange(m: Matrix, s: seq<nat>) {
    forall k | 0 <= k < |s| :: s[k] < |m|
  }

  /** Any two members at different positions are compatible. */
  predicate IsClique(m: Matrix, c: seq<nat>)
    requires IsSquare(m)
  {
    InRange(m, c) && forall a, b | 0 <= a < |c| && 0 <= b < |c| && a != b :: m[c[a]][c[b]] == 1
  }

  /** Every node 0..n-1 occurs exactly once over all the cliques, and the
      clique sizes add up to n. */
  ghost predicate IsPartition(n: nat, cliques: seq<seq<nat>>) {
    && NoDup(Flatten(cliques))
    && |Flatten(cliques)| == n
    && forall v: nat :: v in Flatten(cliques) <==> v < n
  }

  /** Every pair of distinct nodes is compatible. */
  predicate AllCompatible(m: Matrix)
    requires IsSquare(m)
  {
    forall i, j | 0 <= i < |m| && 0 <= j < |m| && i != j :: m[i][j] == 1
  }

  // ---------------------------------------------------------------------
  // input_sanity_check

  /** Entry (a, b) is 0 or 1 and equals entry (b, a). */
  predicate EntryOk(m: Matrix, a: nat, b: nat)
    requires IsSquare(m) && a < |m| && b < |m|
  {
    (m[a][b] == 0 || m[a][b] == 1) && m[a][b] == m[b][a]
  }

  /** The entries of the rows below i all pass. */
  predicate RowsOk(m: Matrix, i: nat)
    requires IsSquare(m) && i <= |m|
  {
    forall a, b | 0 <= a < i && 0 <= b < |m| :: EntryOk(m, a, b)
  }

  /** The entry check run before partitioning: every entry is 0 or 1 and the
      matrix is symmetric. The source exits the process on the first bad
      entry; here the result reports it. */
  method InputSanityCheck(compat: Matrix) returns (ok: bool)
    requires IsSquare(compat)
    ensures ok <==> IsBinary(compat) && IsSymmetric(compat)
  {
    var n := |compat|;
    var i := 0;
    while i < n
      invariant 0 <= i <= n
      invariant RowsOk(compat, i)
    {
      var j := 0;
      while j < n
        invariant 0 <= j <= n
        invariant forall b | 0 <= b < j :: EntryOk(compat, i, b)
      {
        if compat[i][j] != 1 && compat[i][j] != 0 {
          assert !IsBinary(compat) by { assert !(compat[i][j] == 0 || compat[i][j] == 1); }
          return false;
        }
        if compat[i][j] != compat[j][i] {
          return false;
        }
        j := j + 1;
      }
      i := i + 1;
    }
    forall a, b | 0 <= a < n && 0 <= b < n
      ensures compat[a][b] == 0 || compat[a][b] == 1
    {
      assert EntryOk(compat, a, b);
    }
    forall a, b | 0 <= a < n && 0 <= b < n
      ensures compat[a][b] == compat[b][a]
    {
      assert EntryOk(compat, a, b);
    }
    return true;
  }

  // ---------------------------------------------------------------------
  // get_degree_of_a_node

  /** Row x summed over the remaining nodes below k, leaving out x itself. */
  function DegreeUpTo(m: Matrix, nodes: set<nat>, x: nat, k: nat): int
    requires IsSquare(m) && x < |m| && k <= |m|
  {
    if k == 0 then 0
    else DegreeUpTo(m, nodes, x, k - 1) + (if k - 1 in nodes && x != k - 1 then m[x][k - 1] else 0)
  }

  /** The degree of x among the remaining nodes. */
  function Degree(m: Matrix, nodes: set<nat>, x: nat): int
    requires IsSquare(m) && x < |m|
  {
    DegreeUpTo(m, nodes, x, |m|)
  }

  /** The remaining nodes other than x that are compatible with x. */
  function Neighbours(m: Matrix, nodes: set<nat>, x: nat): set<nat>
    requires IsSquare(m) && x < |m|
  {
    set j: nat | j < |m| && j in nodes && j != x && m[x][j] == 1
  }

  method GetDegreeOfANode(x: nat, m: Matrix, nodes: set<nat>) returns (nodeDegree: int)
    requires IsSquare(m) && x < |m|
    ensures nodeDegree == Degree(m, nodes, x)
  {
    nodeDegree := 0;
    var j := 0;
    while j < |m|
      invariant 0 <= j <= |m|
      invariant nodeDegree == DegreeUpTo(m, nodes, x, j)
    {
      if j in nodes {
        if x != j {
          nodeDegree := nodeDegree + m[x][j];
        }
      }
      j := j + 1;
    }
  }

  /** On a 0/1 matrix the degree counts the compatible remaining nodes other
      than x, so it lies in 0..n-1. */
  lemma DegreeCountsNeighbours(m: Matrix, nodes: set<nat>, x: nat)
    requires WellFormed(m) && x < |m|
    ensures Degree(m, nodes, x) == |Neighbours(m, nodes, x)|
    ensures 0 <= Degree(m, nodes, x) < |m|
  {
    DegreeUpToCounts(m, nodes, x, |m|);
    DegreeUpToBound(m, nodes, x, |m|);
    assert Neighbours(m, nodes, x) == NeighboursBelow(m, nodes, x, |m|);
  }

  function NeighboursBelow(m: Matrix, nodes: set<nat>, x: nat, k: nat): set<nat>
    requires IsSquare(m) && x < |m|
  {
    set j: nat | j < k && j < |m| && j in nodes && j != x && m[x][j] == 1
  }

  lemma {:induction false} DegreeUpToCounts(m: Matrix, nodes: set<nat>, x: nat, k: nat)
    requires WellFormed(m) && x < |m| && k <= |m|
    ensures DegreeUpTo(m, nodes, x, k) == |NeighboursBelow(m, nodes, x, k)|
  {
    if k > 0 {
      DegreeUpToCounts(m, nodes, x, k - 1);
      var prev := NeighboursBelow(m, nodes, x, k - 1);
      if k - 1 in nodes && x != k - 1 && m[x][k - 1] == 1 {
        assert NeighboursBelow(m, nodes, x, k) == prev + {k - 1};
      } else {
        assert NeighboursBelow(m, nodes, x, k) == prev;
      }
    }
  }

  lemma {:induction false} DegreeUpToBound(m: Matrix, nodes: set<nat>, x: nat, k: nat)
    requires WellFormed(m) && x < |m| && k <= |m|
    ensures 0 <= DegreeUpTo(m, nodes, x, k) <= (if x < k then k - 1 else k)
  {
    if k > 0 {
      DegreeUpToBound(m, nodes, x, k - 1);
    }
  }

  // ---------------------------------------------------------------------
  // select_new_node

  /** The seed rule: x is a remaining node of maximum degree and, among the
      nodes of that degree, the one with the highest index (the neighbour
      weight the source compares is the node's own degree, so with `>=` the
      last candidate wins). */
  predicate IsSeed(m: Matrix, nodes: set<nat>, x: int)
    requires IsSquare(m)
    requires forall v | v in nodes :: v < |m|
  {
    && 0 <= x < |m|
    && x in nodes
    && forall j | j in nodes ::
         Degree(m, nodes, j) < Degree(m, nodes, x) || (Degree(m, nodes, j) == Degree(m, nodes, x) && j <= x)
  }

  /** degrees[d] lists, ascending, exactly the remaining nodes below i whose
      degree is d. */
  ghost predicate Buckets(m: Matrix, nodes: set<nat>, degrees: seq<seq<nat>>, i: nat)
    requires WellFormed(m) && |degrees| == |m|
    requires forall v | v in nodes :: v < |m|
  {
    && (forall d | 0 <= d < |m| :: StrictlyIncreasing(degrees[d]))
    && (forall d, k | 0 <= d < |m| && 0 <= k < |degrees[d]| ::
          degrees[d][k] < i && degrees[d][k] in nodes && Degree(m, nodes, degrees[d][k]) == d)
    && (forall v | v in nodes && v < i :: 0 <= Degree(m, nodes, v) < |m| && v in degrees[Degree(m, nodes, v)])
  }

  /** curr is the largest degree among the remaining nodes below i (0 when
      there is none). */
  ghost predicate MaxDegreeBelow(m: Matrix, nodes: set<nat>, curr: int, i: nat)
    requires IsSquare(m)
    requires forall v | v in nodes :: v < |m|
  {
    && (forall v | v in nodes && v < i :: Degree(m, nodes, v) <= curr)
    && (curr == 0 || exists v | v in nodes && v < i :: Degree(m, nodes, v) == curr)
  }

  /** Bucketing a remaining node i: it goes at the end of the bucket of its
      degree. */
  lemma BucketsAdd(m: Matrix, nodes: set<nat>, degrees: seq<seq<nat>>, i: nat, d: int)
    requires WellFormed(m) && |degrees| == |m| && i < |m|
    requires forall v | v in nodes :: v < |m|
    requires Buckets(m, nodes, degrees, i)
    requires i in nodes && d == Degree(m, nodes, i)
    ensures 0 <= d < |m|
    ensures Buckets(m, nodes, degrees[d := degrees[d] + [i]], i + 1)
  {
    DegreeCountsNeighbours(m, nodes, i);
    var next := degrees[d := degrees[d] + [i]];
    forall v | v in nodes && v < i + 1
      ensures 0 <= Degree(m, nodes, v) < |m| && v in next[Degree(m, nodes, v)]
    {
      DegreeCountsNeighbours(m, nodes, v);
      if v < i {
        assert v in degrees[Degree(m, nodes, v)];
      }
    }
  }

  /** A node that is no longer in N is skipped. */
  lemma BucketsSkip(m: Matrix, nodes: set<nat>, degrees: seq<seq<nat>>, i: nat)
    requires WellFormed(m) && |degrees| == |m| && i < |m|
    requires forall v | v in nodes :: v < |m|
    requires Buckets(m, nodes, degrees, i) && i !in nodes
    ensures Buckets(m, nodes, degrees, i + 1)
  {
    forall v | v in nodes && v < i + 1
      ensures 0 <= Degree(m, nodes, v) < |m| && v in degrees[Degree(m, nodes, v)]
    {
      assert v < i;
    }
  }

  lemma MaxDegreeStep(m: Matrix, nodes: set<nat>, curr: int, i: nat)
    requires WellFormed(m) && i < |m|
    requires forall v | v in nodes :: v < |m|
    requires MaxDegreeBelow(m, nodes, curr, i)
    ensures i in nodes && Degree(m, nodes, i) > curr ==> MaxDegreeBelow(m, nodes, Degree(m, nodes, i), i + 1)
    ensures i in nodes && Degree(m, nodes, i) <= curr ==> MaxDegreeBelow(m, nodes, curr, i + 1)
    ensures i !in nodes ==> MaxDegreeBelow(m, nodes, curr, i + 1)
  {
  }

  /** Once every node is bucketed, the bucket of the largest degree is not
      empty and its last entry is the seed. */
  lemma SeedFromBuckets(m: Matrix, nodes: set<nat>, degrees: seq<seq<nat>>, curr: int)
    requires WellFormed(m) && |degrees| == |m| && 0 <= curr < |m|
    requires nodes != {} && forall v | v in nodes :: v < |m|
    requires Buckets(m, nodes, degrees, |m|) && MaxDegreeBelow(m, nodes, curr, |m|)
    ensures degrees[curr] != []
    ensures forall k | 0 <= k < |degrees[curr]| :: degrees[curr][k] < |m| && Degree(m, nodes, degrees[curr][k]) == curr
    ensures IsSeed(m, nodes, degrees[curr][|degrees[curr]| - 1])
  {
    var bucket := degrees[curr];
    var someNode :| someNode in nodes;
    DegreeCountsNeighbours(m, nodes, someNode);
    if curr == 0 {
      assert someNode in degrees[0];
    } else {
      var v :| v in nodes && v < |m| && Degree(m, nodes, v) == curr;
      assert v in bucket;
    }
    LastOfBucketIsSeed(m, nodes, bucket, curr);
  }

  /** The last entry of the ascending bucket of the largest degree is the
      seed. */
  lemma LastOfBucketIsSeed(m: Matrix, nodes: set<nat>, bucket: seq<nat>, curr: int)
    requires WellFormed(m) && forall v | v in nodes :: v < |m|
    requires bucket != [] && StrictlyIncreasing(bucket)
    requires forall k | 0 <= k < |bucket| :: bucket[k] in nodes && Degree(m, nodes, bucket[k]) == curr
    requires forall v | v in nodes :: Degree(m, nodes, v) <= curr
    requires forall v | v in nodes && Degree(m, nodes, v) == curr :: v in bucket
    ensures IsSeed(m, nodes, bucket[|bucket| - 1])
  {
    var last := bucket[|bucket| - 1];
    forall j | j in nodes
      ensures Degree(m, nodes, j) < Degree(m, nodes, last)
              || (Degree(m, nodes, j) == Degree(m, nodes, last) && j <= last)
    {
      if Degree(m, nodes, j) == curr {
        var k :| 0 <= k < |bucket| && bucket[k] == j;
        assert k == |bucket| - 1 || bucket[k] < bucket[|bucket| - 1];
      }
    }
  }

  /** The first loop of select_new_node: the degree of every remaining node,
      its largest value, and the nodes bucketed by degree in index order. */
  method BucketByDegree(m: Matrix, nodes: set<nat>) returns (degrees: seq<seq<nat>>, currMaxDegree: nat)
    requires WellFormed(m)
    requires nodes != {} && forall v | v in nodes :: v < |m|
    ensures |degrees| == |m| && currMaxDegree < |m| && degrees[currMaxDegree] != []
    ensures forall k | 0 <= k < |degrees[currMaxDegree]| ::
      degrees[currMaxDegree][k] < |m| && Degree(m, nodes, degrees[currMaxDegree][k]) == currMaxDegree
    ensures IsSeed(m, nodes, degrees[currMaxDegree][|degrees[currMaxDegree]| - 1])
  {
    var n := |m|;
    assert n > 0 by {
      var v :| v in nodes;
    }
    // degrees[d] lists, in index order, the remaining nodes of degree d
    degrees := seq(n, _ => []);
    currMaxDegree := 0;
    var i: nat := 0;
    while i < n
      invariant 0 <= i <= n && |degrees| == n && currMaxDegree < n
      invariant MaxDegreeBelow(m, nodes, currMaxDegree, i)
      invariant Buckets(m, nodes, degrees, i)
    {
      MaxDegreeStep(m, nodes, currMaxDegree, i);
      if i in nodes {
        // if the node is still in N
        var currNodeDegree := GetDegreeOfANode(i, m, nodes);
        BucketsAdd(m, nodes, degrees, i, currNodeDegree);
        if currNodeDegree > currMaxDegree {
          currMaxDegree := currNodeDegree;
        }
        // append to the list of nodes with this degree
        degrees := degrees[currNodeDegree := degrees[currNodeDegree] + [i]];
      } else {
        BucketsSkip(m, nodes, degrees, i);
      }
      i := i + 1;
    }
    SeedFromBuckets(m, nodes, degrees, currMaxDegree);
  }

  /** select_new_node: the seed of a new clique, the remaining node of
      largest degree, ties going to the one with the highest index. */
  method SelectNewNode(m: Matrix, nodes: set<nat>) returns (maxNode: int)
    requires WellFormed(m)
    requires nodes != {} && forall v | v in nodes :: v < |m|
    ensures IsSeed(m, nodes, maxNode)
  {
    maxNode := Unknown;
    var degrees, currMaxDegree := BucketByDegree(m, nodes);
    var bucket := degrees[currMaxDegree];
    ghost var seed := bucket[|bucket| - 1];
    assert IsSeed(m, nodes, seed);
    if |bucket| == 1 {
      // only one node of maximum degree
      maxNode := bucket[0];
    } else {
      // several: the last one whose neighbour weight is at least the best so far
      var maxCurrNeighboursWt := 0;
      var index := 0;
      while index < |bucket|
        invariant 0 <= index <= |bucket|
        invariant index == 0 ==> maxCurrNeighboursWt == 0
        invariant index > 0 ==> maxCurrNeighboursWt == currMaxDegree && maxNode == bucket[index - 1]
      {
        var currNeighboursWt := 0;
        var currNode := bucket[index];
        var wt := GetDegreeOfANode(currNode, m, nodes);
        currNeighboursWt := currNeighboursWt + wt;
        if currNeighboursWt >= maxCurrNeighboursWt {
          maxCurrNeighboursWt := currNeighboursWt;
          maxNode := currNode;
        }
        index := index + 1;
      }
    }
    assert maxNode == seed;
  }

  // ---------------------------------------------------------------------
  // form_setY

  /** v is compatible with every current member of the growing clique. */
  predicate CompatibleWithAll(m: Matrix, clique: seq<nat>, v: nat)
    requires IsSquare(m) && InRange(m, clique) && v < |m|
  {
    forall t | 0 <= t < |clique| :: m[clique[t]][v] == 1
  }

  /** The nodes below k that Y holds, in ascending order. */
  function CommonNeighboursUpTo(m: Matrix, clique: seq<nat>, nodes: set<nat>, k: nat): (r: seq<nat>)
    requires IsSquare(m) && InRange(m, clique) && k <= |m|
    ensures |r| <= k && forall t | 0 <= t < |r| :: r[t] < k
  {
    if k == 0 then []
    else
      CommonNeighboursUpTo(m, clique, nodes, k - 1)
        + (if k - 1 in nodes && CompatibleWithAll(m, clique, k - 1) then [k - 1] else [])
  }

  /** Y of a growing clique: the remaining nodes compatible with all of its
      members, in ascending order. */
  function CommonNeighbours(m: Matrix, clique: seq<nat>, nodes: set<nat>): (r: seq<nat>)
    requires IsSquare(m) && InRange(m, clique)
    ensures |r| <= |m| && InRange(m, r)
  {
    CommonNeighboursUpTo(m, clique, nodes, |m|)
  }

  /** Y: exactly the remaining nodes compatible with every member of the
      current clique, in ascending index order. */
  method FormSetY(currentClique: seq<nat>, m: Matrix, nodes: set<nat>) returns (setY: seq<nat>)
    requires WellFormed(m) && InRange(m, currentClique)
    ensures setY == CommonNeighbours(m, currentClique, nodes)
    ensures StrictlyIncreasing(setY) && InRange(m, setY)
    ensures forall v: nat :: v in setY <==> v < |m| && v in nodes && CompatibleWithAll(m, currentClique, v)
  {
    setY := [];
    var i := 0;
    while i < |m|
      invariant 0 <= i <= |m|
      invariant setY == CommonNeighboursUpTo(m, currentClique, nodes, i)
      invariant StrictlyIncreasing(setY) && forall k | 0 <= k < |setY| :: setY[k] < i
      invariant forall v: nat :: v in setY <==> v < i && v in nodes && CompatibleWithAll(m, currentClique, v)
    {
      var compatibility := true;
      if i in nodes {
        var j := 0;
        while j < |currentClique|
          invariant 0 <= j <= |currentClique|
          invariant forall t | 0 <= t < j :: m[currentClique[t]][i] == 1
        {
          if m[currentClique[j]][i] == 0 {
            compatibility := false;
            break;
          }
          j := j + 1;
        }
        if compatibility {
          setY := setY + [i];
        }
      }
      i := i + 1;
    }
  }

  // ---------------------------------------------------------------------
  // The sets I_y and the Y1/Y2 tie-break of pick_a_node_to_merge

  function IncompatibleUpTo(m: Matrix, nodes: set<nat>, y: nat, k: nat): seq<nat>
    requires IsSquare(m) && y < |m| && k <= |m|
  {
    if k == 0 then []
    else IncompatibleUpTo(m, nodes, y, k - 1) + (if k - 1 in nodes && m[y][k - 1] != 1 then [k - 1] else [])
  }

  /** I_y: the remaining nodes whose entry with y is not 1, ascending. */
  function Incompatible(m: Matrix, nodes: set<nat>, y: nat): seq<nat>
    requires IsSquare(m) && y < |m|
  {
    IncompatibleUpTo(m, nodes, y, |m|)
  }

  lemma {:induction false} IncompatibleUpToMembers(m: Matrix, nodes: set<nat>, y: nat, k: nat)
    requires IsSquare(m) && y < |m| && k <= |m|
    ensures StrictlyIncreasing(IncompatibleUpTo(m, nodes, y, k))
    ensures forall t | 0 <= t < |IncompatibleUpTo(m, nodes, y, k)| :: IncompatibleUpTo(m, nodes, y, k)[t] < k
    ensures forall v: nat :: v in IncompatibleUpTo(m, nodes, y, k) <==> v < k && v in nodes && m[y][v] != 1
  {
    if k > 0 {
      IncompatibleUpToMembers(m, nodes, y, k - 1);
    }
  }

  /** I_y holds exactly the remaining nodes incompatible with y, ascending;
      the size the source records for y is its length. */
  lemma IncompatibleMembers(m: Matrix, nodes: set<nat>, y: nat)
    requires IsSquare(m) && y < |m|
    ensures StrictlyIncreasing(Incompatible(m, nodes, y)) && InRange(m, Incompatible(m, nodes, y))
    ensures forall v: nat :: v in Incompatible(m, nodes, y) <==> v < |m| && v in nodes && m[y][v] != 1
  {
    IncompatibleUpToMembers(m, nodes, y, |m|);
  }

  /** The table sets_I_y, indexed by node: row r holds I_r when r is in Y
      and is empty otherwise. */
  function IncompatibleTable(m: Matrix, nodes: set<nat>, setY: seq<nat>): (table: seq<seq<nat>>)
    requires IsSquare(m)
    ensures |table| == |m|
  {
    seq(|m|, (r: int) requires 0 <= r < |m| => if r in setY then Incompatible(m, nodes, r) else [])
  }

  /** How many positions below k of Y hold v. */
  function Occurrences(setY: seq<nat>, v: int, k: nat): nat
    requires k <= |setY|
  {
    if k == 0 then 0 else Occurrences(setY, v, k - 1) + (if setY[k - 1] == v then 1 else 0)
  }

  /** Entries 0..len-1 of `row` that occur in Y (entries past the end of the
      row are the sentinel and never match). */
  function RowHits(setY: seq<nat>, row: seq<nat>, len: nat): nat
  {
    if len == 0 then 0
    else RowHits(setY, row, len - 1) + (if len - 1 < |row| then Occurrences(setY, row[len - 1], |setY|) else 0)
  }

  /** The score form_set_Y1 gives position p of Y. The walk runs over the
      length of the row of node Y[p], but it reads row p of the table, the
      row of the node whose index equals the position. */
  function Card(setY: seq<nat>, table: seq<seq<nat>>, p: nat): nat
    requires p < |setY| && p < |table| && setY[p] < |table|
  {
    RowHits(setY, table[p], |table[setY[p]]|)
  }

  /** Position p of Y has the least score. */
  predicate IsMinCard(setY: seq<nat>, table: seq<seq<nat>>, p: nat)
    requires |setY| <= |table| && forall k | 0 <= k < |setY| :: setY[k] < |table|
    requires p < |setY|
  {
    forall q | 0 <= q < |setY| :: Card(setY, table, p) <= Card(setY, table, q)
  }

  /** The first loop of form_set_Y1: the score of every position of Y. */
  method ComputeCards(setY: seq<nat>, table: seq<seq<nat>>) returns (cards: seq<nat>)
    requires |setY| <= |table| && forall k | 0 <= k < |setY| :: setY[k] < |table|
    ensures |cards| == |setY|
    ensures forall p | 0 <= p < |setY| :: cards[p] == Card(setY, table, p)
  {
    // positions of Y past its end only hold the sentinel: their score stays 0
    // and they can add nothing but terminators to set_Y1
    cards := seq(|setY|, _ => 0);
    var i := 0;
    while i < |setY|
      invariant 0 <= i <= |setY| && |cards| == |setY|
      invariant forall p | 0 <= p < i :: cards[p] == Card(setY, table, p)
      invariant forall p | i <= p < |setY| :: cards[p] == 0
    {
      var currY := setY[i];
      // the score of position i is accumulated, then stored in cards[i]
      var card := 0;
      var j := 0;
      while j < |table[currY]|
        invariant 0 <= j <= |table[currY]|
        invariant card == RowHits(setY, table[i], j)
      {
        var k := 0;
        while k < |setY|
          invariant 0 <= k <= |setY|
          invariant card == RowHits(setY, table[i], j)
                            + (if j < |table[i]| then Occurrences(setY, table[i][j], k) else 0)
        {
          if j < |table[i]| && table[i][j] == setY[k] {
            card := card + 1;
          }
          k := k + 1;
        }
        j := j + 1;
      }
      cards := cards[i := card];
      i := i + 1;
    }
  }

  /** form_set_Y1: the scores, their minimum, and the members of Y at the
      positions holding that minimum, kept in Y's order. */
  method FormSetY1(setY: seq<nat>, table: seq<seq<nat>>) returns (setY1: seq<nat>)
    requires |setY| > 0 && StrictlyIncreasing(setY)
    requires forall k | 0 <= k < |setY| :: setY[k] < |table|
    ensures |setY| <= |table|
    ensures StrictlyIncreasing(setY1) && |setY1| > 0
    ensures forall k | 0 <= k < |setY1| :: setY1[k] < |table|
    ensures forall v :: v in setY1 <==> exists p | 0 <= p < |setY| :: setY[p] == v && IsMinCard(setY, table, p)
  {
    StrictlyIncreasingBounded(setY, |table|);
    var cards := ComputeCards(setY, table);

    var minVal := cards[0];
    ghost var p0 := 0;
    var i := 0;
    while i < |setY|
      invariant 0 <= i <= |setY|
      invariant 0 <= p0 < |setY| && cards[p0] == minVal
      invariant forall p | 0 <= p < i :: minVal <= cards[p]
    {
      if cards[i] < minVal {
        minVal := cards[i];
        p0 := i;
      }
      i := i + 1;
    }

    setY1 := [];
    i := 0;
    while i < |setY|
      invariant 0 <= i <= |setY|
      invariant StrictlyIncreasing(setY1)
      invariant forall k | 0 <= k < |setY1| :: setY1[k] < |table|
      invariant i < |setY| ==> forall k | 0 <= k < |setY1| :: setY1[k] < setY[i]
      invariant forall v :: v in setY1 <==> exists p | 0 <= p < i :: setY[p] == v && cards[p] == minVal
    {
      if cards[i] == minVal {
        setY1 := setY1 + [setY[i]];
      }
      i := i + 1;
    }
    assert setY[p0] in setY1;
  }

  /** form_set_Y2: the members of Y1 whose I_y is largest, in Y1's order. */
  method FormSetY2(setY1: seq<nat>, sizesOfSetsIy: seq<nat>) returns (setY2: seq<nat>)
    requires |setY1| > 0 && StrictlyIncreasing(setY1)
    requires forall k | 0 <= k < |setY1| :: setY1[k] < |sizesOfSetsIy|
    ensures StrictlyIncreasing(setY2) && |setY2| > 0
    ensures forall v :: v in setY2 <==>
      v in setY1 && v < |sizesOfSetsIy| && forall u | u in setY1 :: sizesOfSetsIy[u] <= sizesOfSetsIy[v]
  {
    var maxVal := Unknown;
    ghost var k0 := 0;
    var i := 0;
    while i < |setY1|
      invariant 0 <= i <= |setY1|
      invariant i == 0 ==> maxVal == Unknown
      invariant i > 0 ==> 0 <= k0 < i && sizesOfSetsIy[setY1[k0]] == maxVal
      invariant forall k | 0 <= k < i :: sizesOfSetsIy[setY1[k]] <= maxVal
    {
      if sizesOfSetsIy[setY1[i]] > maxVal {
        maxVal := sizesOfSetsIy[setY1[i]];
        k0 := i;
      }
      i := i + 1;
    }

    setY2 := [];
    i := 0;
    while i < |setY1|
      invariant 0 <= i <= |setY1|
      invariant StrictlyIncreasing(setY2)
      invariant i < |setY1| ==> forall k | 0 <= k < |setY2| :: setY2[k] < setY1[i]
      invariant forall v :: v in setY2 <==> exists q | 0 <= q < i :: setY1[q] == v && sizesOfSetsIy[v] == maxVal
    {
      if sizesOfSetsIy[setY1[i]] == maxVal {
        setY2 := setY2 + [setY1[i]];
      }
      i := i + 1;
    }
    assert setY1[k0] in setY2;
  }

  /** The merge rule: position p of Y has the least score; its node has the
      largest I_y among the least-score positions; and every earlier
      least-score position has a strictly smaller I_y. */
  predicate IsMergeChoice(m: Matrix, nodes: set<nat>, setY: seq<nat>, p: nat)
    requires IsSquare(m) && InRange(m, setY) && |setY| <= |m| && p < |setY|
  {
    var table := IncompatibleTable(m, nodes, setY);
    && IsMinCard(setY, table, p)
    && (forall q | 0 <= q < |setY| && Card(setY, table, q) == Card(setY, table, p) ::
          |Incompatible(m, nodes, setY[q])| <= |Incompatible(m, nodes, setY[p])|)
    && (forall q | 0 <= q < p && Card(setY, table, q) == Card(setY, table, p) ::
          |Incompatible(m, nodes, setY[q])| < |Incompatible(m, nodes, setY[p])|)
  }

  /** Rows of the members of Y below position i hold their I_y; the other
      rows are empty; counts[r] is the length of row r. */
  ghost predicate TableUpTo(m: Matrix, nodes: set<nat>, setY: seq<nat>, table: seq<seq<nat>>, counts: seq<nat>, i: nat)
    requires IsSquare(m) && i <= |setY|
  {
    && |table| == |m| && |counts| == |m|
    && (forall r | 0 <= r < |m| :: table[r] == (if r in setY[..i] then Incompatible(m, nodes, r) else []))
    && (forall r | 0 <= r < |m| :: counts[r] == |table[r]|)
  }

  /** The first member of Y2 sits at a position of Y that satisfies the merge
      rule. */
  lemma MergeChoiceFromY2(m: Matrix, nodes: set<nat>, setY: seq<nat>, sizes: seq<nat>,
                          setY1: seq<nat>, setY2: seq<nat>)
    requires IsSquare(m) && InRange(m, setY) && StrictlyIncreasing(setY) && |setY| <= |m|
    requires |sizes| == |m|
    requires forall k | 0 <= k < |setY| :: sizes[setY[k]] == |Incompatible(m, nodes, setY[k])|
    requires forall v :: v in setY1 <==>
      exists p | 0 <= p < |setY| :: setY[p] == v && IsMinCard(setY, IncompatibleTable(m, nodes, setY), p)
    requires StrictlyIncreasing(setY2) && |setY2| > 0
    requires forall v :: v in setY2 <==>
      v in setY1 && v < |sizes| && forall u | u in setY1 :: sizes[u] <= sizes[v]
    ensures exists p | 0 <= p < |setY| :: setY[p] == setY2[0] && IsMergeChoice(m, nodes, setY, p)
  {
    var table := IncompatibleTable(m, nodes, setY);
    var newNode := setY2[0];
    assert newNode in setY2;
    var p :| 0 <= p < |setY| && setY[p] == newNode && IsMinCard(setY, table, p);
    forall q | 0 <= q < |setY| && Card(setY, table, q) == Card(setY, table, p)
      ensures |Incompatible(m, nodes, setY[q])| <= |Incompatible(m, nodes, setY[p])|
      ensures q < p ==> |Incompatible(m, nodes, setY[q])| < |Incompatible(m, nodes, setY[p])|
    {
      assert setY[q] in setY1;
      if q < p && |Incompatible(m, nodes, setY[q])| == |Incompatible(m, nodes, setY[p])| {
        // Y[q] would be a member of Y2 below its first member
        assert false;
      }
    }
    assert IsMergeChoice(m, nodes, setY, p);
  }

  /** The first loop of pick_a_node_to_merge: for every member y of Y, the
      set I_y and its size, in tables indexed by node. */
  method FormIncompatibleSets(setY: seq<nat>, m: Matrix, nodes: set<nat>)
    returns (setsIy: seq<seq<nat>>, currIndexes: seq<nat>)
    requires WellFormed(m) && InRange(m, setY) && StrictlyIncreasing(setY)
    ensures setsIy == IncompatibleTable(m, nodes, setY)
    ensures |currIndexes| == |m| && forall r | 0 <= r < |m| :: currIndexes[r] == |setsIy[r]|
    ensures forall k | 0 <= k < |setY| :: currIndexes[setY[k]] == |Incompatible(m, nodes, setY[k])|
  {
    var n := |m|;
    setsIy := seq(n, _ => []);
    currIndexes := seq(n, _ => 0);
    var i := 0;
    while i < |setY|
      invariant 0 <= i <= |setY|
      invariant TableUpTo(m, nodes, setY, setsIy, currIndexes, i)
    {
      var y := setY[i];
      assert y !in setY[..i];
      assert setY[..i + 1] == setY[..i] + [y];
      ghost var before := setsIy;
      var j := 0;
      while j < n
        invariant 0 <= j <= n && |setsIy| == n && |currIndexes| == n
        invariant setsIy[y] == IncompatibleUpTo(m, nodes, y, j)
        invariant forall r | 0 <= r < n && r != y :: setsIy[r] == before[r]
        invariant forall r | 0 <= r < n :: currIndexes[r] == |setsIy[r]|
      {
        if j in nodes {
          // if this node is still in N
          if m[y][j] != 1 {
            setsIy := setsIy[y := setsIy[y] + [j]];
            currIndexes := currIndexes[y := currIndexes[y] + 1];
          }
        }
        j := j + 1;
      }
      i := i + 1;
    }
    assert setY[..|setY|] == setY;
    assert setsIy == IncompatibleTable(m, nodes, setY);
  }

  /** pick_a_node_to_merge: the node of Y merged into the growing clique,
      chosen by the least score, then the largest I_y, then the earliest
      position. */
  method PickANodeToMerge(setY: seq<nat>, m: Matrix, nodes: set<nat>) returns (newNode: nat)
    requires WellFormed(m) && InRange(m, setY) && StrictlyIncreasing(setY) && |setY| > 0
    ensures newNode in setY && |setY| <= |m|
    ensures exists p | 0 <= p < |setY| :: setY[p] == newNode && IsMergeChoice(m, nodes, setY, p)
  {
    var n := |m|;
    StrictlyIncreasingBounded(setY, n);
    var setsIy, currIndexes := FormIncompatibleSets(setY, m, nodes);

    // copy the current indexes into the sizes
    var sizesOfSetsIy: seq<nat> := seq(n, _ => 0);
    var i := 0;
    while i < |setY|
      invariant 0 <= i <= |setY| && |sizesOfSetsIy| == n
      invariant forall k | 0 <= k < i :: sizesOfSetsIy[setY[k]] == |Incompatible(m, nodes, setY[k])|
    {
      sizesOfSetsIy := sizesOfSetsIy[setY[i] := currIndexes[setY[i]]];
      i := i + 1;
    }

    var setY1 := FormSetY1(setY, setsIy);
    var setY2 := FormSetY2(setY1, sizesOfSetsIy);
    newNode := setY2[0];
    MergeChoiceFromY2(m, nodes, setY, sizesOfSetsIy, setY1, setY2);
  }

  // ---------------------------------------------------------------------
  // output_sanity_check

  /** The self-check run on the result: every stored clique is non-empty and
      any two of its members at different positions are compatible both
      ways. */
  method OutputSanityCheck(compat: Matrix, cliqueSet: seq<seq<nat>>) returns (ok: bool)
    requires IsSquare(compat)
    requires forall a | 0 <= a < |cliqueSet| :: InRange(compat, cliqueSet[a])
    ensures ok <==> forall a | 0 <= a < |cliqueSet| :: |cliqueSet[a]| > 0 && IsClique(compat, cliqueSet[a])
  {
    var i := 0;
    while i < |cliqueSet|
      invariant 0 <= i <= |cliqueSet|
      invariant forall a | 0 <= a < i :: |cliqueSet[a]| > 0 && IsClique(compat, cliqueSet[a])
    {
      var c := cliqueSet[i];
      if |c| == 0 {
        return false;
      }
      var j := 0;
      while j < |c|
        invariant 0 <= j <= |c|
        invariant forall a, b | 0 <= a < j && 0 <= b < |c| && a != b :: compat[c[a]][c[b]] == 1
      {
        var k := 0;
        while k < |c|
          invariant 0 <= k <= |c|
          invariant forall a, b | 0 <= a < j && 0 <= b < |c| && a != b :: compat[c[a]][c[b]] == 1
          invariant forall b | 0 <= b < k && b != j :: compat[c[j]][c[b]] == 1
        {
          if j != k {
            var member1 := c[j];
            var member2 := c[k];
            if compat[member1][member2] != 1 || compat[member2][member1] != 1 {
              return false;
            }
          }
          k := k + 1;
        }
        j := j + 1;
      }
      i := i + 1;
    }
    return true;
  }

  // ---------------------------------------------------------------------
  // clique_partition

  /** The state of the partitioning loop: the stored cliques and the growing
      clique hold distinct nodes, exactly those no longer in N; sizeN counts
      the nodes not yet stored; every clique is pairwise compatible; and on
      a matrix whose distinct nodes are all compatible nothing is stored
      before the last node is. */
  ghost predicate PartitionState(m: Matrix, cliqueSet: seq<seq<nat>>, clique: seq<nat>, nodes: set<nat>, sizeN: int)
    requires WellFormed(m)
  {
    && (forall v | v in nodes :: v < |m|)
    && InRange(m, Flatten(cliqueSet) + clique)
    && NoDup(Flatten(cliqueSet) + clique)
    && (forall v: nat | v < |m| :: v in nodes <==> v !in Flatten(cliqueSet) + clique)
    && sizeN == |nodes| + |clique|
    && |Flatten(cliqueSet)| + sizeN == |m|
    && (forall a | 0 <= a < |cliqueSet| :: |cliqueSet[a]| > 0 && IsClique(m, cliqueSet[a]))
    && IsClique(m, clique)
    && (AllCompatible(m) ==> |cliqueSet| == 0 || (|cliqueSet| == 1 && sizeN == 0))
  }

  /** A remaining node compatible with every member (or the seed of an empty
      clique) moves from N into the growing clique. */
  lemma JoinStep(m: Matrix, cliqueSet: seq<seq<nat>>, clique: seq<nat>, nodes: set<nat>, sizeN: int, x: nat)
    requires WellFormed(m) && PartitionState(m, cliqueSet, clique, nodes, sizeN)
    requires x in nodes
    requires clique == [] || CompatibleWithAll(m, clique, x)
    ensures PartitionState(m, cliqueSet, clique + [x], nodes - {x}, sizeN)
  {
    var done := Flatten(cliqueSet);
    assert done + (clique + [x]) == (done + clique) + [x];
    NoDupSnoc(done + clique, x);
    CliqueSnoc(m, clique, x);
  }

  /** A node compatible with every member extends a clique. */
  lemma CliqueSnoc(m: Matrix, clique: seq<nat>, x: nat)
    requires WellFormed(m) && IsClique(m, clique) && x < |m| && x !in clique
    requires clique == [] || CompatibleWithAll(m, clique, x)
    ensures IsClique(m, clique + [x])
  {
    var c := clique + [x];
    forall a, b | 0 <= a < |c| && 0 <= b < |c| && a != b ensures m[c[a]][c[b]] == 1 {
      if a == |clique| {
        assert m[c[b]][x] == 1;
      } else if b == |clique| {
        assert m[c[a]][x] == 1;
      } else {
        assert c[a] == clique[a] && c[b] == clique[b];
      }
    }
  }

  /** With Y empty the growing clique is stored and N loses nothing; on a
      matrix whose distinct nodes are all compatible N is then empty. */
  lemma StoreStep(m: Matrix, cliqueSet: seq<seq<nat>>, clique: seq<nat>, nodes: set<nat>, sizeN: int)
    requires WellFormed(m) && PartitionState(m, cliqueSet, clique, nodes, sizeN)
    requires clique != [] && sizeN > 0
    requires forall v: nat | v < |m| && v in nodes :: !CompatibleWithAll(m, clique, v)
    ensures PartitionState(m, cliqueSet + [clique], [], nodes, sizeN - |clique|)
  {
    FlattenAppend(cliqueSet, clique);
    assert Flatten(cliqueSet + [clique]) + [] == Flatten(cliqueSet) + clique;
    if AllCompatible(m) {
      // a remaining node would be compatible with the whole clique
      forall v | v in nodes ensures false {
        assert false;
      }
    }
  }

  /** At the start every node is in N and nothing is stored. */
  lemma InitialState(m: Matrix, nodes: set<nat>)
    requires WellFormed(m)
    requires |nodes| == |m| && forall v: nat :: v in nodes <==> v < |m|
    ensures PartitionState(m, [], [], nodes, |m|)
  {
    assert Flatten<nat>([]) + [] == [];
  }

  /** When every node is stored, the stored cliques are what the method
      promises. */
  lemma FinalState(m: Matrix, cliqueSet: seq<seq<nat>>, clique: seq<nat>, nodes: set<nat>)
    requires WellFormed(m) && PartitionState(m, cliqueSet, clique, nodes, 0)
    ensures clique == []
    ensures IsPartition(|m|, cliqueSet)
    ensures forall a | 0 <= a < |cliqueSet| :: InRange(m, cliqueSet[a])
    ensures forall a | 0 <= a < |cliqueSet| :: |cliqueSet[a]| > 0 && IsClique(m, cliqueSet[a])
    ensures |m| > 0 && AllCompatible(m) ==> |cliqueSet| == 1
  {
    assert Flatten(cliqueSet) + clique == Flatten(cliqueSet);
  }

  // ---------------------------------------------------------------------
  // The rules that build each clique

  /** N once the cliques `done` are stored and `clique` is growing. */
  function Unstored(n: nat, done: seq<seq<nat>>, clique: seq<nat>): (r: set<nat>)
    ensures forall v | v in r :: v < n
  {
    set v: nat | v < n && v !in Flatten(done) && v !in clique
  }

  /** Member i (i >= 1) of clique c, grown after the cliques `done`, is the
      node the merge rule picks from Y when c held its first i members. */
  ghost predicate MergedByRule(m: Matrix, done: seq<seq<nat>>, c: seq<nat>, i: nat)
    requires IsSquare(m) && InRange(m, c) && 0 < i < |c|
  {
    var nodes := Unstored(|m|, done, c[..i]);
    var setY := CommonNeighbours(m, c[..i], nodes);
    exists p | 0 <= p < |setY| :: setY[p] == c[i] && IsMergeChoice(m, nodes, setY, p)
  }

  /** A growing clique obeys the rules: its first member is the seed of the
      nodes left after `done`, and each later one was merged by the rule. */
  ghost predicate GrownByRules(m: Matrix, done: seq<seq<nat>>, c: seq<nat>)
    requires IsSquare(m)
    decreases |c|
  {
    && InRange(m, c)
    && if |c| == 0 then true
       else if |c| == 1 then IsSeed(m, Unstored(|m|, done, []), c[0])
       else GrownByRules(m, done, c[..|c| - 1]) && MergedByRule(m, done, c, |c| - 1)
  }

  /** A stored clique was grown by the rules and closed exactly when its Y
      became empty. */
  ghost predicate ClosedByRules(m: Matrix, done: seq<seq<nat>>, c: seq<nat>)
    requires IsSquare(m)
  {
    && |c| > 0
    && GrownByRules(m, done, c)
    && CommonNeighbours(m, c, Unstored(|m|, done, c)) == []
  }

  /** Every stored clique was built by the rules from the nodes the earlier
      cliques left. */
  ghost predicate BuiltByRules(m: Matrix, cliques: seq<seq<nat>>)
    requires IsSquare(m)
    decreases |cliques|
  {
    if |cliques| == 0 then true
    else
      var k := |cliques| - 1;
      BuiltByRules(m, cliques[..k]) && ClosedByRules(m, cliques[..k], cliques[k])
  }

  /** A rule-grown clique, member by member: member 0 is the seed, and
      every later member was a merge choice of Y. */
  lemma {:induction false} GrownByRulesAt(m: Matrix, done: seq<seq<nat>>, c: seq<nat>, i: nat)
    requires IsSquare(m) && GrownByRules(m, done, c) && i < |c|
    ensures InRange(m, c)
    ensures i == 0 ==> IsSeed(m, Unstored(|m|, done, []), c[0])
    ensures i > 0 ==> MergedByRule(m, done, c, i)
  {
    var init := c[..|c| - 1];
    if i < |init| {
      GrownByRulesAt(m, done, init, i);
      assert init[..i] == c[..i] && init[i] == c[i];
      if i > 0 {
        assert MergedByRule(m, done, init, i);
      }
    }
  }

  /** Stored clique a was closed by the rules over the nodes the cliques
      before it left. */
  lemma {:induction false} BuiltByRulesAt(m: Matrix, cliques: seq<seq<nat>>, a: nat)
    requires IsSquare(m) && BuiltByRules(m, cliques) && a < |cliques|
    ensures ClosedByRules(m, cliques[..a], cliques[a])
  {
    var k := |cliques| - 1;
    var init := cliques[..k];
    if a < k {
      BuiltByRulesAt(m, init, a);
      assert init[..a] == cliques[..a] && init[a] == cliques[a];
    }
  }

  /** In the loop state, N is exactly the nodes neither stored nor growing. */
  lemma NodesAreUnstored(m: Matrix, cliqueSet: seq<seq<nat>>, clique: seq<nat>, nodes: set<nat>, sizeN: int)
    requires WellFormed(m) && PartitionState(m, cliqueSet, clique, nodes, sizeN)
    ensures nodes == Unstored(|m|, cliqueSet, clique)
  {
    forall v: nat ensures v in nodes <==> v in Unstored(|m|, cliqueSet, clique) {
      if v < |m| {
        assert v in Flatten(cliqueSet) + clique <==> v in Flatten(cliqueSet) || v in clique;
      }
    }
  }

  /** Seeding an empty clique with the seed of N follows the rules. */
  lemma RulesAfterSeed(m: Matrix, cliqueSet: seq<seq<nat>>, nodes: set<nat>, sizeN: int, x: nat)
    requires WellFormed(m) && PartitionState(m, cliqueSet, [], nodes, sizeN)
    requires IsSeed(m, nodes, x)
    ensures GrownByRules(m, cliqueSet, [x])
  {
    NodesAreUnstored(m, cliqueSet, [], nodes, sizeN);
  }

  /** Merging the rule's choice from a non-empty Y follows the rules. */
  lemma RulesAfterMerge(m: Matrix, cliqueSet: seq<seq<nat>>, clique: seq<nat>, nodes: set<nat>, sizeN: int, p: nat)
    requires WellFormed(m) && PartitionState(m, cliqueSet, clique, nodes, sizeN)
    requires GrownByRules(m, cliqueSet, clique) && clique != []
    requires p < |CommonNeighbours(m, clique, nodes)|
    requires IsMergeChoice(m, nodes, CommonNeighbours(m, clique, nodes), p)
    ensures GrownByRules(m, cliqueSet, clique + [CommonNeighbours(m, clique, nodes)[p]])
  {
    var setY := CommonNeighbours(m, clique, nodes);
    var c := clique + [setY[p]];
    NodesAreUnstored(m, cliqueSet, clique, nodes, sizeN);
    assert c[..|c| - 1] == clique && c[|clique|] == setY[p];
  }

  /** Storing a rule-grown clique whose Y is empty follows the rules. */
  lemma RulesAfterStore(m: Matrix, cliqueSet: seq<seq<nat>>, clique: seq<nat>, nodes: set<nat>, sizeN: int)
    requires WellFormed(m) && PartitionState(m, cliqueSet, clique, nodes, sizeN)
    requires BuiltByRules(m, cliqueSet) && GrownByRules(m, cliqueSet, clique) && clique != []
    requires CommonNeighbours(m, clique, nodes) == []
    ensures BuiltByRules(m, cliqueSet + [clique])
  {
    var stored := cliqueSet + [clique];
    NodesAreUnstored(m, cliqueSet, clique, nodes, sizeN);
    assert stored[..|stored| - 1] == cliqueSet && stored[|cliqueSet|] == clique;
  }

  /** The second half of a pass of the main loop: form Y for the current
      clique; if Y is empty store the clique, and otherwise merge the node
      the tie-break picks. The loop state and the rules stay valid, and the
      count of unfinished work goes down. */
  method StoreOrMerge(localCompat: Matrix, cliqueSet: seq<seq<nat>>, sizeN: int, currentClique: seq<nat>, nodeSet: set<nat>)
    returns (cliqueSet': seq<seq<nat>>, currentClique': seq<nat>, nodeSet': set<nat>, sizeN': int)
    requires WellFormed(localCompat) && PartitionState(localCompat, cliqueSet, currentClique, nodeSet, sizeN)
    requires BuiltByRules(localCompat, cliqueSet) && GrownByRules(localCompat, cliqueSet, currentClique)
    requires currentClique != []
    ensures PartitionState(localCompat, cliqueSet', currentClique', nodeSet', sizeN')
    ensures BuiltByRules(localCompat, cliqueSet') && GrownByRules(localCompat, cliqueSet', currentClique')
    ensures sizeN' + |nodeSet'| < sizeN + |nodeSet|
    ensures var setY := CommonNeighbours(localCompat, currentClique, nodeSet);
      if setY == [] then
        cliqueSet' == cliqueSet + [currentClique] && currentClique' == [] && nodeSet' == nodeSet
          && sizeN' == sizeN - |currentClique|
      else
        cliqueSet' == cliqueSet && sizeN' == sizeN
          && exists p | 0 <= p < |setY| :: IsMergeChoice(localCompat, nodeSet, setY, p)
               && currentClique' == currentClique + [setY[p]] && nodeSet' == nodeSet - {setY[p]}
  {
    var setY := FormSetY(currentClique, localCompat, nodeSet);
    if |setY| == 0 {
      // no node left to merge: store the clique
      StoreStep(localCompat, cliqueSet, currentClique, nodeSet, sizeN);
      RulesAfterStore(localCompat, cliqueSet, currentClique, nodeSet, sizeN);
      cliqueSet' := cliqueSet + [currentClique];
      sizeN' := sizeN - |currentClique|;
      currentClique' := [];
      nodeSet' := nodeSet;
    } else {
      var nodeY := PickANodeToMerge(setY, localCompat, nodeSet);
      ghost var p :| 0 <= p < |setY| && setY[p] == nodeY && IsMergeChoice(localCompat, nodeSet, setY, p);
      JoinStep(localCompat, cliqueSet, currentClique, nodeSet, sizeN, nodeY);
      RulesAfterMerge(localCompat, cliqueSet, currentClique, nodeSet, sizeN, p);
      cliqueSet' := cliqueSet;
      currentClique' := currentClique + [nodeY];
      nodeSet' := nodeSet - {nodeY};
      sizeN' := sizeN;
      assert currentClique' == currentClique + [setY[p]] && nodeSet' == nodeSet - {setY[p]};
    }
  }

  /** The main loop of clique_partition: while nodes remain unstored, seed
      an empty clique with a new node, then either merge the chosen member of
      Y into it or, when Y is empty, store it. Starting from all nodes in N,
      it stores a partition into non-empty pairwise-compatible cliques, each
      built by the seed, merge and closing rules. */
  method FormCliques(localCompat: Matrix, allNodes: set<nat>) returns (cliqueSet: seq<seq<nat>>)
    requires WellFormed(localCompat)
    requires |allNodes| == |localCompat| && forall v: nat :: v in allNodes <==> v < |localCompat|
    ensures IsPartition(|localCompat|, cliqueSet)
    ensures forall a | 0 <= a < |cliqueSet| :: InRange(localCompat, cliqueSet[a])
    ensures forall a | 0 <= a < |cliqueSet| :: |cliqueSet[a]| > 0 && IsClique(localCompat, cliqueSet[a])
    ensures BuiltByRules(localCompat, cliqueSet)
    ensures |localCompat| > 0 && AllCompatible(localCompat) ==> |cliqueSet| == 1
  {
    cliqueSet := [];  // init_clique_set
    var currentClique: seq<nat> := [];
    var nodeSet := allNodes;
    var sizeN := |localCompat|;
    InitialState(localCompat, nodeSet);

    while sizeN > 0
      invariant PartitionState(localCompat, cliqueSet, currentClique, nodeSet, sizeN)
      invariant BuiltByRules(localCompat, cliqueSet) && GrownByRules(localCompat, cliqueSet, currentClique)
      decreases sizeN + |nodeSet|
    {
      if currentClique == [] {
        // new clique formation
        var nodeX := SelectNewNode(localCompat, nodeSet);
        RulesAfterSeed(localCompat, cliqueSet, nodeSet, sizeN, nodeX);
        JoinStep(localCompat, cliqueSet, currentClique, nodeSet, sizeN, nodeX);
        currentClique := currentClique + [nodeX];
        nodeSet := nodeSet - {nodeX};
      }
      cliqueSet, currentClique, nodeSet, sizeN :=
        StoreOrMerge(localCompat, cliqueSet, sizeN, currentClique, nodeSet);
    }
    FinalState(localCompat, cliqueSet, currentClique, nodeSet);
  }

  /** Partitions the nodes of a compatibility matrix into cliques. A matrix
      with an entry other than 0/1 or an asymmetric pair is rejected
      (`None`). Otherwise the result covers every node exactly once, every
      clique is non-empty and pairwise compatible and was built by the
      seed, merge and closing rules, and a matrix whose distinct nodes are
      all compatible comes back as one single clique. */
  method CliquePartition(compat: Matrix) returns (result: Option<seq<seq<nat>>>)
    requires IsSquare(compat) && |compat| <= MaxCliques
    ensures result.Some? <==> IsBinary(compat) && IsSymmetric(compat)
    ensures result.Some? ==> IsPartition(|compat|, result.value)
    ensures result.Some? ==>
      forall a | 0 <= a < |result.value| :: |result.value[a]| > 0 && IsClique(compat, result.value[a])
    ensures result.Some? ==> BuiltByRules(compat, result.value)
    ensures result.Some? && |compat| > 0 && AllCompatible(compat) ==> |result.value| == 1
  {
    var sane := InputSanityCheck(compat);
    if !sane {
      return None;
    }
    var n := |compat|;
    var localCompat := compat;  // make_a_local_copy
    // node i is in N while it is in nodeSet
    var nodeSet: set<nat> := {};
    var i := 0;
    while i < n
      invariant 0 <= i <= n && |nodeSet| == i
      invariant forall v: nat :: v in nodeSet <==> v < i
    {
      nodeSet := nodeSet + {i};
      i := i + 1;
    }
    var cliqueSet := FormCliques(localCompat, nodeSet);
    var checked := OutputSanityCheck(localCompat, cliqueSet);
    assert checked;
    return Some(cliqueSet);
  }

  /** Y holds exactly the remaining nodes compatible with the whole clique. */
  lemma {:induction false} CommonNeighboursUpToMembers(m: Matrix, clique: seq<nat>, nodes: set<nat>, k: nat)
    requires IsSquare(m) && InRange(m, clique) && k <= |m|
    ensures forall v: nat :: v in CommonNeighboursUpTo(m, clique, nodes, k) <==>
      v < k && v in nodes && CompatibleWithAll(m, clique, v)
  {
    if k > 0 {
      CommonNeighboursUpToMembers(m, clique, nodes, k - 1);
    }
  }

  /** A stored clique cannot be extended by any node stored after it: each
      clique was closed only once no remaining node fitted it. */
  lemma StoredCliquesMaximal(m: Matrix, cliques: seq<seq<nat>>)
    requires WellFormed(m) && IsPartition(|m|, cliques) && BuiltByRules(m, cliques)
    requires forall a, k | 0 <= a < |cliques| && 0 <= k < |cliques[a]| :: cliques[a][k] < |m|
    ensures forall a, b, t | 0 <= a < b < |cliques| && 0 <= t < |cliques[b]| ::
      !CompatibleWithAll(m, cliques[a], cliques[b][t])
  {
    forall a, b, t | 0 <= a < b < |cliques| && 0 <= t < |cliques[b]|
      ensures !CompatibleWithAll(m, cliques[a], cliques[b][t])
    {
      var v := cliques[b][t];
      BuiltByRulesAt(m, cliques, a);
      var done := cliques[..a];
      InFlatten(done, v);
      if v in Flatten(done) {
        var e :| 0 <= e < |done| && v in done[e];
        assert done[e] == cliques[e];
        FlattenNoDupDisjoint(cliques, e, b, v);
      }
      if v in cliques[a] {
        FlattenNoDupDisjoint(cliques, a, b, v);
      }
      assert v in Unstored(|m|, done, cliques[a]);
      CommonNeighboursUpToMembers(m, cliques[a], Unstored(|m|, done, cliques[a]), |m|);
    }
  }

  /** There is one seed. */
  lemma SeedUnique(m: Matrix, nodes: set<nat>, x: int, y: int)
    requires IsSquare(m) && forall v | v in nodes :: v < |m|
    requires IsSeed(m, nodes, x) && IsSeed(m, nodes, y)
    ensures x == y
  {
    assert x as nat in nodes && y as nat in nodes;
  }

  /** There is one merge choice. */
  lemma MergeChoiceUnique(m: Matrix, nodes: set<nat>, setY: seq<nat>, p: nat, q: nat)
    requires IsSquare(m) && InRange(m, setY) && |setY| <= |m| && p < |setY| && q < |setY|
    requires IsMergeChoice(m, nodes, setY, p) && IsMergeChoice(m, nodes, setY, q)
    ensures p == q
  {
    var table := IncompatibleTable(m, nodes, setY);
    assert Card(setY, table, p) == Card(setY, table, q);
  }

  /** Two cliques grown by the rules after the same stored cliques agree on
      their common length. */
  lemma {:induction false} GrownUnique(m: Matrix, done: seq<seq<nat>>, c1: seq<nat>, c2: seq<nat>, i: nat)
    requires IsSquare(m) && GrownByRules(m, done, c1) && GrownByRules(m, done, c2)
    requires i <= |c1| && i <= |c2|
    ensures c1[..i] == c2[..i]
  {
    if i > 0 {
      GrownUnique(m, done, c1, c2, i - 1);
      var k := i - 1;
      GrownByRulesAt(m, done, c1, k);
      GrownByRulesAt(m, done, c2, k);
      if k == 0 {
        SeedUnique(m, Unstored(|m|, done, []), c1[0], c2[0]);
      } else {
        var nodes := Unstored(|m|, done, c1[..k]);
        var setY := CommonNeighbours(m, c1[..k], nodes);
        var p1 :| 0 <= p1 < |setY| && setY[p1] == c1[k] && IsMergeChoice(m, nodes, setY, p1);
        var p2 :| 0 <= p2 < |setY| && setY[p2] == c2[k] && IsMergeChoice(m, nodes, setY, p2);
        MergeChoiceUnique(m, nodes, setY, p1, p2);
      }
      PrefixSnoc(c1, i);
      PrefixSnoc(c2, i);
    }
  }

  /** A clique closed by the rules is as long as any clique grown by the
      rules after the same stored cliques: a longer one would have merged
      from the Y that closed it. */
  lemma ClosedIsLongest(m: Matrix, done: seq<seq<nat>>, c1: seq<nat>, c2: seq<nat>)
    requires IsSquare(m) && ClosedByRules(m, done, c1) && GrownByRules(m, done, c2)
    ensures |c2| <= |c1|
  {
    if |c2| > |c1| {
      var k := |c1|;
      GrownUnique(m, done, c1, c2, k);
      assert c2[..k] == c1;
      GrownByRulesAt(m, done, c2, k);
      assert false;
    }
  }

  /** After the same stored cliques the rules close one clique only. */
  lemma ClosedUnique(m: Matrix, done: seq<seq<nat>>, c1: seq<nat>, c2: seq<nat>)
    requires IsSquare(m) && ClosedByRules(m, done, c1) && ClosedByRules(m, done, c2)
    ensures c1 == c2
  {
    ClosedIsLongest(m, done, c1, c2);
    ClosedIsLongest(m, done, c2, c1);
    GrownUnique(m, done, c1, c2, |c1|);
    assert c1 == c1[..|c1|] && c2 == c2[..|c2|];
  }

  /** Two clique lists built by the rules agree on their common length. */
  lemma {:induction false} BuiltUnique(m: Matrix, cs1: seq<seq<nat>>, cs2: seq<seq<nat>>, a: nat)
    requires IsSquare(m) && BuiltByRules(m, cs1) && BuiltByRules(m, cs2)
    requires a <= |cs1| && a <= |cs2|
    ensures cs1[..a] == cs2[..a]
  {
    if a > 0 {
      var k := a - 1;
      BuiltUnique(m, cs1, cs2, k);
      BuiltByRulesAt(m, cs1, k);
      BuiltByRulesAt(m, cs2, k);
      ClosedUnique(m, cs1[..k], cs1[k], cs2[k]);
      PrefixSnoc(cs1, a);
      PrefixSnoc(cs2, a);
    }
  }

  /** A further clique built by the rules after the cliques of cs1 is
      seeded with a node that cs1 does not hold. */
  lemma NextSeedUnstored(m: Matrix, cs1: seq<seq<nat>>, cs2: seq<seq<nat>>)
    requires IsSquare(m) && BuiltByRules(m, cs1) && BuiltByRules(m, cs2) && |cs1| < |cs2|
    ensures |cs2[|cs1|]| > 0 && cs2[|cs1|][0] < |m| && cs2[|cs1|][0] !in Flatten(cs1)
  {
    var k := |cs1|;
    BuiltUnique(m, cs1, cs2, k);
    assert cs1[..k] == cs1;
    BuiltByRulesAt(m, cs2, k);
    GrownByRulesAt(m, cs1, cs2[k], 0);
  }

  /** Once the stored cliques cover every node the rules build no further
      clique: its seed would have to be a remaining node. */
  lemma NoCliqueAfterPartition(m: Matrix, cs1: seq<seq<nat>>, cs2: seq<seq<nat>>)
    requires IsSquare(m) && IsPartition(|m|, cs1) && BuiltByRules(m, cs1) && BuiltByRules(m, cs2)
    ensures |cs2| <= |cs1|
  {
    if |cs2| > |cs1| {
      NextSeedUnstored(m, cs1, cs2);
      assert false;
    }
  }

  /** The rules determine the partition: two partitions whose cliques were
      all built by the seed, merge and closing rules are the same list, so
      the result of CliquePartition is fixed by the matrix alone. */
  lemma RulesDetermineCliques(m: Matrix, cs1: seq<seq<nat>>, cs2: seq<seq<nat>>)
    requires IsSquare(m) && IsPartition(|m|, cs1) && IsPartition(|m|, cs2)
    requires BuiltByRules(m, cs1) && BuiltByRules(m, cs2)
    ensures cs1 == cs2
  {
    NoCliqueAfterPartition(m, cs1, cs2);
    NoCliqueAfterPartition(m, cs2, cs1);
    BuiltUnique(m, cs1, cs2, |cs1|);
    assert cs1 == cs1[..|cs1|] && cs2 == cs2[..|cs2|];
  }

  /** In a partition each node belongs to exactly one clique. */
  lemma ExactlyOneClique(n: nat, cliques: seq<seq<nat>>, v: nat)
    requires IsPartition(n, cliques) && v < n
    ensures exists a :: 0 <= a < |cliques| && v in cliques[a]
    ensures forall a, b | 0 <= a < |cliques| && 0 <= b < |cliques| && v in cliques[a] && v in cliques[b] :: a == b
  {
    InFlatten(cliques, v);
    forall a, b | 0 <= a < |cliques| && 0 <= b < |cliques| && v in cliques[a] && v in cliques[b]
      ensures a == b
    {
      FlattenNoDupDisjoint(cliques, a, b, v);
    }
  }
}
