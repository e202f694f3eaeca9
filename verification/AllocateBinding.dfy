/** Functional-unit binding: operations of one type that run at different
    control steps may share a unit. The compatibility matrix of the
    operations is partitioned into cliques, and each clique becomes one
    typed functional unit. */
module AllocateBinding {
  import opened Common
  import opened CliquePartition
  import opened Scheduler

  // ---------------------------------------------------------------------
  // Filling a symmetric matrix with double writes

  /** `g` with entry (i, j) replaced by v. */
  function Put(g: Matrix, i: nat, j: nat, v: int): (r: Matrix)
    requires i < |g| && j < |g[i]|
    ensures |r| == |g| && |r[i]| == |g[i]|
  {
    g[i := g[i][j := v]]
  }

  /** Entry (a, b) has been written once the double loop has visited
      (a, b) or (b, a), that is, before position (i, j). */
  predicate Written(a: nat, b: nat, i: nat, j: nat) {
    a < i || b < i || (a == i && b < j) || (b == i && a < j)
  }

  /** Every entry written so far holds the target's value. */
  ghost predicate Filled(g: Matrix, target: Matrix, i: nat, j: nat) {
    && |g| == |target| && IsSquare(g) && IsSquare(target)
    && forall a, b | 0 <= a < |g| && 0 <= b < |g| && Written(a, b, i, j) :: g[a][b] == target[a][b]
  }

  /** Writing the target's (i, j) value at (i, j) and at (j, i) extends the
      filled region by one position, because the target is symmetric. */
  lemma WriteBoth(g: Matrix, target: Matrix, i: nat, j: nat)
    requires IsSquare(target) && IsSymmetric(target)
    requires Filled(g, target, i, j) && i < |g| && j < |g|
    ensures Filled(Put(Put(g, i, j, target[i][j]), j, i, target[i][j]), target, i, j + 1)
  {
    var v := target[i][j];
    var g1 := Put(g, i, j, v);
    var g2 := Put(g1, j, i, v);
    forall a, b | 0 <= a < |g2| && 0 <= b < |g2| && Written(a, b, i, j + 1)
      ensures g2[a][b] == target[a][b]
    {
      if a == j && b == i {
        assert g2[a][b] == v == target[j][i];
      } else if a == i && b == j {
        assert g2[a][b] == g1[a][b] == v;
      } else {
        assert g2[a][b] == g1[a][b] == g[a][b];
      }
    }
  }

  /** A finished row i leaves rows and columns up to i written. */
  lemma NextRow(g: Matrix, target: Matrix, i: nat)
    requires Filled(g, target, i, |g|)
    ensures Filled(g, target, i + 1, 0)
  {
  }

  /** Once every row is done the matrix is the target. */
  lemma AllFilled(g: Matrix, target: Matrix)
    requires Filled(g, target, |g|, 0)
    ensures g == target
  {
    forall a | 0 <= a < |g| ensures g[a] == target[a] {
      forall b | 0 <= b < |g| ensures g[a][b] == target[a][b] {
        assert Written(a, b, |g|, 0);
      }
    }
  }

  // ---------------------------------------------------------------------
  // Functional-unit compatibility

  /** Operations i and j may share a unit: i is j, or both have the same
      type and run at different steps. */
  predicate FuCompatible(ops: seq<Operation>, i: nat, j: nat)
    requires i < |ops| && j < |ops|
  {
    i == j || (ops[i].kind == ops[j].kind && ops[i].timestep != ops[j].timestep)
  }

  /** The compatibility matrix the binder partitions. */
  function FuCompatGraph(ops: seq<Operation>): (g: Matrix)
    ensures |g| == |ops| && IsSquare(g)
  {
    seq(|ops|, i requires 0 <= i < |ops| =>
      seq(|ops|, j requires 0 <= j < |ops| => if FuCompatible(ops, i, j) then 1 else 0))
  }

  /** The matrix is 0/1, symmetric and has a 1-diagonal, so the clique
      partitioner accepts it. */
  lemma FuCompatGraphWellFormed(ops: seq<Operation>)
    ensures WellFormed(FuCompatGraph(ops))
    ensures forall i | 0 <= i < |ops| :: FuCompatGraph(ops)[i][i] == 1
  {
    var g := FuCompatGraph(ops);
    forall i, j | 0 <= i < |g| && 0 <= j < |g| ensures g[i][j] == g[j][i] {
      assert FuCompatible(ops, i, j) == FuCompatible(ops, j, i);
    }
  }

  /** Fill funcCompGraph row by row, writing each entry and its mirror. */
  method BuildFuncCompGraph(s: Session)
    modifies s`funcCompGraph
    ensures s.funcCompGraph == FuCompatGraph(s.operations)
  {
    var n := |s.operations|;
    ghost var target := FuCompatGraph(s.operations);
    FuCompatGraphWellFormed(s.operations);
    // the source's rows start with undefined contents; every entry is written below
    s.funcCompGraph := seq(n, _ => seq(n, _ => 0));
    var i := 0;
    while i < n
      invariant 0 <= i <= n
      invariant Filled(s.funcCompGraph, target, i, 0)
    {
      var j := 0;
      while j < n
        invariant 0 <= j <= n
        invariant Filled(s.funcCompGraph, target, i, j)
      {
        WriteBoth(s.funcCompGraph, target, i, j);
        if FuCompatible(s.operations, i, j) {
          s.funcCompGraph := Put(s.funcCompGraph, i, j, 1);
          s.funcCompGraph := Put(s.funcCompGraph, j, i, 1);
        } else {
          s.funcCompGraph := Put(s.funcCompGraph, i, j, 0);
          s.funcCompGraph := Put(s.funcCompGraph, j, i, 0);
        }
        j := j + 1;
      }
      NextRow(s.funcCompGraph, target, i);
      i := i + 1;
    }
    AllFilled(s.funcCompGraph, target);
  }

  // ---------------------------------------------------------------------
  // Functional units

  /** r is a sound functional unit: it serves at least one operation, its
      type is its first operation's type, all its operations have that
      type, and no two of them run at the same step. */
  predicate IsUnit(ops: seq<Operation>, r: Resource) {
    && |r.clique| > 0
    && (forall a | 0 <= a < |r.clique| :: r.clique[a] < |ops|)
    && r.kind == ops[r.clique[0]].kind
    && (forall a | 0 <= a < |r.clique| :: ops[r.clique[a]].kind == r.kind)
    && (forall a, b | 0 <= a < |r.clique| && 0 <= b < |r.clique| && a != b ::
          ops[r.clique[a]].timestep != ops[r.clique[b]].timestep)
  }

  /** The operation lists of the units. */
  function Units(rs: seq<Resource>): (r: seq<seq<nat>>)
    ensures |r| == |rs|
  {
    seq(|rs|, k requires 0 <= k < |rs| => rs[k].clique)
  }

  /** A duplicate-free clique of the compatibility matrix, typed by its
      first operation, is a sound unit, and a sound unit without repeated
      operations is a clique: sharing is allowed exactly between
      operations of one type at different steps. */
  lemma CliqueIffUnit(ops: seq<Operation>, c: seq<nat>)
    requires |c| > 0 && NoDup(c) && InRange(FuCompatGraph(ops), c)
    ensures IsClique(FuCompatGraph(ops), c) <==> IsUnit(ops, Resource(ops[c[0]].kind, c))
  {
    var g := FuCompatGraph(ops);
    if IsClique(g, c) {
      forall a | 0 <= a < |c| ensures ops[c[a]].kind == ops[c[0]].kind {
        if a != 0 {
          assert g[c[a]][c[0]] == 1;
        }
      }
      forall a, b | 0 <= a < |c| && 0 <= b < |c| && a != b
        ensures ops[c[a]].timestep != ops[c[b]].timestep
      {
        assert g[c[a]][c[b]] == 1;
      }
    }
    if IsUnit(ops, Resource(ops[c[0]].kind, c)) {
      forall a, b | 0 <= a < |c| && 0 <= b < |c| && a != b ensures g[c[a]][c[b]] == 1 {
        assert FuCompatible(ops, c[a], c[b]);
      }
    }
  }

  /** Record one unit per clique, in clique order, typed by the clique's
      first operation and listing its operations in stored order. */
  method StoreUnits(s: Session, cliques: seq<seq<nat>>)
    requires s.opResources == []
    requires forall a | 0 <= a < |cliques| :: |cliques[a]| > 0 && cliques[a][0] < |s.operations|
    modifies s`opResources
    ensures |s.opResources| == |cliques|
    ensures forall a | 0 <= a < |cliques| ::
      s.opResources[a] == Resource(s.operations[cliques[a][0]].kind, cliques[a])
  {
    var i := 0;
    while i < |cliques|
      invariant 0 <= i <= |cliques| && |s.opResources| == i
      invariant forall a | 0 <= a < i :: s.opResources[a] == Resource(s.operations[cliques[a][0]].kind, cliques[a])
    {
      var opIndex := cliques[i][0];
      s.opResources := s.opResources + [Resource(s.operations[opIndex].kind, [])];
      var j := 0;
      while j < |cliques[i]|
        invariant 0 <= j <= |cliques[i]| && |s.opResources| == i + 1
        invariant forall a | 0 <= a < i :: s.opResources[a] == Resource(s.operations[cliques[a][0]].kind, cliques[a])
        invariant s.opResources[i] == Resource(s.operations[opIndex].kind, cliques[i][..j])
      {
        s.opResources := s.opResources[i := s.opResources[i].(clique := s.opResources[i].clique + [cliques[i][j]])];
        assert cliques[i][..j + 1] == cliques[i][..j] + [cliques[i][j]];
        j := j + 1;
      }
      assert cliques[i][..j] == cliques[i];
      i := i + 1;
    }
  }

  /** allocateFunctionalUnits: build the compatibility matrix, partition
      it, and record one unit per clique. Every operation ends up on
      exactly one unit, and every unit is sound. */
  method AllocateFunctionalUnits(s: Session)
    requires |s.operations| <= MaxCliques && s.opResources == []
    modifies s`funcCompGraph, s`opResources
    ensures s.funcCompGraph == FuCompatGraph(s.operations)
    ensures IsPartition(|s.operations|, Units(s.opResources))
    ensures forall a | 0 <= a < |s.opResources| :: IsUnit(s.operations, s.opResources[a])
    ensures BuiltByRules(s.funcCompGraph, Units(s.opResources))
  {
    BuildFuncCompGraph(s);
    FuCompatGraphWellFormed(s.operations);
    var result := CliquePartition.CliquePartition(s.funcCompGraph);
    var cliques := result.value;
    StoreUnits(s, cliques);
    assert Units(s.opResources) == cliques;
    forall a | 0 <= a < |s.opResources| ensures IsUnit(s.operations, s.opResources[a]) {
      GroupNoDup(cliques, a);
      CliqueIffUnit(s.operations, cliques[a]);
    }
  }

  /** Every operation runs on exactly one unit. */
  lemma OneUnitPerOperation(ops: seq<Operation>, rs: seq<Resource>, k: nat)
    requires IsPartition(|ops|, Units(rs)) && k < |ops|
    ensures exists a :: 0 <= a < |rs| && k in rs[a].clique
    ensures forall a, b | 0 <= a < |rs| && 0 <= b < |rs| && k in rs[a].clique && k in rs[b].clique :: a == b
  {
    ExactlyOneClique(|ops|, Units(rs), k);
    var a :| 0 <= a < |Units(rs)| && k in Units(rs)[a];
    assert k in rs[a].clique;
    forall a, b | 0 <= a < |rs| && 0 <= b < |rs| && k in rs[a].clique && k in rs[b].clique
      ensures a == b
    {
      assert k in Units(rs)[a] && k in Units(rs)[b];
    }
  }

  /** Two different operations that share a unit have the same type and
      run at different steps. */
  lemma SharedMeansCompatible(ops: seq<Operation>, r: Resource, x: nat, y: nat)
    requires IsUnit(ops, r)
    requires x in r.clique && y in r.clique && x != y
    ensures x < |ops| && y < |ops|
    ensures ops[x].kind == ops[y].kind && ops[x].timestep != ops[y].timestep
  {
    var a :| 0 <= a < |r.clique| && r.clique[a] == x;
    var b :| 0 <= b < |r.clique| && r.clique[b] == y;
    assert ops[r.clique[a]].timestep != ops[r.clique[b]].timestep;
  }
}
