/**
 Assembling the runlist of a stream whose `$DATA` is split over several records
 (`read_data_by_record`, `runs_by_record` and `bootstrap_mft_runs` in core/src/fs.rs).
 */
module Fragments {
  import opened Wrappers
  import opened Bytes
  import opened Sequences
  import opened SeqSort
  import opened Clusters

  datatype Fragment = Fragment(startVcn: u64, runs: seq<Run>) {
    function Clusters(): nat {
      TotalClusters(runs)
    }

    predicate Owns(vcn: nat) {
      startVcn <= vcn < startVcn + Clusters()
    }
  }

  function StartVcn(): Fragment -> int {
    (f: Fragment) => f.startVcn
  }

  function Concatenated(fragments: seq<Fragment>): seq<Run> {
    if fragments == [] then [] else fragments[0].runs + Concatenated(fragments[1..])
  }

  /** The runlist in VCN order. */
  function Assembled(fragments: seq<Fragment>): seq<Run> {
    Concatenated(Sort(StartVcn(), fragments))
  }

  method AssembleRuns(fragments: seq<Fragment>) returns (runs: seq<Run>)
    ensures runs == Assembled(fragments)
  {
    var sorted := Sort(StartVcn(), fragments);
    runs := [];
    for i := 0 to |sorted|
      invariant runs + Concatenated(sorted[i..]) == Concatenated(sorted)
    {
      assert sorted[i..][0] == sorted[i] && sorted[i..][1..] == sorted[i + 1..];
      Reassociate(runs, sorted[i].runs, Concatenated(sorted[i + 1..]));
      runs := runs + sorted[i].runs;
    }
    assert runs + [] == runs;
  }

  // ----- Tilings -----

  ghost predicate Owned(fragments: seq<Fragment>, v: nat) {
    exists i :: 0 <= i < |fragments| && fragments[i].Owns(v)
  }

  /** The fragments cover the clusters `0..n` without gaps or overlaps; none is empty. */
  ghost predicate Tiles(fragments: seq<Fragment>, n: nat) {
    && (forall i :: 0 <= i < |fragments| ==>
          fragments[i].Clusters() > 0 && fragments[i].startVcn + fragments[i].Clusters() <= n)
    && (forall i, j, v: nat :: 0 <= i < j < |fragments| ==> !(fragments[i].Owns(v) && fragments[j].Owns(v)))
    && (forall v: nat :: v < n ==> Owned(fragments, v))
  }

  /** Each fragment starts where the one before it ends. */
  ghost predicate Consecutive(fragments: seq<Fragment>, start: nat, n: nat) {
    if fragments == [] then start == n
    else fragments[0].startVcn == start && Consecutive(fragments[1..], start + fragments[0].Clusters(), n)
  }

  /** Two places of a sequence have two places in any rearrangement of it. */
  lemma PairInPermutation(a: seq<Fragment>, b: seq<Fragment>, i: nat, j: nat)
    returns (k: nat, m: nat)
    requires multiset(a) == multiset(b) && i < j < |b|
    ensures k < |a| && m < |a| && k != m && a[k] == b[i] && a[m] == b[j]
  {
    SameMembers(a, b, b[i]);
    SameMembers(a, b, b[j]);
    if b[i] == b[j] {
      CountTwo(b, b[i]);
      CountTwo(a, b[i]);
      assert Count(a, b[i]) == Count(b, b[i]);
      k, m :| k < m < |a| && a[k] == b[i] && a[m] == b[i];
    } else {
      k :| k < |a| && a[k] == b[i];
      m :| m < |a| && a[m] == b[j];
    }
  }

  lemma TilesOfPermutation(a: seq<Fragment>, b: seq<Fragment>, n: nat)
    requires Tiles(a, n) && multiset(a) == multiset(b)
    ensures Tiles(b, n)
  {
    forall i | 0 <= i < |b|
      ensures b[i].Clusters() > 0 && b[i].startVcn + b[i].Clusters() <= n
    {
      SameMembers(a, b, b[i]);
    }
    forall i, j, v: nat | 0 <= i < j < |b|
      ensures !(b[i].Owns(v) && b[j].Owns(v))
    {
      var k, m := PairInPermutation(a, b, i, j);
    }
    forall v: nat | v < n
      ensures Owned(b, v)
    {
      assert Owned(a, v);
      var i :| 0 <= i < |a| && a[i].Owns(v);
      SameMembers(a, b, a[i]);
      var j :| 0 <= j < |b| && b[j] == a[i];
      assert b[j].Owns(v);
    }
  }

  function EndOf(f: Fragment): nat {
    f.startVcn + f.Clusters()
  }

  /** In a sorted tiling, neighbours touch. */
  lemma NeighboursTouch(s: seq<Fragment>, n: nat, k: nat)
    requires Tiles(s, n) && Sorted(StartVcn(), s) && k + 1 < |s|
    ensures s[k + 1].startVcn == EndOf(s[k])
  {
    var f, g := s[k], s[k + 1];
    assert StartVcn()(f) <= StartVcn()(g);
    assert forall m :: k < m < |s| ==> StartVcn()(g) <= StartVcn()(s[m]);
    if g.startVcn < EndOf(f) {
      assert f.Owns(g.startVcn) && g.Owns(g.startVcn);
      assert false;
    }
    if g.startVcn > EndOf(f) {
      var v := EndOf(f);
      assert Owned(s, v);
      var j :| 0 <= j < |s| && s[j].Owns(v);
      assert j < k;
      assert StartVcn()(s[j]) <= StartVcn()(f);
      assert s[j].Owns(f.startVcn) && f.Owns(f.startVcn);
      assert false;
    }
  }

  lemma EndsOfTiling(s: seq<Fragment>, n: nat)
    requires Tiles(s, n) && Sorted(StartVcn(), s) && s != []
    ensures s[0].startVcn == 0 && EndOf(s[|s| - 1]) == n
  {
    var first, last := s[0], s[|s| - 1];
    assert Owned(s, 0);
    var j :| 0 <= j < |s| && s[j].Owns(0);
    assert StartVcn()(first) <= StartVcn()(s[j]);
    if EndOf(last) < n {
      assert Owned(s, n - 1);
      var m :| 0 <= m < |s| && s[m].Owns(n - 1);
      assert m != |s| - 1;
      assert StartVcn()(s[m]) <= StartVcn()(last);
      assert s[m].Owns(last.startVcn) && last.Owns(last.startVcn);
      assert false;
    }
  }

  lemma {:induction false} TouchingIsConsecutive(s: seq<Fragment>, k: nat, n: nat)
    requires k < |s| && EndOf(s[|s| - 1]) == n
    requires forall i :: 0 <= i < |s| - 1 ==> s[i + 1].startVcn == EndOf(s[i])
    ensures Consecutive(s[k..], s[k].startVcn, n)
    decreases |s| - k
  {
    if k + 1 < |s| {
      TouchingIsConsecutive(s, k + 1, n);
      assert s[k..][1..] == s[k + 1..];
      assert s[k + 1].startVcn == EndOf(s[k]);
    } else {
      assert s[k..][1..] == [];
    }
  }

  lemma {:induction false} SortedTilingIsConsecutive(s: seq<Fragment>, n: nat)
    requires Tiles(s, n) && Sorted(StartVcn(), s)
    ensures Consecutive(s, 0, n)
  {
    if s == [] {
      assert !Owned(s, 0);
    } else {
      EndsOfTiling(s, n);
      forall k | 0 <= k < |s| - 1
        ensures s[k + 1].startVcn == EndOf(s[k])
      {
        NeighboursTouch(s, n, k);
      }
      TouchingIsConsecutive(s, 0, n);
      assert s[0..] == s;
    }
  }

  // ----- The cluster map -----

  /** The cluster at a VCN: `None` past the end, a hole, or an LCN. */
  function ClusterAt(runs: seq<Run>, v: nat): Option<Option<nat>> {
    if runs == [] then None
    else if v < runs[0].length then
      Some(match runs[0].lcn case None => None case Some(l) => Some(l + v))
    else ClusterAt(runs[1..], v - runs[0].length)
  }

  lemma ClusterAtConcat(a: seq<Run>, b: seq<Run>, v: nat)
    ensures TotalClusters(a + b) == TotalClusters(a) + TotalClusters(b)
    ensures ClusterAt(a + b, v) ==
            if v < TotalClusters(a) then ClusterAt(a, v) else ClusterAt(b, v - TotalClusters(a))
  {
    if a == [] {
      assert a + b == b;
    } else {
      assert (a + b)[0] == a[0] && (a + b)[1..] == a[1..] + b;
      ClusterAtConcat(a[1..], b, if v < a[0].length then 0 else v - a[0].length);
    }
  }

  lemma {:induction false} ConsecutiveMap(s: seq<Fragment>, start: nat, n: nat, k: nat, v: nat)
    requires Consecutive(s, start, n) && k < |s| && s[k].Owns(v)
    ensures start <= v && ClusterAt(Concatenated(s), v - start) == ClusterAt(s[k].runs, v - s[k].startVcn)
    decreases |s|
  {
    var rest := Concatenated(s[1..]);
    if k == 0 {
      ClusterAtConcat(s[0].runs, rest, v - start);
    } else {
      ConsecutiveMap(s[1..], start + s[0].Clusters(), n, k - 1, v);
      ClusterAtConcat(s[0].runs, rest, v - start);
    }
  }

  lemma {:induction false} ConsecutiveLength(s: seq<Fragment>, start: nat, n: nat)
    requires Consecutive(s, start, n)
    ensures start + TotalClusters(Concatenated(s)) == n
    decreases |s|
  {
    if s != [] {
      ConsecutiveLength(s[1..], start + s[0].Clusters(), n);
      ClusterAtConcat(s[0].runs, Concatenated(s[1..]), 0);
    }
  }

  lemma {:induction false} SortedFragments(fragments: seq<Fragment>, n: nat)
    requires Tiles(fragments, n)
    ensures Consecutive(Sort(StartVcn(), fragments), 0, n)
  {
    var s := Sort(StartVcn(), fragments);
    SortSorts(StartVcn(), fragments);
    TilesOfPermutation(fragments, s, n);
    SortedTilingIsConsecutive(s, n);
  }

  /** The assembled list maps every VCN to the cluster, or hole, its owning fragment gives it. */
  lemma {:induction false} AssemblyKeepsClusterMap(fragments: seq<Fragment>, n: nat, i: nat, v: nat)
    requires Tiles(fragments, n) && i < |fragments| && fragments[i].Owns(v)
    ensures TotalClusters(Assembled(fragments)) == n
    ensures ClusterAt(Assembled(fragments), v) == ClusterAt(fragments[i].runs, v - fragments[i].startVcn)
  {
    var s := Sort(StartVcn(), fragments);
    SortedFragments(fragments, n);
    SortMembers(StartVcn(), fragments);
    assert fragments[i] in fragments && fragments[i] in s;
    var k: nat :| k < |s| && s[k] == fragments[i];
    ConsecutiveMap(s, 0, n, k, v);
    ConsecutiveLength(s, 0, n);
  }

  function FlatOf(disk: seq<byte>, cs: nat): Fragment -> seq<byte> {
    (f: Fragment) => Flat(disk, cs, f.runs)
  }

  function Joined(parts: seq<seq<byte>>): seq<byte> {
    if parts == [] then [] else parts[0] + Joined(parts[1..])
  }

  lemma {:induction false} ConcatenatedFlat(disk: seq<byte>, cs: nat, s: seq<Fragment>)
    ensures Flat(disk, cs, Concatenated(s)) == Joined(Map(FlatOf(disk, cs), s))
  {
    if s != [] {
      ConcatenatedFlat(disk, cs, s[1..]);
      FlatConcat(disk, cs, s[0].runs, Concatenated(s[1..]));
      assert Map(FlatOf(disk, cs), s)[1..] == Map(FlatOf(disk, cs), s[1..]);
    }
  }

  /** The assembled bytes are the fragments' bytes, joined in VCN order. */
  lemma {:induction false} AssemblyKeepsBytes(disk: seq<byte>, cs: nat, fragments: seq<Fragment>)
    ensures Flat(disk, cs, Assembled(fragments)) == Joined(Map(FlatOf(disk, cs), Sort(StartVcn(), fragments)))
  {
    ConcatenatedFlat(disk, cs, Sort(StartVcn(), fragments));
  }

  /** The order in which the fragments were found does not matter. */
  lemma AssemblyIgnoresOrder(a: seq<Fragment>, b: seq<Fragment>, n: nat)
    requires Tiles(a, n) && multiset(a) == multiset(b)
    ensures Assembled(a) == Assembled(b)
  {
    forall f, g | f in a && g in a && StartVcn()(f) == StartVcn()(g)
      ensures f == g
    {
      var i :| 0 <= i < |a| && a[i] == f;
      var j :| 0 <= j < |a| && a[j] == g;
      assert f.Owns(f.startVcn) && g.Owns(f.startVcn);
      assert i == j;
    }
    SortUnique(StartVcn(), a, b);
  }
}
