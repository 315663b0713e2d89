/** Path reconstruction on ReFS journals (core/src/refs.rs). */
module Refs {
  import opened Wrappers
  import opened Paths

  datatype RefsRecord = RefsRecord(fileId: nat, parentId: nat, filename: string)

  datatype Node = Node(name: string, parent: nat)

  type Lookup = map<nat, Node>

  /** The most recent name and parent of each id. */
  function Latest(records: seq<RefsRecord>): Lookup {
    if records == [] then map[]
    else
      var r := records[|records| - 1];
      Latest(records[..|records| - 1])[r.fileId := Node(r.filename, r.parentId)]
  }

  ghost predicate IsLatest(records: seq<RefsRecord>, i: nat) {
    i < |records| && forall j :: i < j < |records| ==> records[j].fileId != records[i].fileId
  }

  ghost predicate HasRecord(records: seq<RefsRecord>, id: nat) {
    exists i :: 0 <= i < |records| && records[i].fileId == id
  }

  ghost predicate HoldsRecord(lookup: Lookup, r: RefsRecord) {
    r.fileId in lookup && lookup[r.fileId] == Node(r.filename, r.parentId)
  }

  /** Exactly the ids with a record are known. */
  lemma {:induction false} LatestKeys(records: seq<RefsRecord>, id: nat)
    ensures id in Latest(records) <==> HasRecord(records, id)
  {
    if records != [] {
      var init := records[..|records| - 1];
      LatestKeys(init, id);
      if i :| 0 <= i < |init| && init[i].fileId == id {
        assert records[i] == init[i];
      }
      if i :| 0 <= i < |records| && records[i].fileId == id {
        assert i < |init| ==> records[i] == init[i];
      }
    }
  }

  /** An id is known under its last record. */
  lemma {:induction false} LatestWins(records: seq<RefsRecord>, i: nat)
    requires IsLatest(records, i)
    ensures HoldsRecord(Latest(records), records[i])
  {
    var init := records[..|records| - 1];
    if i < |init| {
      assert init[i] == records[i];
      LatestWins(init, i);
    }
  }

  /** The ids the walk visits, from `current` upwards. */
  function Walk(lookup: Lookup, current: nat, visited: set<nat>): seq<nat>
    decreases |lookup.Keys - visited|
  {
    if current in visited || current !in lookup then []
    else
      assert lookup.Keys - (visited + {current}) < lookup.Keys - visited by {
        assert current in lookup.Keys - visited;
      }
      ProperSubset(lookup.Keys - (visited + {current}), lookup.Keys - visited);
      var parent := lookup[current].parent;
      [current] + (if parent !in lookup then [] else Walk(lookup, parent, visited + {current}))
  }

  lemma ProperSubset(a: set<nat>, b: set<nat>)
    requires a < b
    ensures |a| < |b|
  {
    var x :| x in b && x !in a;
    assert a + {x} <= b;
    SubsetSize(a + {x}, b);
  }

  lemma SubsetSize(a: set<nat>, b: set<nat>)
    requires a <= b
    ensures |a| <= |b|
  {
    if a != {} {
      var x :| x in a;
      SubsetSize(a - {x}, b - {x});
    }
  }

  function Names(lookup: Lookup, ids: seq<nat>): (names: seq<string>)
    requires forall id :: id in ids ==> id in lookup
    ensures |names| == |ids|
  {
    seq(|ids|, i requires 0 <= i < |ids| => lookup[ids[i]].name)
  }

  lemma {:induction false} WalkKnown(lookup: Lookup, current: nat, visited: set<nat>)
    ensures forall id :: id in Walk(lookup, current, visited) ==> id in lookup && id !in visited
    decreases |lookup.Keys - visited|
  {
    if current !in visited && current in lookup {
      ProperSubset(lookup.Keys - (visited + {current}), lookup.Keys - visited);
      WalkKnown(lookup, lookup[current].parent, visited + {current});
    }
  }

  /** The path a list of ids spells, leaf first. */
  function Spelled(lookup: Lookup, ids: seq<nat>): string
    requires forall x :: x in ids ==> x in lookup
  {
    Join(Reversed(Names(lookup, ids)))
  }

  function PathOf(lookup: Lookup, id: nat): string {
    WalkKnown(lookup, id, {});
    Spelled(lookup, Walk(lookup, id, {}))
  }

  // ----- The loops -----

  method BuildLookup(records: seq<RefsRecord>) returns (lookup: Lookup)
    ensures lookup == Latest(records)
    ensures forall id :: id in lookup <==> HasRecord(records, id)
    ensures forall i: nat :: IsLatest(records, i) ==> HoldsRecord(lookup, records[i])
  {
    forall id
      ensures id in Latest(records) <==> HasRecord(records, id)
    {
      LatestKeys(records, id);
    }
    forall i: nat | IsLatest(records, i)
      ensures HoldsRecord(Latest(records), records[i])
    {
      LatestWins(records, i);
    }
    lookup := map[];
    for i := 0 to |records|
      invariant lookup == Latest(records[..i])
    {
      assert records[..i + 1][..i] == records[..i];
      lookup := lookup[records[i].fileId := Node(records[i].filename, records[i].parentId)];
    }
    assert records[..|records|] == records;
  }

  /** The inner loop: from one id up to a root anchor or into a cycle. */
  method WalkUp(lookup: Lookup, rootIds: set<nat>, fileId: nat) returns (ids: seq<nat>)
    requires forall r :: r in rootIds ==> r !in lookup
    requires fileId in lookup
    ensures ids == Walk(lookup, fileId, {})
  {
    ids := [];
    var current := fileId;
    var visited: set<nat> := {};
    while true
      invariant current in lookup
      invariant ids + Walk(lookup, current, visited) == Walk(lookup, fileId, {})
      decreases lookup.Keys - visited
    {
      if current in visited {
        break;
      }
      ghost var before := visited;
      ghost var rest := Walk(lookup, current, before);
      visited := visited + {current};
      var parent := lookup[current].parent;
      WalkStep(lookup, current, before, ids);
      ids := ids + [current];
      if parent in rootIds || parent !in lookup {
        break;
      }
      current := parent;
    }
    assert ids + [] == ids;
  }

  lemma {:induction false} WalkStep(lookup: Lookup, current: nat, visited: set<nat>, ids: seq<nat>)
    requires current !in visited && current in lookup
    ensures
      var parent := lookup[current].parent;
      ids + Walk(lookup, current, visited) ==
      ids + [current] + (if parent in lookup then Walk(lookup, parent, visited + {current}) else [])
    ensures lookup.Keys - (visited + {current}) < lookup.Keys - visited
  {
    assert current in lookup.Keys - visited;
  }

  /** Every known id gets the path its walk spells. */
  method ReconstructPaths(records: seq<RefsRecord>) returns (paths: map<nat, string>)
    ensures paths.Keys == Latest(records).Keys
    ensures forall id :: id in paths ==> paths[id] == PathOf(Latest(records), id)
  {
    var lookup := BuildLookup(records);
    var rootIds := set r | r in records && r.parentId !in lookup :: r.parentId;
    paths := map[];
    var left := lookup.Keys;
    while left != {}
      invariant left <= lookup.Keys && paths.Keys == lookup.Keys - left
      invariant forall id :: id in paths ==> paths[id] == PathOf(lookup, id)
      decreases left
    {
      var fileId :| fileId in left;
      left := left - {fileId};
      var ids := WalkUp(lookup, rootIds, fileId);
      WalkKnown(lookup, fileId, {});
      paths := paths[fileId := Join(Reversed(Names(lookup, ids)))];
    }
  }

  // ----- What a walk lists -----

  /** The `n`-th ancestor, as far as ids are known. */
  function Up(lookup: Lookup, id: nat, n: nat): Option<nat>
    decreases n
  {
    if n == 0 then Some(id)
    else if id in lookup then Up(lookup, lookup[id].parent, n - 1)
    else None
  }

  ghost predicate Ancestor(lookup: Lookup, id: nat, x: nat) {
    exists n: nat :: Up(lookup, id, n) == Some(x)
  }

  ghost predicate OnCycle(lookup: Lookup, id: nat) {
    id in lookup && Ancestor(lookup, lookup[id].parent, id)
  }

  lemma {:induction false} UpFrom(lookup: Lookup, id: nat, a: nat, b: nat)
    requires Up(lookup, id, a).Some?
    ensures Up(lookup, id, a + b) == Up(lookup, Up(lookup, id, a).value, b)
    decreases a
  {
    if a > 0 {
      UpFrom(lookup, lookup[id].parent, a - 1, b);
    }
  }

  lemma {:induction false} WalkHasNoRepeats(lookup: Lookup, current: nat, visited: set<nat>)
    ensures forall i, j :: 0 <= i < j < |Walk(lookup, current, visited)| ==>
              Walk(lookup, current, visited)[i] != Walk(lookup, current, visited)[j]
    decreases |lookup.Keys - visited|
  {
    if current !in visited && current in lookup && lookup[current].parent in lookup {
      var rest := Walk(lookup, lookup[current].parent, visited + {current});
      assert current in lookup.Keys - visited;
      ProperSubset(lookup.Keys - (visited + {current}), lookup.Keys - visited);
      WalkHasNoRepeats(lookup, lookup[current].parent, visited + {current});
      WalkKnown(lookup, lookup[current].parent, visited + {current});
      assert Walk(lookup, current, visited) == [current] + rest;
      assert forall i :: 0 <= i < |rest| ==> rest[i] in rest;
    }
  }

  lemma {:induction false} WalkListsAncestors(lookup: Lookup, current: nat, visited: set<nat>, x: nat)
    requires x in Walk(lookup, current, visited)
    ensures x in lookup && Ancestor(lookup, current, x)
    decreases |lookup.Keys - visited|
  {
    WalkKnown(lookup, current, visited);
    if x == current {
      assert Up(lookup, current, 0) == Some(x);
    } else {
      assert current in lookup.Keys - visited;
      ProperSubset(lookup.Keys - (visited + {current}), lookup.Keys - visited);
      WalkListsAncestors(lookup, lookup[current].parent, visited + {current}, x);
      var n: nat :| Up(lookup, lookup[current].parent, n) == Some(x);
      assert Up(lookup, current, n + 1) == Some(x);
    }
  }

  ghost predicate Avoids(lookup: Lookup, current: nat, n: nat, visited: set<nat>) {
    forall m: nat :: m <= n && Up(lookup, current, m).Some? ==> Up(lookup, current, m).value !in visited
  }

  lemma {:induction false} AncestorsAreListed(lookup: Lookup, current: nat, n: nat, visited: set<nat>, x: nat)
    requires Up(lookup, current, n) == Some(x) && x in lookup && Avoids(lookup, current, n, visited)
    ensures x in Walk(lookup, current, visited)
    decreases n
  {
    assert Up(lookup, current, 0) == Some(current);
    if n > 0 {
      var parent := lookup[current].parent;
      if m: nat :| m < n && Up(lookup, parent, m) == Some(current) {
        assert Up(lookup, current, m + 1) == Some(current);
        UpFrom(lookup, current, m + 1, n - m - 1);
        AncestorsAreListed(lookup, current, n - m - 1, visited, x);
      } else {
        forall m: nat | m <= n - 1 && Up(lookup, parent, m).Some?
          ensures Up(lookup, parent, m).value !in visited + {current}
        {
          assert Up(lookup, current, m + 1) == Up(lookup, parent, m);
        }
        AncestorsAreListed(lookup, parent, n - 1, visited + {current}, x);
        assert parent in lookup by {
          KnownUpTo(lookup, parent, n - 1, x);
        }
      }
    }
  }

  lemma {:induction false} KnownUpTo(lookup: Lookup, id: nat, n: nat, x: nat)
    requires Up(lookup, id, n) == Some(x) && x in lookup
    ensures id in lookup
  {
  }

  /** A walk lists every known ancestor, the id itself included, exactly once. */
  lemma {:induction false} WalkIsAncestorSet(lookup: Lookup, id: nat, x: nat)
    ensures x in Walk(lookup, id, {}) <==> x in lookup && Ancestor(lookup, id, x)
    ensures forall i, j :: 0 <= i < j < |Walk(lookup, id, {})| ==> Walk(lookup, id, {})[i] != Walk(lookup, id, {})[j]
  {
    WalkHasNoRepeats(lookup, id, {});
    if x in Walk(lookup, id, {}) {
      WalkListsAncestors(lookup, id, {}, x);
    }
    if x in lookup && Ancestor(lookup, id, x) {
      var n: nat :| Up(lookup, id, n) == Some(x);
      AncestorsAreListed(lookup, id, n, {}, x);
    }
  }

  /** Forbidding an id that is no ancestor changes nothing. */
  lemma {:induction false} WalkUnaffected(lookup: Lookup, current: nat, visited: set<nat>, x: nat)
    requires !Ancestor(lookup, current, x)
    ensures Walk(lookup, current, visited + {x}) == Walk(lookup, current, visited)
    decreases |lookup.Keys - visited|
  {
    assert Up(lookup, current, 0) == Some(current);
    if current !in visited && current in lookup {
      var parent := lookup[current].parent;
      assert forall n: nat :: Up(lookup, current, n + 1) == Up(lookup, parent, n);
      assert current in lookup.Keys - visited;
      ProperSubset(lookup.Keys - (visited + {current}), lookup.Keys - visited);
      WalkUnaffected(lookup, parent, visited + {current}, x);
      assert visited + {x} + {current} == visited + {current} + {x};
    }
  }

  /**
   Where the parent is known, the walk is the id followed by the parent's walk exactly when the
   id is not on a parent cycle.
   */
  lemma {:induction false} WalkRecursesIff(lookup: Lookup, id: nat)
    requires id in lookup && lookup[id].parent in lookup
    ensures Walk(lookup, id, {}) == [id] + Walk(lookup, lookup[id].parent, {}) <==> !OnCycle(lookup, id)
  {
    var parent := lookup[id].parent;
    assert {} + {id} == {id};
    assert Walk(lookup, id, {}) == [id] + Walk(lookup, parent, {id});
    if OnCycle(lookup, id) {
      WalkIsAncestorSet(lookup, parent, id);
      WalkKnown(lookup, parent, {id});
      assert id in Walk(lookup, parent, {}) && id !in Walk(lookup, parent, {id});
      assert Walk(lookup, id, {})[1..] == Walk(lookup, parent, {id});
      assert ([id] + Walk(lookup, parent, {}))[1..] == Walk(lookup, parent, {});
    } else {
      WalkUnaffected(lookup, parent, {}, id);
    }
  }

  lemma NamesCons(lookup: Lookup, id: nat, ids: seq<nat>)
    requires id in lookup && forall x :: x in ids ==> x in lookup
    ensures forall x :: x in [id] + ids ==> x in lookup
    ensures Names(lookup, [id] + ids) == [lookup[id].name] + Names(lookup, ids)
  {
  }

  /** Off every cycle the path is the parent's path and the name, or the name under an unknown parent. */
  lemma PathRecurses(lookup: Lookup, id: nat)
    requires id in lookup && !OnCycle(lookup, id)
    ensures PathOf(lookup, id) ==
            if lookup[id].parent in lookup then PathOf(lookup, lookup[id].parent) + "\\" + lookup[id].name
            else lookup[id].name
  {
    var parent := lookup[id].parent;
    WalkKnown(lookup, id, {});
    if parent in lookup {
      WalkRecursesIff(lookup, id);
      WalkKnown(lookup, parent, {});
      var above := Walk(lookup, parent, {});
      NamesCons(lookup, id, above);
      JoinReversedCons(lookup[id].name, Names(lookup, above));
      assert above != [];
    } else {
      assert Walk(lookup, id, {}) == [id] + [];
      NamesCons(lookup, id, []);
      JoinReversedCons(lookup[id].name, []);
      assert Names(lookup, []) == [];
    }
  }

  /** Forbidding an id cuts a walk short and changes nothing before that. */
  lemma {:induction false} ForbiddenWalkIsPrefix(lookup: Lookup, current: nat, visited: set<nat>, x: nat)
    ensures Walk(lookup, current, visited + {x}) <= Walk(lookup, current, visited)
    decreases |lookup.Keys - visited|
  {
    if current !in visited + {x} && current in lookup {
      assert current in lookup.Keys - visited;
      ProperSubset(lookup.Keys - (visited + {current}), lookup.Keys - visited);
      ForbiddenWalkIsPrefix(lookup, lookup[current].parent, visited + {current}, x);
      assert visited + {x} + {current} == visited + {current} + {x};
    }
  }

  lemma SpelledCons(lookup: Lookup, id: nat, ids: seq<nat>)
    requires id in lookup && forall x :: x in ids ==> x in lookup
    ensures forall x :: x in [id] + ids ==> x in lookup
    ensures Spelled(lookup, [id] + ids) ==
            if ids == [] then lookup[id].name else Spelled(lookup, ids) + "\\" + lookup[id].name
  {
    NamesCons(lookup, id, ids);
    JoinReversedCons(lookup[id].name, Names(lookup, ids));
  }

  /** A walk that goes further spells a longer path. */
  lemma FurtherIsLonger(lookup: Lookup, id: nat, p: seq<nat>, q: seq<nat>)
    requires id in lookup && p < q && forall x :: x in q ==> x in lookup
    ensures forall x :: x in [id] + p || x in [id] + q ==> x in lookup
    ensures |Spelled(lookup, [id] + p)| < |Spelled(lookup, [id] + q)|
    decreases |p|
  {
    assert forall x :: x in p ==> x in q;
    SpelledCons(lookup, id, p);
    SpelledCons(lookup, id, q);
    if p != [] {
      assert q[0] == p[0] && q[0] in q;
      FurtherIsLonger(lookup, q[0], p[1..], q[1..]);
      assert p == [q[0]] + p[1..] && q == [q[0]] + q[1..];
    }
  }

  /**
   Under a known parent the path is path(parent)\name if and only if the id is on no parent
   cycle; on a cycle it is always shorter.
   */
  lemma PathRecursesIff(lookup: Lookup, id: nat)
    requires id in lookup && lookup[id].parent in lookup
    ensures PathOf(lookup, id) == PathOf(lookup, lookup[id].parent) + "\\" + lookup[id].name <==> !OnCycle(lookup, id)
  {
    if OnCycle(lookup, id) {
      var parent := lookup[id].parent;
      var cut, whole := Walk(lookup, parent, {id}), Walk(lookup, parent, {});
      WalkKnown(lookup, parent, {});
      WalkKnown(lookup, parent, {id});
      WalkIsAncestorSet(lookup, parent, id);
      assert {} + {id} == {id};
      ForbiddenWalkIsPrefix(lookup, parent, {}, id);
      assert id in whole && id !in cut;
      assert Walk(lookup, id, {}) == [id] + cut;
      FurtherIsLonger(lookup, id, cut, whole);
      SpelledCons(lookup, id, whole);
    } else {
      PathRecurses(lookup, id);
    }
  }

  /** Two directories that name each other: neither path contains its parent's. */
  lemma CycleCutsPaths(lookup: Lookup)
    requires lookup == map[1 := Node("a", 2), 2 := Node("b", 1)]
    ensures PathOf(lookup, 1) == "b\\a" && PathOf(lookup, 2) == "a\\b"
    ensures PathOf(lookup, 1) != PathOf(lookup, 2) + "\\" + lookup[1].name
  {
    TwoStepWalk(lookup, 1, 2);
    TwoStepWalk(lookup, 2, 1);
  }

  lemma TwoStepWalk(lookup: Lookup, a: nat, b: nat)
    requires a != b && a in lookup && b in lookup && lookup[a].parent == b && lookup[b].parent == a
    ensures PathOf(lookup, a) == lookup[b].name + "\\" + lookup[a].name
  {
    assert {} + {a} == {a} && {a} + {b} == {a, b};
    assert Walk(lookup, a, {a, b}) == [];
    assert Walk(lookup, b, {a}) == [b] + [];
    assert Walk(lookup, a, {}) == [a] + [b];
    SpelledCons(lookup, b, []);
    assert [b] + [] == [b];
    SpelledCons(lookup, a, [b]);
  }
}
