/**
 Greedy scans over an 8-byte grid, the loop shape shared by the USN carver and the log-page
 walk: take the record at the current position if there is one, else step a word.
 */
module GridScan {

  /** `take(p)` is the aligned size of the record at `p`, zero where there is none. */
  function Offsets(take: nat -> nat, header: nat, limit: nat, pos: nat): seq<nat>
    requires header > 0
    decreases limit - pos
  {
    if pos + header > limit then []
    else if take(pos) > 0 then [pos] + Offsets(take, header, limit, pos + take(pos))
    else Offsets(take, header, limit, pos + 8)
  }

  ghost predicate Covered(take: nat -> nat, out: seq<nat>, p: nat) {
    exists i :: 0 <= i < |out| && out[i] <= p < out[i] + take(out[i])
  }

  ghost predicate Placed(take: nat -> nat, header: nat, limit: nat, pos: nat, out: seq<nat>) {
    forall i :: 0 <= i < |out| ==> pos <= out[i] && out[i] % 8 == 0 && take(out[i]) > 0 && out[i] + header <= limit
  }

  ghost predicate Disjoint(take: nat -> nat, out: seq<nat>) {
    forall i, j :: 0 <= i < j < |out| ==> out[i] + take(out[i]) <= out[j]
  }

  ghost predicate Complete(take: nat -> nat, header: nat, limit: nat, pos: nat, out: seq<nat>) {
    forall p: nat {:trigger take(p)} ::
      pos <= p && p % 8 == 0 && p + header <= limit && take(p) > 0 ==> Covered(take, out, p)
  }

  /** Aligned records from `pos` on, in increasing disjoint spans, that leave no record out. */
  ghost predicate Tidy(take: nat -> nat, header: nat, limit: nat, pos: nat, out: seq<nat>) {
    && Placed(take, header, limit, pos, out)
    && Disjoint(take, out)
    && Complete(take, header, limit, pos, out)
  }

  lemma CoveredByTail(take: nat -> nat, first: nat, rest: seq<nat>, p: nat)
    requires Covered(take, rest, p)
    ensures Covered(take, [first] + rest, p)
  {
    var i :| 0 <= i < |rest| && rest[i] <= p < rest[i] + take(rest[i]);
    assert ([first] + rest)[i + 1] == rest[i];
  }

  lemma DisjointCons(take: nat -> nat, header: nat, limit: nat, pos: nat, rest: seq<nat>)
    requires Placed(take, header, limit, pos + take(pos), rest) && Disjoint(take, rest)
    ensures Disjoint(take, [pos] + rest)
  {
    var out := [pos] + rest;
    forall i, j | 0 <= i < j < |out|
      ensures out[i] + take(out[i]) <= out[j]
    {
      assert out[j] == rest[j - 1];
      assert i > 0 ==> out[i] == rest[i - 1];
    }
  }

  lemma CompleteCons(take: nat -> nat, header: nat, limit: nat, pos: nat, rest: seq<nat>)
    requires Complete(take, header, limit, pos + take(pos), rest)
    ensures Complete(take, header, limit, pos, [pos] + rest)
  {
    forall p: nat | pos <= p && p % 8 == 0 && p + header <= limit && take(p) > 0
      ensures Covered(take, [pos] + rest, p)
    {
      if p < pos + take(pos) {
        assert ([pos] + rest)[0] == pos;
      } else {
        CoveredByTail(take, pos, rest, p);
      }
    }
  }

  lemma TidyCons(take: nat -> nat, header: nat, limit: nat, pos: nat, rest: seq<nat>)
    requires pos % 8 == 0 && pos + header <= limit && take(pos) > 0
    requires Tidy(take, header, limit, pos + take(pos), rest)
    ensures Tidy(take, header, limit, pos, [pos] + rest)
  {
    DisjointCons(take, header, limit, pos, rest);
    CompleteCons(take, header, limit, pos, rest);
  }

  lemma AlignedSum(a: nat, b: nat)
    requires a % 8 == 0 && b % 8 == 0
    ensures (a + b) % 8 == 0
  {
  }

  lemma OnGridPastWord(pos: nat, p: nat)
    requires pos % 8 == 0 && p % 8 == 0 && pos < p
    ensures pos + 8 <= p
  {
  }

  lemma TidySkip(take: nat -> nat, header: nat, limit: nat, pos: nat, out: seq<nat>)
    requires pos % 8 == 0 && take(pos) == 0 && Tidy(take, header, limit, pos + 8, out)
    ensures Tidy(take, header, limit, pos, out)
  {
    forall p: nat | pos <= p && p % 8 == 0 && p + header <= limit && take(p) > 0
      ensures Covered(take, out, p)
    {
      assert p != pos;
      OnGridPastWord(pos, p);
    }
  }

  lemma OffsetsHere(take: nat -> nat, header: nat, limit: nat, pos: nat)
    requires header > 0 && pos + header <= limit
    ensures Offsets(take, header, limit, pos) ==
            if take(pos) > 0 then [pos] + Offsets(take, header, limit, pos + take(pos))
            else Offsets(take, header, limit, pos + 8)
  {
  }

  lemma OffsetsPastWord(take: nat -> nat, header: nat, limit: nat, pos: nat)
    requires header > 0 && take(pos) == 0
    ensures Offsets(take, header, limit, pos) == Offsets(take, header, limit, pos + 8)
  {
  }

  ghost predicate OnGrid(take: nat -> nat) {
    forall p :: take(p) % 8 == 0
  }

  /** One step of the scan, whatever `rest` it goes on with. */
  lemma StepIsTidy(take: nat -> nat, header: nat, limit: nat, pos: nat, rest: seq<nat>)
    requires pos % 8 == 0 && pos + header <= limit
    requires Tidy(take, header, limit, if take(pos) > 0 then pos + take(pos) else pos + 8, rest)
    ensures Tidy(take, header, limit, pos, if take(pos) > 0 then [pos] + rest else rest)
  {
    if take(pos) > 0 {
      TidyCons(take, header, limit, pos, rest);
    } else {
      TidySkip(take, header, limit, pos, rest);
    }
  }

  lemma {:induction false} OffsetsAreTidy(take: nat -> nat, header: nat, limit: nat, pos: nat)
    requires header > 0 && pos % 8 == 0 && OnGrid(take)
    ensures Tidy(take, header, limit, pos, Offsets(take, header, limit, pos))
    decreases limit - pos
  {
    if pos + header > limit {
      assert Offsets(take, header, limit, pos) == [];
    } else {
      assert take(pos) % 8 == 0;
      var next := if take(pos) > 0 then pos + take(pos) else pos + 8;
      AlignedSum(pos, next - pos);
      OffsetsAreTidy(take, header, limit, next);
      StepIsTidy(take, header, limit, pos, Offsets(take, header, limit, next));
      OffsetsHere(take, header, limit, pos);
    }
  }
}
