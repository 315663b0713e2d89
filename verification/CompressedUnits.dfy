/**
 What a compressed attribute holds, unit by unit, said with the bytes of its clusters.  The unit
 reader returns exactly that, and where nothing is compressed it is the plain reader.
 */
module CompressedUnits {
  import opened Wrappers
  import opened Bytes
  import opened Sequences
  import opened Errors
  import opened Clusters
  import opened Data
  import opened Compressed

  /** Cluster by cluster: allocated or a hole. */
  function Kinds(queue: seq<Run>): (k: seq<bool>)
    ensures |k| == TotalClusters(queue)
  {
    if queue == [] then [] else seq(queue[0].length, _ => queue[0].lcn.Some?) + Kinds(queue[1..])
  }

  predicate Uniform(kinds: seq<bool>, kind: bool) {
    forall i :: 0 <= i < |kinds| ==> kinds[i] == kind
  }

  /** The clusters come in whole units, each fully allocated or fully sparse. */
  predicate WholeUnits(kinds: seq<bool>, unit: nat)
    requires unit > 0
    decreases |kinds|
  {
    kinds == [] ||
    (&& unit <= |kinds|
     && (Uniform(kinds[..unit], true) || Uniform(kinds[..unit], false))
     && WholeUnits(kinds[unit..], unit))
  }

  function CountAllocated(kinds: seq<bool>): nat {
    if kinds == [] then 0 else (if kinds[0] then 1 else 0) + CountAllocated(kinds[1..])
  }

  /** The allocated ones among the clusters that `bytes` spells. */
  function Stored(kinds: seq<bool>, cs: nat, bytes: seq<byte>): seq<byte>
    requires |bytes| == |kinds| * cs
  {
    if kinds == [] then []
    else
      OneFewer(|kinds|, cs);
      (if kinds[0] then bytes[..cs] else []) + Stored(kinds[1..], cs, bytes[cs..])
  }

  lemma OneFewer(n: nat, cs: nat)
    requires n > 0
    ensures n * cs == cs + (n - 1) * cs && 0 <= (n - 1) * cs
  {
  }

  /** What the clusters of one unit stand for; nothing if they hold no LZNT1 data. */
  function UnitContent(lz: Lznt1, unit: nat, cs: nat, kinds: seq<bool>, bytes: seq<byte>): Option<seq<byte>>
    requires |bytes| == |kinds| * cs
  {
    if Uniform(kinds, false) then Some(Zeroes(unit * cs))
    else if |kinds| == unit && Uniform(kinds, true) then Some(bytes)
    else
      var decoded := lz(Stored(kinds, cs, bytes));
      if decoded.None? then None else Some(decoded.value[..Min(|decoded.value|, unit * cs)])
  }

  lemma SplitClusters(n: nat, k: nat, cs: nat)
    requires k <= n
    ensures n * cs == k * cs + (n - k) * cs && 0 <= k * cs && 0 <= (n - k) * cs
  {
  }

  /** The clusters taken `unit` at a time; the last unit may be short. */
  function Units(lz: Lznt1, unit: nat, cs: nat, kinds: seq<bool>, bytes: seq<byte>): seq<Option<seq<byte>>>
    requires unit > 0 && |bytes| == |kinds| * cs
    decreases |kinds|
  {
    if kinds == [] then []
    else
      var k := Min(unit, |kinds|);
      SplitClusters(|kinds|, k, cs);
      [UnitContent(lz, unit, cs, kinds[..k], bytes[..k * cs])] + Units(lz, unit, cs, kinds[k..], bytes[k * cs..])
  }

  /** Some unit has no content. */
  predicate Broken(units: seq<Option<seq<byte>>>) {
    units != [] && (units[0].None? || Broken(units[1..]))
  }

  /** The contents one behind the other, up to the first unit that has none. */
  function Content(units: seq<Option<seq<byte>>>): seq<byte> {
    if units == [] || units[0].None? then [] else units[0].value + Content(units[1..])
  }

  /** At most `target` bytes of `content`, which is all there is if nothing is broken behind it. */
  function Delivered(content: seq<byte>, broken: bool, target: nat): Result<seq<byte>, NtfsError> {
    if broken && |content| < target then Err(BadCompression("LZNT1 decode failed"))
    else Ok(content[..Min(|content|, target)])
  }

  // ----- Consuming the front run -----

  lemma TimesPositive(n: nat, cs: nat)
    requires cs > 0
    ensures n <= n * cs
  {
  }

  lemma SplitProduct(a: nat, b: nat, c: nat, cs: nat)
    ensures (a + b + c) * cs == a * cs + b * cs + c * cs
    ensures c * cs >= 0
  {
  }

  lemma AdvanceOnDisk(disk: seq<byte>, cs: nat, r: Run, take: u64)
    requires Volume(disk, cs) && OnDisk(disk, cs, r) && take <= r.length
    ensures r.lcn.Some? ==> r.lcn.value + r.length <= U64_MAX
    ensures r.lcn.Some? ==> OnDisk(disk, cs, Advance(r, take))
    ensures r.lcn.Some? ==> r.lcn.value * cs + take * cs <= |disk|
  {
    if r.lcn.Some? {
      var l := r.lcn.value;
      TimesPositive(l + r.length, cs);
      SplitProduct(l, take, r.length - take, cs);
    }
  }

  lemma AfterFrontOnDisk(disk: seq<byte>, cs: nat, queue: seq<Run>, take: u64)
    requires Volume(disk, cs) && AllOnDisk(disk, cs, queue) && queue != [] && take <= queue[0].length
    ensures queue[0].lcn.Some? ==> queue[0].lcn.value + take <= U64_MAX
    ensures AllOnDisk(disk, cs, AfterFront(queue, take))
  {
    AdvanceOnDisk(disk, cs, queue[0], take);
    assert queue[0].lcn.None? ==> OnDisk(disk, cs, Advance(queue[0], take));
    forall i | 0 <= i < |AfterFront(queue, take)|
      ensures OnDisk(disk, cs, AfterFront(queue, take)[i])
    {
    }
  }

  lemma {:induction false} AfterFrontKinds(queue: seq<Run>, take: u64)
    requires queue != [] && take <= queue[0].length
    requires queue[0].lcn.Some? ==> queue[0].lcn.value + take <= U64_MAX
    ensures Kinds(AfterFront(queue, take)) == Kinds(queue)[take..]
    ensures Uniform(Kinds(queue)[..take], queue[0].lcn.Some?)
  {
    var after := AfterFront(queue, take);
    if take < queue[0].length {
      assert after[1..] == queue[1..] && after[0].lcn.Some? == queue[0].lcn.Some?;
    }
  }

  lemma {:induction false} AfterFrontFlat(disk: seq<byte>, cs: nat, queue: seq<Run>, take: u64)
    requires queue != [] && take <= queue[0].length
    requires queue[0].lcn.Some? ==> queue[0].lcn.value + take <= U64_MAX
    ensures Flat(disk, cs, queue) == RunBytes(disk, cs, Run(take, queue[0].lcn)) + Flat(disk, cs, AfterFront(queue, take))
  {
    var r := queue[0];
    RunSplits(disk, cs, r, take);
    if take < r.length {
      var after := AfterFront(queue, take);
      assert after[0] == Advance(r, take) && after[1..] == queue[1..];
      Reassociate(RunBytes(disk, cs, Run(take, r.lcn)), RunBytes(disk, cs, after[0]), Flat(disk, cs, queue[1..]));
    } else {
      assert RunBytes(disk, cs, Advance(r, take)) == [];
    }
  }

  lemma FrontPieceOnDisk(disk: seq<byte>, cs: nat, r: Run, take: u64)
    requires Volume(disk, cs) && OnDisk(disk, cs, r) && take <= r.length
    ensures FrontPiece(disk, cs, r, take).Ok?
  {
    AdvanceOnDisk(disk, cs, r, take);
  }

  lemma FrontPieceIsBytes(disk: seq<byte>, cs: nat, r: Run, take: u64)
    requires FrontPiece(disk, cs, r, take).Ok?
    ensures FrontPiece(disk, cs, r, take).value == if r.lcn.Some? then RunBytes(disk, cs, Run(take, r.lcn)) else []
  {
    if r.lcn.Some? {
      ReadExactIsDiskBytes(disk, r.lcn.value * cs, take * cs);
    }
  }

  // ----- Taking a unit -----

  /** The first `n` clusters of `queue` spell `front`; taking them leaves `u.rest`. */
  ghost predicate Cuts(disk: seq<byte>, cs: nat, queue: seq<Run>, n: nat, u: UnitRead, front: seq<byte>) {
    && n <= TotalClusters(queue) && u.got == n
    && Kinds(u.rest) == Kinds(queue)[n..]
    && |front| == n * cs && Flat(disk, cs, queue) == front + Flat(disk, cs, u.rest)
  }

  /** `u` carries the bytes of the allocated clusters, and where there are none `front` is zeroes. */
  ghost predicate Carries(cs: nat, kinds: seq<bool>, u: UnitRead, front: seq<byte>) {
    && |front| == |kinds| * cs
    && u.realClusters == CountAllocated(kinds) && u.bytes == Stored(kinds, cs, front)
    && (Uniform(kinds, false) ==> front == Zeroes(|front|))
  }

  lemma CutsCombine(disk: seq<byte>, cs: nat, queue: seq<Run>, take: u64, n: nat, piece: seq<byte>, stored: nat,
                    u: UnitRead, back: seq<byte>)
    requires queue != [] && take <= queue[0].length
    requires queue[0].lcn.Some? ==> queue[0].lcn.value + take <= U64_MAX
    requires Cuts(disk, cs, AfterFront(queue, take), n, u, back)
    ensures Cuts(disk, cs, queue, take + n, Combine(piece, stored, take, u),
                 RunBytes(disk, cs, Run(take, queue[0].lcn)) + back)
  {
    AfterFrontKinds(queue, take);
    AfterFrontFlat(disk, cs, queue, take);
    var head := RunBytes(disk, cs, Run(take, queue[0].lcn));
    Reassociate(head, back, Flat(disk, cs, u.rest));
    SplitProduct(take, n, 0, cs);
    var k := Kinds(queue);
    assert k[take..][n..] == k[take + n..];
  }

  lemma UniformParts(a: seq<bool>, b: seq<bool>, kind: bool)
    ensures Uniform(a + b, kind) <==> Uniform(a, kind) && Uniform(b, kind)
  {
    assert forall i :: 0 <= i < |a| ==> (a + b)[i] == a[i];
    assert forall i :: 0 <= i < |b| ==> (a + b)[|a| + i] == b[i];
  }

  lemma ZeroesConcat(a: nat, b: nat)
    ensures Zeroes(a) + Zeroes(b) == Zeroes(a + b)
  {
  }

  lemma {:induction false} CountInFront(a: seq<bool>, b: seq<bool>, kind: bool)
    requires Uniform(a, kind)
    ensures CountAllocated(a + b) == (if kind then |a| else 0) + CountAllocated(b)
  {
    if a == [] {
      assert a + b == b;
    } else {
      CountInFront(a[1..], b, kind);
      assert (a + b)[0] == kind && (a + b)[1..] == a[1..] + b;
    }
  }

  lemma LengthsAdd(a: nat, b: nat, cs: nat)
    ensures a * cs + b * cs == (a + b) * cs
  {
  }

  /** Clusters of one kind in front of others. */
  lemma {:induction false} StoredInFront(cs: nat, a: seq<bool>, b: seq<bool>, kind: bool, head: seq<byte>,
                                         back: seq<byte>)
    requires Uniform(a, kind) && |head| == |a| * cs && |back| == |b| * cs
    ensures |head + back| == |a + b| * cs
    ensures Stored(a + b, cs, head + back) == (if kind then head else []) + Stored(b, cs, back)
  {
    LengthsAdd(|a|, |b|, cs);
    if a == [] {
      assert a + b == b && head + back == back && head == [];
    } else {
      OneFewer(|a|, cs);
      StoredInFront(cs, a[1..], b, kind, head[cs..], back);
      assert (a + b)[0] == kind && (a + b)[1..] == a[1..] + b;
      StoredStep(cs, a + b, head, back);
      StoredRejoins(head, cs, Stored(b, cs, back), kind);
    }
  }

  lemma StoredRejoins(head: seq<byte>, cs: nat, stored: seq<byte>, kind: bool)
    requires cs <= |head|
    ensures (if kind then head[..cs] else []) + ((if kind then head[cs..] else []) + stored) ==
            (if kind then head else []) + stored
  {
    Reassociate(head[..cs], head[cs..], stored);
    assert head[..cs] + head[cs..] == head;
  }

  lemma StoredStep(cs: nat, kinds: seq<bool>, head: seq<byte>, back: seq<byte>)
    requires kinds != [] && |head + back| == |kinds| * cs && cs <= |head|
    ensures |head[cs..] + back| == |kinds[1..]| * cs
    ensures Stored(kinds, cs, head + back) ==
            (if kinds[0] then head[..cs] else []) + Stored(kinds[1..], cs, head[cs..] + back)
  {
    OneFewer(|kinds|, cs);
    assert (head + back)[..cs] == head[..cs] && (head + back)[cs..] == head[cs..] + back;
  }

  lemma CarriesCombine(cs: nat, a: seq<bool>, b: seq<bool>, kind: bool, head: seq<byte>, back: seq<byte>, u: UnitRead)
    requires Uniform(a, kind) && |head| == |a| * cs && Carries(cs, b, u, back)
    requires !kind ==> head == Zeroes(|head|)
    ensures Carries(cs, a + b, Combine(if kind then head else [], if kind then |a| else 0, |a|, u), head + back)
  {
    StoredInFront(cs, a, b, kind, head, back);
    CountInFront(a, b, kind);
    UniformParts(a, b, false);
    if Uniform(a + b, false) {
      assert kind ==> a == [];
      ZeroesConcat(|head|, |back|);
    }
  }

  lemma {:induction false} CountsKind(kinds: seq<bool>)
    ensures CountAllocated(kinds) <= |kinds|
    ensures CountAllocated(kinds) == 0 <==> Uniform(kinds, false)
    ensures CountAllocated(kinds) == |kinds| <==> Uniform(kinds, true)
  {
    if kinds != [] {
      CountsKind(kinds[1..]);
      UniformParts([kinds[0]], kinds[1..], true);
      UniformParts([kinds[0]], kinds[1..], false);
      assert [kinds[0]] + kinds[1..] == kinds;
    }
  }

  lemma {:induction false} FrontCarries(disk: seq<byte>, cs: nat, queue: seq<Run>, take: u64, n: nat, u: UnitRead,
                                        back: seq<byte>, head: seq<byte>)
    requires queue != [] && take <= queue[0].length
    requires queue[0].lcn.Some? ==> queue[0].lcn.value + take <= U64_MAX
    requires take + n <= TotalClusters(queue) && head == RunBytes(disk, cs, Run(take, queue[0].lcn))
    requires n <= |Kinds(AfterFront(queue, take))| && Carries(cs, Kinds(AfterFront(queue, take))[..n], u, back)
    ensures Carries(cs, Kinds(queue)[..take + n],
                    Combine(if queue[0].lcn.Some? then head else [], if queue[0].lcn.Some? then take else 0, take, u),
                    head + back)
  {
    var k := Kinds(queue);
    AfterFrontKinds(queue, take);
    PrefixInTwo(k, take, n);
    CarriesCombine(cs, k[..take], k[take..][..n], queue[0].lcn.Some?, head, back, u);
  }

  lemma PrefixInTwo<T>(s: seq<T>, a: nat, b: nat)
    requires a + b <= |s|
    ensures s[..a + b] == s[..a] + s[a..][..b]
  {
  }

  lemma TakeUnitUnfolds(disk: seq<byte>, cs: nat, queue: seq<Run>, need: nat, take: u64)
    requires Volume(disk, cs) && need > 0 && queue != [] && TakeUnit(disk, cs, queue, need).Ok?
    requires take == Min(need, queue[0].length)
    ensures queue[0].lcn.Some? ==> queue[0].lcn.value + take <= U64_MAX
    ensures
      var more := TakeUnit(disk, cs, AfterFront(queue, take), need - take);
      var alloc := queue[0].lcn.Some?;
      var head := RunBytes(disk, cs, Run(take, queue[0].lcn));
      && more.Ok?
      && TakeUnit(disk, cs, queue, need) ==
         Ok(Combine(if alloc then head else [], if alloc then take else 0, take, more.value))
  {
    FrontPieceInRange(disk, cs, queue[0], take);
    FrontPieceIsBytes(disk, cs, queue[0], take);
  }

  /** Runs on the disk never make a unit fail, and what is left of them is on the disk too. */
  lemma {:induction false} TakeUnitOnDisk(disk: seq<byte>, cs: nat, queue: seq<Run>, need: nat)
    requires Volume(disk, cs) && AllOnDisk(disk, cs, queue)
    ensures TakeUnit(disk, cs, queue, need).Ok? && AllOnDisk(disk, cs, TakeUnit(disk, cs, queue, need).value.rest)
    decreases |queue|, need
  {
    if need > 0 && queue != [] {
      var take := Min(need, queue[0].length);
      FrontPieceOnDisk(disk, cs, queue[0], take);
      AfterFrontOnDisk(disk, cs, queue, take);
      TakeUnitOnDisk(disk, cs, AfterFront(queue, take), need - take);
    }
  }

  lemma {:induction false} AfterFrontTotal(queue: seq<Run>, take: u64)
    requires queue != [] && take <= queue[0].length
    requires queue[0].lcn.Some? ==> queue[0].lcn.value + take <= U64_MAX
    ensures take + TotalClusters(AfterFront(queue, take)) == TotalClusters(queue)
  {
    if take < queue[0].length {
      assert AfterFront(queue, take)[1..] == queue[1..];
    }
  }

  /** `taken` is what up to `need` clusters should yield: `front`, and the rest left. */
  ghost predicate TakenWell(disk: seq<byte>, cs: nat, queue: seq<Run>, need: nat, taken: Result<UnitRead, NtfsError>,
                            front: seq<byte>) {
    taken.Ok? && TakenAs(disk, cs, queue, Min(need, TotalClusters(queue)), taken.value, front)
  }

  ghost predicate TakenAs(disk: seq<byte>, cs: nat, queue: seq<Run>, n: nat, u: UnitRead, front: seq<byte>) {
    Cuts(disk, cs, queue, n, u, front) && Carries(cs, Kinds(queue)[..n], u, front)
  }

  lemma TakenWellStep(disk: seq<byte>, cs: nat, queue: seq<Run>, need: nat, take: u64, more: Result<UnitRead, NtfsError>,
                      back: seq<byte>, taken: Result<UnitRead, NtfsError>, head: seq<byte>)
    requires need > 0 && queue != [] && take == Min(need, queue[0].length)
    requires queue[0].lcn.Some? ==> queue[0].lcn.value + take <= U64_MAX
    requires TakenWell(disk, cs, AfterFront(queue, take), need - take, more, back)
    requires head == RunBytes(disk, cs, Run(take, queue[0].lcn))
    requires taken == Ok(Combine(if queue[0].lcn.Some? then head else [], if queue[0].lcn.Some? then take else 0, take,
                                 more.value))
    ensures TakenWell(disk, cs, queue, need, taken, head + back)
  {
    AfterFrontTotal(queue, take);
    var n := Min(need - take, TotalClusters(AfterFront(queue, take)));
    assert take + n == Min(need, TotalClusters(queue));
    var alloc := queue[0].lcn.Some?;
    CutsCombine(disk, cs, queue, take, n, if alloc then head else [], if alloc then take else 0, more.value, back);
    FrontCarries(disk, cs, queue, take, n, more.value, back, head);
  }

  lemma TakeUnitCuts(disk: seq<byte>, cs: nat, queue: seq<Run>, need: nat) returns (front: seq<byte>)
    requires Volume(disk, cs) && TakeUnit(disk, cs, queue, need).Ok?
    ensures TakenWell(disk, cs, queue, need, TakeUnit(disk, cs, queue, need), front)
    decreases |queue|, need
  {
    if need == 0 || queue == [] {
      front := [];
      assert Flat(disk, cs, queue) == [] + Flat(disk, cs, queue);
    } else {
      var take := Min(need, queue[0].length);
      TakeUnitUnfolds(disk, cs, queue, need, take);
      var after := AfterFront(queue, take);
      var back := TakeUnitCuts(disk, cs, after, need - take);
      var head := RunBytes(disk, cs, Run(take, queue[0].lcn));
      TakenWellStep(disk, cs, queue, need, take, TakeUnit(disk, cs, after, need - take), back,
                    TakeUnit(disk, cs, queue, need), head);
      front := head + back;
    }
  }

  // ----- The whole read -----

  /** A gathered unit goes out as its content, a hole only as far as there is room. */
  lemma UnitIsContent(lz: Lznt1, cs: nat, unit: nat, kinds: seq<bool>, u: UnitRead, front: seq<byte>, room: nat)
    requires Carries(cs, kinds, u, front) && |kinds| <= unit
    ensures
      var content, out := UnitContent(lz, unit, cs, kinds, front), UnitOutput(lz, u, unit, unit * cs, room);
      if content.None? then out == Err(BadCompression("LZNT1 decode failed"))
      else out == Ok(content.value) || (room < |content.value| && out == Ok(content.value[..room]))
  {
    CountsKind(kinds);
    if Uniform(kinds, false) {
      ZeroesSlice(unit * cs, 0, Min(unit * cs, room));
    } else if Uniform(kinds, true) {
      StoredInFront(cs, kinds, [], true, front, []);
      assert kinds + [] == kinds && front + [] == front;
    }
  }

  /** The round's outcome, given the content of the unit and the runs behind it. */
  ghost predicate Yields(round: Round, content: Option<seq<byte>>, rest: seq<Run>, room: nat) {
    if content.None? then round == Failed(BadCompression("LZNT1 decode failed"))
    else
      || round == Emitted(content.value, rest)
      || (room < |content.value| && round == Emitted(content.value[..room], rest))
  }

  /** The first unit of the queue: its content, what a round yields, and the units behind it. */
  lemma FirstUnit(disk: seq<byte>, cs: nat, lz: Lznt1, unit: nat, queue: seq<Run>, room: nat)
    returns (front: seq<byte>, content: Option<seq<byte>>, rest: seq<Run>)
    requires Volume(disk, cs) && unit > 0 && 0 < TotalClusters(queue) && TakeUnit(disk, cs, queue, unit).Ok?
    ensures rest == TakeUnit(disk, cs, queue, unit).value.rest && TotalClusters(rest) < TotalClusters(queue)
    ensures Yields(OneRound(disk, cs, lz, unit, queue, room), content, rest, room)
    ensures UnitsOf(disk, cs, lz, unit, queue) == [content] + UnitsOf(disk, cs, lz, unit, rest)
    ensures IsFront(disk, cs, lz, unit, queue, front, content, rest)
  {
    var n := Min(unit, TotalClusters(queue));
    front := TakeUnitCuts(disk, cs, queue, unit);
    var u := TakeUnit(disk, cs, queue, unit).value;
    var kinds := Kinds(queue)[..n];
    rest := u.rest;
    content := UnitContent(lz, unit, cs, kinds, front);
    UnitIsContent(lz, cs, unit, kinds, u, front, room);
    KindsSpellBytes(disk, cs, queue);
    KindsSpellBytes(disk, cs, rest);
    assert Flat(disk, cs, queue)[..n * cs] == front && Flat(disk, cs, queue)[n * cs..] == Flat(disk, cs, rest);
  }

  /** The first unit of the queue has this content, and holes in it are zeroes. */
  ghost predicate IsFront(disk: seq<byte>, cs: nat, lz: Lznt1, unit: nat, queue: seq<Run>, front: seq<byte>,
                          content: Option<seq<byte>>, rest: seq<Run>) {
    && Flat(disk, cs, queue) == front + Flat(disk, cs, rest)
    && var n := Min(unit, TotalClusters(queue));
    && Kinds(rest) == Kinds(queue)[n..]
    && |front| == n * cs && content == UnitContent(lz, unit, cs, Kinds(queue)[..n], front)
    && (Uniform(Kinds(queue)[..n], false) ==> front == Zeroes(|front|))
  }

  lemma {:induction false} KindsSpellBytes(disk: seq<byte>, cs: nat, queue: seq<Run>)
    ensures |Flat(disk, cs, queue)| == |Kinds(queue)| * cs
  {
    if queue != [] {
      KindsSpellBytes(disk, cs, queue[1..]);
      SplitClusters(|Kinds(queue)|, queue[0].length, cs);
    }
  }

  /** The units of a runlist. */
  function UnitsOf(disk: seq<byte>, cs: nat, lz: Lznt1, unit: nat, queue: seq<Run>): seq<Option<seq<byte>>>
    requires unit > 0
  {
    KindsSpellBytes(disk, cs, queue);
    Units(lz, unit, cs, Kinds(queue), Flat(disk, cs, queue))
  }

  /** One round of the loop, by what it yields. */
  lemma {:induction false} InflateRound(disk: seq<byte>, cs: nat, lz: Lznt1, unit: nat, queue: seq<Run>,
                                        out: seq<byte>, target: nat, round: Round)
    requires Volume(disk, cs) && |out| < target && round == OneRound(disk, cs, lz, unit, queue, target - |out|)
    ensures round.Exhausted? ==> Inflate(disk, cs, lz, unit, queue, out, target) == Ok(out)
    ensures round.Failed? ==> Inflate(disk, cs, lz, unit, queue, out, target) == Err(round.error)
    ensures round.Emitted? ==>
              Inflate(disk, cs, lz, unit, queue, out, target)
              == Inflate(disk, cs, lz, unit, round.rest, out + round.chunk, target)
  {
  }

  lemma {:induction false} NothingLeftToInflate(disk: seq<byte>, cs: nat, lz: Lznt1, unit: nat, queue: seq<Run>,
                                                room: nat)
    requires Volume(disk, cs) && TakeUnit(disk, cs, queue, unit).Ok? && TotalClusters(queue) == 0
    ensures OneRound(disk, cs, lz, unit, queue, room) == Exhausted
  {
    var front := TakeUnitCuts(disk, cs, queue, unit);
  }

  /** One unit more is delivered the same from its content as from the contents of all units. */
  lemma {:induction false} DeliveredStep(out: seq<byte>, content: Option<seq<byte>>, later: seq<Option<seq<byte>>>,
                                         target: nat)
    ensures
      var units := [content] + later;
      && (content.None? ==> Content(units) == [] && Broken(units))
      && (content.Some? ==>
            Broken(units) == Broken(later) && out + Content(units) == (out + content.value) + Content(later))
  {
    var units := [content] + later;
    assert units[1..] == later;
    if content.Some? {
      Reassociate(out, content.value, Content(later));
    }
  }

  lemma EnoughDelivered(out: seq<byte>, whole: seq<byte>, behind: seq<byte>, broken: bool, target: nat)
    requires out <= whole && |out| >= target
    ensures Truncate(Ok(out), target) == Delivered(whole + behind, broken, target)
  {
    PrefixCut(out, whole + behind, target);
  }

  /** The read did not fail on a cluster. */
  predicate GotThrough(r: Result<seq<byte>, NtfsError>) {
    r.Ok? || r.error.BadCompression?
  }

  lemma {:induction false} TakeUnitErrors(disk: seq<byte>, cs: nat, queue: seq<Run>, need: nat)
    requires Volume(disk, cs) && TakeUnit(disk, cs, queue, need).Err?
    ensures !TakeUnit(disk, cs, queue, need).error.BadCompression?
    decreases |queue|, need
  {
    var take := Min(need, queue[0].length);
    if FrontPiece(disk, cs, queue[0], take).Ok? {
      FrontPieceInRange(disk, cs, queue[0], take);
      TakeUnitErrors(disk, cs, AfterFront(queue, take), need - take);
    }
  }

  lemma {:induction false} RoundGotThrough(disk: seq<byte>, cs: nat, lz: Lznt1, unit: nat, queue: seq<Run>,
                                           out: seq<byte>, target: nat)
    requires Volume(disk, cs) && |out| < target && GotThrough(Inflate(disk, cs, lz, unit, queue, out, target))
    ensures TakeUnit(disk, cs, queue, unit).Ok?
  {
    if TakeUnit(disk, cs, queue, unit).Err? {
      TakeUnitErrors(disk, cs, queue, unit);
    }
  }

  lemma {:induction false} InflateIsUnits(disk: seq<byte>, cs: nat, lz: Lznt1, unit: nat, queue: seq<Run>,
                                          out: seq<byte>, target: nat)
    requires Volume(disk, cs) && unit > 0 && GotThrough(Inflate(disk, cs, lz, unit, queue, out, target))
    ensures
      var units := UnitsOf(disk, cs, lz, unit, queue);
      Truncate(Inflate(disk, cs, lz, unit, queue, out, target), target) ==
      Delivered(out + Content(units), Broken(units), target)
    decreases TotalClusters(queue)
  {
    var units := UnitsOf(disk, cs, lz, unit, queue);
    if |out| >= target {
      EnoughDelivered(out, out, Content(units), Broken(units), target);
    } else {
      RoundGotThrough(disk, cs, lz, unit, queue, out, target);
      if TotalClusters(queue) == 0 {
        NothingLeftToInflate(disk, cs, lz, unit, queue, target - |out|);
        InflateRound(disk, cs, lz, unit, queue, out, target, Exhausted);
        assert out + [] == out;
      } else {
        InflateUnit(disk, cs, lz, unit, queue, out, target);
      }
    }
  }

  lemma {:induction false} InflateUnit(disk: seq<byte>, cs: nat, lz: Lznt1, unit: nat, queue: seq<Run>,
                                       out: seq<byte>, target: nat)
    requires Volume(disk, cs) && unit > 0 && TakeUnit(disk, cs, queue, unit).Ok?
    requires |out| < target && 0 < TotalClusters(queue) && GotThrough(Inflate(disk, cs, lz, unit, queue, out, target))
    ensures
      var units := UnitsOf(disk, cs, lz, unit, queue);
      Truncate(Inflate(disk, cs, lz, unit, queue, out, target), target) ==
      Delivered(out + Content(units), Broken(units), target)
    decreases TotalClusters(queue), 0
  {
    var front, content, rest := FirstUnit(disk, cs, lz, unit, queue, target - |out|);
    var round := OneRound(disk, cs, lz, unit, queue, target - |out|);
    InflateRound(disk, cs, lz, unit, queue, out, target, round);
    var later := UnitsOf(disk, cs, lz, unit, rest);
    DeliveredStep(out, content, later, target);
    if content.None? {
      assert out + [] == out;
    } else if round == Emitted(content.value, rest) {
      InflateIsUnits(disk, cs, lz, unit, rest, out + content.value, target);
    } else {
      var cut := content.value[..target - |out|];
      InflateFull(disk, cs, lz, unit, rest, out + cut, target);
      assert out + cut <= out + content.value;
      EnoughDelivered(out + cut, out + content.value, Content(later), Broken(later), target);
    }
  }

  lemma {:induction false} OnDiskGetsThrough(disk: seq<byte>, cs: nat, lz: Lznt1, unit: nat, queue: seq<Run>,
                                             out: seq<byte>, target: nat)
    requires Volume(disk, cs) && AllOnDisk(disk, cs, queue)
    ensures GotThrough(Inflate(disk, cs, lz, unit, queue, out, target))
    decreases TotalClusters(queue)
  {
    if |out| < target {
      TakeUnitOnDisk(disk, cs, queue, unit);
      var round := OneRound(disk, cs, lz, unit, queue, target - |out|);
      InflateRound(disk, cs, lz, unit, queue, out, target, round);
      if round.Emitted? {
        OnDiskGetsThrough(disk, cs, lz, unit, round.rest, out + round.chunk, target);
      }
    }
  }

  lemma {:induction false} InflateFull(disk: seq<byte>, cs: nat, lz: Lznt1, unit: nat, queue: seq<Run>,
                                       out: seq<byte>, target: nat)
    requires Volume(disk, cs) && |out| >= target
    ensures Inflate(disk, cs, lz, unit, queue, out, target) == Ok(out)
  {
  }

  /**
   Unless a cluster it needs is missing, a compressed attribute reads as the contents of its units,
   cut at its size and at the cap; the read fails exactly when it reaches a unit whose LZNT1 data
   does not decode.  Runs on the disk miss no cluster.
   */
  lemma CompressedReadMeaning(disk: seq<byte>, cs: nat, lz: Lznt1, runs: seq<Run>, realSize: u64, unit: nat,
                              maxBytes: u64)
    requires Volume(disk, cs) && unit > 0
    ensures
      var r, units := ReadCompressed(disk, cs, lz, runs, realSize, unit, maxBytes), UnitsOf(disk, cs, lz, unit, runs);
      && (GotThrough(r) ==> r == Delivered(Content(units), Broken(units), Min(realSize, maxBytes)))
      && (AllOnDisk(disk, cs, runs) ==>
            (GotThrough(r) <==> realSize <= 0x100_0000_0000 && unit * cs <= U64_MAX))
  {
    var target := Min(realSize, maxBytes);
    if realSize <= MAX_VALUE_BYTES && unit * cs <= U64_MAX {
      if GotThrough(Inflate(disk, cs, lz, unit, runs, [], target)) {
        InflateIsUnits(disk, cs, lz, unit, runs, [], target);
        var content := Content(UnitsOf(disk, cs, lz, unit, runs));
        assert [] + content == content;
      }
      if AllOnDisk(disk, cs, runs) {
        OnDiskGetsThrough(disk, cs, lz, unit, runs, [], target);
      }
    }
  }

  // ----- Nothing compressed -----

  lemma {:induction false} WholeUnitsAreFlat(disk: seq<byte>, cs: nat, lz: Lznt1, unit: nat, queue: seq<Run>)
    requires Volume(disk, cs) && AllOnDisk(disk, cs, queue) && unit > 0 && WholeUnits(Kinds(queue), unit)
    ensures
      var units := UnitsOf(disk, cs, lz, unit, queue);
      !Broken(units) && Content(units) == Flat(disk, cs, queue)
    decreases TotalClusters(queue)
  {
    if TotalClusters(queue) == 0 {
      KindsSpellBytes(disk, cs, queue);
    } else {
      TakeUnitOnDisk(disk, cs, queue, unit);
      var front, content, rest := FirstUnit(disk, cs, lz, unit, queue, 0);
      assert content == Some(front);
      WholeUnitsAreFlat(disk, cs, lz, unit, rest);
      DeliveredStep([], content, UnitsOf(disk, cs, lz, unit, rest), 0);
    }
  }

  /**
   Runs made of whole units, each fully allocated or fully sparse, on the disk and within the
   limits, read the same through the unit reader as through the plain one, at every cap.
   */
  lemma {:induction false} UncompressedUnitsReadPlain(disk: seq<byte>, cs: nat, lz: Lznt1, runs: seq<Run>,
                                                      realSize: u64, unit: nat, maxBytes: u64)
    requires Volume(disk, cs) && AllOnDisk(disk, cs, runs)
    requires unit > 0 && WholeUnits(Kinds(runs), unit)
    requires realSize <= MAX_VALUE_BYTES && unit * cs <= U64_MAX && Allocated(cs, runs) <= U64_MAX
    ensures ReadCompressed(disk, cs, lz, runs, realSize, unit, maxBytes).Ok?
    ensures ReadCompressed(disk, cs, lz, runs, realSize, unit, maxBytes) == ReadRuns(disk, cs, runs, realSize, maxBytes)
  {
    WholeUnitsAreFlat(disk, cs, lz, unit, runs);
    CompressedReadMeaning(disk, cs, lz, runs, realSize, unit, maxBytes);
    ReadRunsMeaning(disk, cs, runs, realSize, maxBytes);
    OnDiskIsReachable(disk, cs, runs, Want(cs, runs, realSize, maxBytes));
  }
}
