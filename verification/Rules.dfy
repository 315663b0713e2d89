/**
 The glob matcher of the rule engine (forensic/src/rules.rs): one saved star, retried in place
 of full backtracking, compared with the declarative `*`/`?` relation.
 */
module Rules {
  import opened Wrappers
  import opened Bytes

  const STAR: byte := 0x2A
  const QUESTION: byte := 0x3F

  /** The match relation: `*` stands for any bytes, `?` for any one byte. */
  ghost predicate Matches(p: seq<byte>, t: seq<byte>)
    decreases |p|
  {
    if p == [] then t == []
    else if p[0] == STAR then exists k :: 0 <= k <= |t| && Matches(p[1..], t[k..])
    else t != [] && (p[0] == QUESTION || p[0] == t[0]) && Matches(p[1..], t[1..])
  }

  predicate OnlyStars(p: seq<byte>, pi: nat)
    requires pi <= |p|
  {
    forall j :: pi <= j < |p| ==> p[j] == STAR
  }

  /** The loop from a given state; literal equality is tried before `*`, as in the source. */
  predicate Scan(p: seq<byte>, t: seq<byte>, pi: nat, ti: nat, star: Option<nat>, starTi: nat)
    requires pi <= |p| && starTi <= ti <= |t|
    requires star.Some? ==> star.value < pi
    decreases |p| - (if star.Some? then star.value + 1 else 0), |t| - starTi, |t| - ti
  {
    if ti == |t| then OnlyStars(p, pi)
    else if pi < |p| && (p[pi] == QUESTION || p[pi] == t[ti]) then Scan(p, t, pi + 1, ti + 1, star, starTi)
    else if pi < |p| && p[pi] == STAR then Scan(p, t, pi + 1, ti, Some(pi), ti)
    else if star.Some? then Scan(p, t, star.value + 1, starTi + 1, star, starTi + 1)
    else false
  }

  predicate Glob(p: seq<byte>, t: seq<byte>) {
    Scan(p, t, 0, 0, None, 0)
  }

  /** `glob_matches_inner`. */
  method GlobMatchesInner(pattern: seq<byte>, text: seq<byte>) returns (r: bool)
    ensures r == Glob(pattern, text)
    ensures r ==> Matches(pattern, text)
    ensures STAR !in text || STAR !in pattern ==> r == Matches(pattern, text)
  {
    GlobIsSound(pattern, text);
    if Matches(pattern, text) && (STAR !in text || STAR !in pattern) {
      GlobIsComplete(pattern, text);
    }
    var pi, ti := 0, 0;
    var starPi: Option<nat> := None;
    var starTi := 0;
    while ti < |text|
      invariant 0 <= pi <= |pattern| && 0 <= starTi <= ti <= |text|
      invariant starPi.Some? ==> starPi.value < pi
      invariant Glob(pattern, text) == Scan(pattern, text, pi, ti, starPi, starTi)
      decreases |pattern| - (if starPi.Some? then starPi.value + 1 else 0), |text| - starTi, |text| - ti
    {
      if pi < |pattern| && (pattern[pi] == QUESTION || pattern[pi] == text[ti]) {
        pi := pi + 1;
        ti := ti + 1;
      } else if pi < |pattern| && pattern[pi] == STAR {
        starPi := Some(pi);
        starTi := ti;
        pi := pi + 1;
      } else if starPi.Some? {
        pi := starPi.value + 1;
        starTi := starTi + 1;
        ti := starTi;
      } else {
        return false;
      }
    }
    while pi < |pattern| && pattern[pi] == STAR
      invariant 0 <= pi <= |pattern|
      invariant Glob(pattern, text) == OnlyStars(pattern, pi)
    {
      pi := pi + 1;
    }
    r := pi == |pattern|;
  }

  // ----- Soundness -----

  lemma {:induction false} MatchesConcat(p: seq<byte>, t: seq<byte>, q: seq<byte>, u: seq<byte>)
    requires Matches(p, t) && Matches(q, u)
    ensures Matches(p + q, t + u)
    decreases |p|
  {
    if p == [] {
      assert p + q == q && t + u == u;
    } else {
      assert (p + q)[1..] == p[1..] + q;
      if p[0] == STAR {
        var k :| 0 <= k <= |t| && Matches(p[1..], t[k..]);
        MatchesConcat(p[1..], t[k..], q, u);
        assert (t + u)[k..] == t[k..] + u;
      } else {
        MatchesConcat(p[1..], t[1..], q, u);
        assert (t + u)[1..] == t[1..] + u;
      }
    }
  }

  lemma {:induction false} StarMatchesAny(t: seq<byte>)
    ensures Matches([STAR], t)
  {
    assert Matches([], t[|t|..]);
    assert [STAR][1..] == [];
  }

  lemma {:induction false} StarsMatchNothing(p: seq<byte>)
    requires OnlyStars(p, 0)
    ensures Matches(p, [])
  {
    if p != [] {
      StarsMatchNothing(p[1..]);
      var none: seq<byte> := [];
      assert none[0..] == none;
    }
  }

  /** What a match of the consumed prefix promises once a star is saved. */
  ghost predicate StarReaches(p: seq<byte>, t: seq<byte>, star: nat, starTi: nat)
    requires star < |p| && starTi <= |t|
  {
    forall j :: starTi <= j <= |t| ==> Matches(p[..star + 1], t[..j])
  }

  lemma ExtendLiteral(p: seq<byte>, t: seq<byte>, pi: nat, ti: nat)
    requires pi < |p| && ti < |t| && Matches(p[..pi], t[..ti])
    requires p[pi] == QUESTION || p[pi] == t[ti]
    ensures Matches(p[..pi + 1], t[..ti + 1])
  {
    if p[pi] == STAR {
      StarMatchesAny([t[ti]]);
    }
    assert [t[ti]][1..] == [] && [p[pi]][1..] == [];
    assert Matches([p[pi]], [t[ti]]);
    MatchesConcat(p[..pi], t[..ti], [p[pi]], [t[ti]]);
    assert p[..pi + 1] == p[..pi] + [p[pi]] && t[..ti + 1] == t[..ti] + [t[ti]];
  }

  lemma ExtendStar(p: seq<byte>, t: seq<byte>, pi: nat, ti: nat)
    requires pi < |p| && ti <= |t| && Matches(p[..pi], t[..ti]) && p[pi] == STAR
    ensures StarReaches(p, t, pi, ti)
  {
    forall j | ti <= j <= |t|
      ensures Matches(p[..pi + 1], t[..j])
    {
      StarMatchesAny(t[ti..j]);
      MatchesConcat(p[..pi], t[..ti], [STAR], t[ti..j]);
      assert p[..pi + 1] == p[..pi] + [STAR] && t[..j] == t[..ti] + t[ti..j];
    }
  }

  lemma {:induction false} ScanIsSound(p: seq<byte>, t: seq<byte>, pi: nat, ti: nat, star: Option<nat>, starTi: nat)
    requires pi <= |p| && starTi <= ti <= |t|
    requires star.Some? ==> star.value < pi && StarReaches(p, t, star.value, starTi)
    requires Matches(p[..pi], t[..ti])
    requires Scan(p, t, pi, ti, star, starTi)
    ensures Matches(p, t)
    decreases |p| - (if star.Some? then star.value + 1 else 0), |t| - starTi, |t| - ti
  {
    if ti == |t| {
      StarsMatchNothing(p[pi..]);
      MatchesConcat(p[..pi], t[..ti], p[pi..], []);
      assert p == p[..pi] + p[pi..] && t[..ti] + [] == t;
    } else if pi < |p| && (p[pi] == QUESTION || p[pi] == t[ti]) {
      ExtendLiteral(p, t, pi, ti);
      ScanIsSound(p, t, pi + 1, ti + 1, star, starTi);
    } else if pi < |p| && p[pi] == STAR {
      ExtendStar(p, t, pi, ti);
      assert Matches(p[..pi + 1], t[..ti]);
      ScanIsSound(p, t, pi + 1, ti, Some(pi), ti);
    } else {
      ScanIsSound(p, t, star.value + 1, starTi + 1, star, starTi + 1);
    }
  }

  /** Whatever the text, an accepted pair really matches. */
  lemma {:induction false} GlobIsSound(p: seq<byte>, t: seq<byte>)
    ensures Glob(p, t) ==> Matches(p, t)
  {
    if Glob(p, t) {
      assert p[..0] == [] && t[..0] == [];
      ScanIsSound(p, t, 0, 0, None, 0);
    }
  }

  // ----- Completeness -----

  lemma {:induction false} StarFreePrefix(q: seq<byte>, r: seq<byte>, w: seq<byte>)
    requires STAR !in q && Matches(q + r, w)
    ensures |q| <= |w| && Matches(r, w[|q|..])
  {
    if q == [] {
      assert q + r == r && w[0..] == w;
    } else {
      assert (q + r)[1..] == q[1..] + r;
      StarFreePrefix(q[1..], r, w[1..]);
      assert w[1..][|q| - 1..] == w[|q|..];
    }
  }

  lemma {:induction false} MatchesNothingIsStars(p: seq<byte>)
    requires Matches(p, [])
    ensures OnlyStars(p, 0)
  {
    if p != [] {
      MatchesNothingIsStars(p[1..]);
      assert forall j :: 1 <= j < |p| ==> p[j] == p[1..][j - 1];
    }
  }

  /** A match is still possible: directly, or by letting the saved star take more bytes. */
  ghost predicate Possible(p: seq<byte>, t: seq<byte>, pi: nat, ti: nat, star: Option<nat>, starTi: nat)
    requires pi <= |p| && starTi <= ti <= |t|
    requires star.Some? ==> star.value < pi
  {
    match star
    case None => Matches(p[pi..], t[ti..])
    case Some(s) => exists k :: starTi <= k <= |t| && Matches(p[s + 1..], t[k..])
  }

  /** The state the loop keeps: no star between the saved one and the cursor. */
  ghost predicate Segmented(p: seq<byte>, t: seq<byte>, pi: nat, ti: nat, star: Option<nat>, starTi: nat) {
    && pi <= |p| && starTi <= ti <= |t|
    && (star.Some? ==>
          star.value < pi && STAR !in p[star.value + 1..pi] && pi - star.value - 1 == ti - starTi)
  }

  /** Any match that is still possible passes the cursor, at or after the current byte. */
  lemma PossibleAtCursor(p: seq<byte>, t: seq<byte>, pi: nat, s: nat, k: nat)
    requires s < pi <= |p| && k <= |t| && STAR !in p[s + 1..pi]
    requires Matches(p[s + 1..], t[k..])
    ensures k + (pi - s - 1) <= |t| && Matches(p[pi..], t[k + (pi - s - 1)..])
  {
    assert p[s + 1..] == p[s + 1..pi] + p[pi..];
    StarFreePrefix(p[s + 1..pi], p[pi..], t[k..]);
    assert t[k..][pi - s - 1..] == t[k + (pi - s - 1)..];
  }

  lemma PossiblePosition(p: seq<byte>, t: seq<byte>, pi: nat, ti: nat, star: Option<nat>, starTi: nat)
    returns (m: nat)
    requires Segmented(p, t, pi, ti, star, starTi) && Possible(p, t, pi, ti, star, starTi)
    ensures ti <= m <= |t| && Matches(p[pi..], t[m..])
    ensures star.None? ==> m == ti
  {
    m := ti;
    if star.Some? {
      var k: nat :| starTi <= k <= |t| && Matches(p[star.value + 1..], t[k..]);
      PossibleAtCursor(p, t, pi, star.value, k);
      m := k + (pi - star.value - 1);
    }
  }

  lemma PossibleWithNewStar(p: seq<byte>, t: seq<byte>, pi: nat, ti: nat, m: nat)
    requires pi < |p| && p[pi] == STAR && ti <= m <= |t| && Matches(p[pi..], t[m..])
    ensures Possible(p, t, pi + 1, ti, Some(pi), ti)
  {
    assert p[pi..][1..] == p[pi + 1..];
    var j :| 0 <= j <= |t[m..]| && Matches(p[pi + 1..], t[m..][j..]);
    assert t[m..][j..] == t[m + j..];
  }

  lemma PossibleAfterRetry(p: seq<byte>, t: seq<byte>, pi: nat, ti: nat, star: Option<nat>, starTi: nat)
    requires Segmented(p, t, pi, ti, star, starTi) && Possible(p, t, pi, ti, star, starTi)
    requires ti < |t| && star.Some?
    requires pi < |p| ==> p[pi] != QUESTION && p[pi] != t[ti] && p[pi] != STAR
    ensures Possible(p, t, star.value + 1, starTi + 1, star, starTi + 1)
  {
    var k: nat :| starTi <= k <= |t| && Matches(p[star.value + 1..], t[k..]);
    PossibleAtCursor(p, t, pi, star.value, k);
    assert k != starTi;
  }

  lemma PossibleAfterLiteral(p: seq<byte>, t: seq<byte>, pi: nat, ti: nat, star: Option<nat>, starTi: nat)
    requires Segmented(p, t, pi, ti, star, starTi) && Possible(p, t, pi, ti, star, starTi)
    requires ti < |t| && pi < |p| && p[pi] != STAR
    ensures Segmented(p, t, pi + 1, ti + 1, star, starTi) && Possible(p, t, pi + 1, ti + 1, star, starTi)
  {
    assert p[pi..][1..] == p[pi + 1..] && t[ti..][1..] == t[ti + 1..];
    if star.Some? {
      assert p[star.value + 1..pi + 1] == p[star.value + 1..pi] + [p[pi]];
    }
  }

  lemma {:induction false} ScanIsComplete(p: seq<byte>, t: seq<byte>, pi: nat, ti: nat, star: Option<nat>, starTi: nat)
    requires STAR !in t || STAR !in p
    requires Segmented(p, t, pi, ti, star, starTi) && Possible(p, t, pi, ti, star, starTi)
    ensures Scan(p, t, pi, ti, star, starTi)
    decreases |p| - (if star.Some? then star.value + 1 else 0), |t| - starTi, |t| - ti
  {
    var m := PossiblePosition(p, t, pi, ti, star, starTi);
    if ti == |t| {
      assert t[m..] == [];
      MatchesNothingIsStars(p[pi..]);
      assert forall j :: pi <= j < |p| ==> p[j] == p[pi..][j - pi];
    } else if pi < |p| && (p[pi] == QUESTION || p[pi] == t[ti]) {
      PossibleAfterLiteral(p, t, pi, ti, star, starTi);
      ScanIsComplete(p, t, pi + 1, ti + 1, star, starTi);
    } else if pi < |p| && p[pi] == STAR {
      PossibleWithNewStar(p, t, pi, ti, m);
      ScanIsComplete(p, t, pi + 1, ti, Some(pi), ti);
    } else if star.Some? {
      PossibleAfterRetry(p, t, pi, ti, star, starTi);
      ScanIsComplete(p, t, star.value + 1, starTi + 1, star, starTi + 1);
    }
  }

  /** Retrying only the last star loses nothing unless a star faces a `*` byte of the text. */
  lemma {:induction false} GlobIsComplete(p: seq<byte>, t: seq<byte>)
    requires Matches(p, t)
    requires STAR !in t || STAR !in p
    ensures Glob(p, t)
  {
    assert p[0..] == p && t[0..] == t;
    ScanIsComplete(p, t, 0, 0, None, 0);
  }

  // ----- Exactly which texts are matched right -----

  function Questions(n: nat): seq<byte> {
    seq(n, _ => QUESTION)
  }

  lemma {:induction false} QuestionsMatch(t: seq<byte>)
    ensures Matches(Questions(|t|), t)
  {
    if t != [] {
      QuestionsMatch(t[1..]);
      assert Questions(|t|)[1..] == Questions(|t| - 1);
    }
  }

  /** A pattern that `t` matches but the loop rejects, because its star meets `t[i]`, a `*`. */
  function Trap(t: seq<byte>, i: nat): seq<byte>
    requires i < |t|
  {
    Questions(i) + [STAR] + Questions(|t| - i)
  }

  lemma {:induction false} TrapConsumedLiterally(t: seq<byte>, i: nat, n: nat)
    requires i < |t| && t[i] == STAR && n <= |t|
    ensures !Scan(Trap(t, i), t, n, n, None, 0)
    decreases |t| - n
  {
    if n < |t| {
      TrapConsumedLiterally(t, i, n + 1);
    } else {
      assert Trap(t, i)[n] == QUESTION;
    }
  }

  lemma {:induction false} TrapMatches(t: seq<byte>, i: nat)
    requires i < |t|
    ensures Matches(Trap(t, i), t)
  {
    if i == 0 {
      QuestionsMatch(t);
      assert Trap(t, 0)[1..] == Questions(|t|) && t[0..] == t;
    } else {
      TrapMatches(t[1..], i - 1);
      assert Trap(t, i)[1..] == Trap(t[1..], i - 1);
    }
  }

  /** Every pattern is answered correctly on `t` if and only if `t` holds no `*` byte. */
  lemma {:induction false} ExactTexts(t: seq<byte>)
    ensures (forall p :: Glob(p, t) == Matches(p, t)) <==> STAR !in t
  {
    if STAR !in t {
      forall p
        ensures Glob(p, t) == Matches(p, t)
      {
        GlobIsSound(p, t);
        if Matches(p, t) {
          GlobIsComplete(p, t);
        }
      }
    } else {
      var i: nat :| i < |t| && t[i] == STAR;
      TrapMatches(t, i);
      TrapConsumedLiterally(t, i, 0);
      assert Glob(Trap(t, i), t) != Matches(Trap(t, i), t);
    }
  }
}
