/** Deterministic selection of endpoint-disjoint data flows among the non-attacker nodes. */
module FlowPairs {
  import opened Finite
  import opened Sampling
  import opened Space

  const SERVER: nat := 0
  const CLIENT: nat := 1

  type Flow = (nat, nat)

  function Distance2(pos: seq<Vector>, a: nat, b: nat): real
    requires a < |pos| && b < |pos|
  {
    SquaredDistance(pos[a], pos[b])
  }

  /** Beyond the distance bound, which is zero: not co-located. */
  predicate Apart(pos: seq<Vector>, a: nat, b: nat) {
    a < |pos| && b < |pos| && pos[a] != pos[b]
  }

  /** The program's test: the distance exceeds the bound. */
  lemma ApartIsDistant(pos: seq<Vector>, a: nat, b: nat)
    requires a < |pos| && b < |pos|
    ensures Apart(pos, a, b) <==> Distance2(pos, a, b) > 0.0
  {
    DistanceIsNotNegative(pos[a], pos[b]);
    OnlyToItself(pos[a], pos[b]);
  }

  // ---------------------------------------------------------------------------
  // What a selection is
  // ---------------------------------------------------------------------------

  ghost predicate Candidate(n: nat, attackers: set<nat>, i: nat) {
    i < n && i !in attackers && i != SERVER && i != CLIENT
  }

  /** `(si, di)` are the indices picked from `cand`: the first pair that is apart, source index
      first, or the first two when every remaining pair is co-located. */
  ghost predicate IsPick(pos: seq<Vector>, cand: seq<nat>, si: nat, di: nat) {
    && si < |cand| && di < |cand| && si != di
    && if exists i, j :: ApartAt(pos, cand, i, j) then
         && ApartAt(pos, cand, si, di)
         && forall i, j :: ApartAt(pos, cand, i, j) ==> si < i || (si == i && di <= j)
       else
         si == 0 && di == 1
  }

  ghost predicate ApartAt(pos: seq<Vector>, cand: seq<nat>, i: int, j: int) {
    0 <= i < |cand| && 0 <= j < |cand| && i != j && Apart(pos, cand[i], cand[j])
  }

  function Without<T>(s: seq<T>, i: nat): seq<T>
    requires i < |s|
  {
    s[..i] + s[i + 1..]
  }

  /** `cand` after erasing two indices, the larger one first so that the smaller one stays valid. */
  function Remaining<T>(cand: seq<T>, si: nat, di: nat): (r: seq<T>)
    requires si < |cand| && di < |cand| && si != di
    ensures |r| == |cand| - 2
  {
    var hi, lo := if si < di then di else si, if si < di then si else di;
    Without(Without(cand, hi), lo)
  }

  ghost predicate PickStep(pos: seq<Vector>, mid: seq<nat>, si: nat, di: nat, flow: Flow, rest: seq<nat>) {
    IsPick(pos, mid, si, di) && flow == (mid[si], mid[di]) && rest == Remaining(mid, si, di)
  }

  /** Picking `flows`, one after the other, from `cand` leaves `rest`. */
  ghost predicate Selected(pos: seq<Vector>, cand: seq<nat>, flows: seq<Flow>, rest: seq<nat>)
    decreases |flows|
  {
    if flows == [] then rest == cand else
      var earlier, last := flows[..|flows| - 1], flows[|flows| - 1];
      exists mid, si, di :: Selected(pos, cand, earlier, mid) && PickStep(pos, mid, si, di, last, rest)
  }

  ghost function Endpoints(flows: seq<Flow>): (e: seq<nat>)
    ensures |e| == 2 * |flows|
  {
    if flows == [] then [] else
      var last := flows[|flows| - 1];
      Endpoints(flows[..|flows| - 1]) + [last.0, last.1]
  }

  // ---------------------------------------------------------------------------
  // Properties of a selection
  // ---------------------------------------------------------------------------

  lemma WithoutMultiset<T>(s: seq<T>, i: nat)
    requires i < |s|
    ensures multiset(s) == multiset(Without(s, i)) + multiset{s[i]}
  {
    assert s == s[..i] + [s[i]] + s[i + 1..];
  }

  lemma RemainingMultiset(cand: seq<nat>, si: nat, di: nat)
    requires si < |cand| && di < |cand| && si != di
    ensures multiset(cand) == multiset(Remaining(cand, si, di)) + multiset{cand[si], cand[di]}
  {
    var hi, lo := if si < di then di else si, if si < di then si else di;
    WithoutMultiset(cand, hi);
    WithoutMultiset(Without(cand, hi), lo);
  }

  lemma ConserveStep(cand: seq<nat>, e: seq<nat>, mid: seq<nat>, si: nat, di: nat, f: Flow)
    requires si < |mid| && di < |mid| && si != di && f == (mid[si], mid[di])
    requires multiset(cand) == multiset(e) + multiset(mid)
    ensures multiset(cand) == multiset(e + [f.0, f.1]) + multiset(Remaining(mid, si, di))
  {
    hide *;
    RemainingMultiset(mid, si, di);
  }

  /** Nothing is lost: the candidates are exactly the endpoints chosen plus those left over. */
  lemma {:induction false} SelectionConserves(pos: seq<Vector>, cand: seq<nat>, flows: seq<Flow>, rest: seq<nat>)
    requires Selected(pos, cand, flows, rest)
    ensures multiset(cand) == multiset(Endpoints(flows)) + multiset(rest)
    ensures |cand| == 2 * |flows| + |rest|
    decreases |flows|
  {
    hide Remaining, ApartAt;
    if flows != [] {
      var earlier, last := flows[..|flows| - 1], flows[|flows| - 1];
      var mid: seq<nat>, si, di :| Selected(pos, cand, earlier, mid) && PickStep(pos, mid, si, di, last, rest);
      SelectionConserves(pos, cand, earlier, mid);
      ConserveStep(cand, Endpoints(earlier), mid, si, di, last);
    }
  }

  lemma PickIsUnique(pos: seq<Vector>, cand: seq<nat>, si: nat, di: nat, sj: nat, dj: nat)
    requires IsPick(pos, cand, si, di) && IsPick(pos, cand, sj, dj)
    ensures si == sj && di == dj
  {
    hide Apart;
  }

  /** The selection is a function of the shuffled candidates: no choice is left open. */
  lemma {:induction false} SelectionIsDeterministic(pos: seq<Vector>, cand: seq<nat>, f: seq<Flow>, rf: seq<nat>,
                                                    g: seq<Flow>, rg: seq<nat>)
    requires Selected(pos, cand, f, rf) && Selected(pos, cand, g, rg) && |f| == |g|
    ensures f == g && rf == rg
    decreases |f|
  {
    hide IsPick, Remaining;
    if f != [] {
      var m := |f| - 1;
      var mf, si, di :| Selected(pos, cand, f[..m], mf) && PickStep(pos, mf, si, di, f[m], rf);
      var mg, sj, dj :| Selected(pos, cand, g[..m], mg) && PickStep(pos, mg, sj, dj, g[m], rg);
      SelectionIsDeterministic(pos, cand, f[..m], mf, g[..m], mg);
      PickIsUnique(pos, mf, si, di, sj, dj);
      assert f == f[..m] + [f[m]] && g == g[..m] + [g[m]];
    }
  }

  /** The nodes all stand in one place. */
  ghost predicate OnePosition(pos: seq<Vector>, nodes: seq<nat>) {
    forall i, j :: 0 <= i < |nodes| && 0 <= j < |nodes| ==> SamePosition(pos, nodes[i], nodes[j])
  }

  ghost predicate SamePosition(pos: seq<Vector>, a: nat, b: nat) {
    a < |pos| && b < |pos| ==> pos[a] == pos[b]
  }

  lemma OnePositionPart(pos: seq<Vector>, part: seq<nat>, all: seq<nat>)
    requires OnePosition(pos, all) && forall x :: x in part ==> x in all
    ensures OnePosition(pos, part)
  {
    hide SamePosition;
    forall i, j | 0 <= i < |part| && 0 <= j < |part| ensures SamePosition(pos, part[i], part[j]) {
      assert part[i] in all && part[j] in all;
      var k: int :| 0 <= k < |all| && all[k] == part[i];
      var l: int :| 0 <= l < |all| && all[l] == part[j];
    }
  }

  /** What one step takes and leaves were both there before. */
  lemma StepTakesAndLeaves(pos: seq<Vector>, mid: seq<nat>, si: nat, di: nat, flow: Flow, rest: seq<nat>)
    requires PickStep(pos, mid, si, di, flow, rest)
    ensures flow.0 in mid && flow.1 in mid && forall x :: x in rest ==> x in mid
  {
    hide ApartAt;
  }

  /** A step takes a co-located pair exactly when all that is left stands in one place. */
  lemma StepFallsBack(pos: seq<Vector>, mid: seq<nat>, si: nat, di: nat, flow: Flow, rest: seq<nat>)
    requires PickStep(pos, mid, si, di, flow, rest)
    ensures !Apart(pos, flow.0, flow.1) <==> OnePosition(pos, mid)
  {
    if OnePosition(pos, mid) {
      assert SamePosition(pos, mid[si], mid[di]);
    }
    if !Apart(pos, flow.0, flow.1) {
      forall i, j | 0 <= i < |mid| && 0 <= j < |mid| ensures SamePosition(pos, mid[i], mid[j]) {
        assert !ApartAt(pos, mid, i, j);
      }
    }
  }

  /** The nodes still to be used when flow `i` is chosen: its endpoints, those of later flows, and what is
      left over. */
  ghost function StillUnused(flows: seq<Flow>, i: nat, rest: seq<nat>): seq<nat>
    requires i <= |flows|
  {
    Endpoints(flows[i..]) + rest
  }

  lemma UnusedBeforeLast(flows: seq<Flow>, i: nat, rest: seq<nat>, mid: seq<nat>)
    requires i < |flows| && flows[|flows| - 1].0 in mid && flows[|flows| - 1].1 in mid
    requires forall x :: x in rest ==> x in mid
    ensures forall x :: x in StillUnused(flows, i, rest) ==> x in StillUnused(flows[..|flows| - 1], i, mid)
  {
    var m := |flows| - 1;
    assert flows[i..][..|flows[i..]| - 1] == flows[..m][i..];
    assert Endpoints(flows[i..]) == Endpoints(flows[..m][i..]) + [flows[m].0, flows[m].1];
  }

  /** Once a flow joins two co-located nodes, everything still unused stands in one place. */
  lemma {:induction false} FallbackLeavesOnePosition(pos: seq<Vector>, cand: seq<nat>, flows: seq<Flow>, rest: seq<nat>, i: nat)
    requires Selected(pos, cand, flows, rest)
    requires i < |flows| && !Apart(pos, flows[i].0, flows[i].1)
    ensures OnePosition(pos, StillUnused(flows, i, rest))
    decreases |flows|
  {
    hide PickStep, Apart, OnePosition, StillUnused;
    var m := |flows| - 1;
    var mid: seq<nat>, si: nat, di: nat :| Selected(pos, cand, flows[..m], mid) && PickStep(pos, mid, si, di, flows[m], rest);
    StepTakesAndLeaves(pos, mid, si, di, flows[m], rest);
    UnusedBeforeLast(flows, i, rest, mid);
    if i == m {
      StepFallsBack(pos, mid, si, di, flows[m], rest);
      NothingUsed(flows[..m], mid);
    } else {
      FallbackLeavesOnePosition(pos, cand, flows[..m], mid, i);
    }
    OnePositionPart(pos, StillUnused(flows, i, rest), StillUnused(flows[..m], i, mid));
  }

  lemma NothingUsed(flows: seq<Flow>, rest: seq<nat>)
    ensures StillUnused(flows, |flows|, rest) == rest
  {
  }

  lemma {:induction false} EndpointsHold(flows: seq<Flow>, j: nat)
    requires j < |flows|
    ensures flows[j].0 in Endpoints(flows) && flows[j].1 in Endpoints(flows)
    decreases |flows|
  {
    if j < |flows| - 1 {
      EndpointsHold(flows[..|flows| - 1], j);
    }
  }

  /** The fallback is taken only when it has to be: a flow joins two co-located nodes exactly when all
      nodes still unused stand in one place, and then so do all later flows. */
  lemma FallbackOnlyWhenCoLocated(pos: seq<Vector>, cand: seq<nat>, flows: seq<Flow>, rest: seq<nat>, i: nat)
    requires Selected(pos, cand, flows, rest) && i < |flows|
    ensures !Apart(pos, flows[i].0, flows[i].1) <==> OnePosition(pos, StillUnused(flows, i, rest))
    ensures !Apart(pos, flows[i].0, flows[i].1) ==> forall j :: i <= j < |flows| ==> !Apart(pos, flows[j].0, flows[j].1)
  {
    hide Selected, Apart;
    if !Apart(pos, flows[i].0, flows[i].1) {
      FallbackLeavesOnePosition(pos, cand, flows, rest, i);
    }
    if OnePosition(pos, StillUnused(flows, i, rest)) {
      forall j | i <= j < |flows| ensures !Apart(pos, flows[j].0, flows[j].1) {
        OnePositionFlow(pos, flows, i, rest, j);
      }
    }
  }

  lemma OnePositionFlow(pos: seq<Vector>, flows: seq<Flow>, i: nat, rest: seq<nat>, j: nat)
    requires i <= j < |flows| && OnePosition(pos, StillUnused(flows, i, rest))
    ensures !Apart(pos, flows[j].0, flows[j].1)
  {
    hide Endpoints;
    var unused := StillUnused(flows, i, rest);
    EndpointsHold(flows[i..], j - i);
    assert flows[i..][j - i] == flows[j];
    assert flows[j].0 in unused && flows[j].1 in unused;
    var a: int :| 0 <= a < |unused| && unused[a] == flows[j].0;
    var b: int :| 0 <= b < |unused| && unused[b] == flows[j].1;
    assert SamePosition(pos, unused[a], unused[b]);
  }

  lemma DistinctByMultiset(s: seq<nat>)
    requires forall x :: multiset(s)[x] <= 1
    ensures Distinct(s)
  {
    forall i, j | 0 <= i < j < |s| ensures s[i] != s[j] {
      assert s == s[..i] + [s[i]] + s[i + 1..];
      var a, b := s[..i], s[i + 1..];
      assert multiset(s) == multiset(a) + multiset{s[i]} + multiset(b);
      assert b[j - i - 1] == s[j];
      assert s[j] in multiset(b);
      assert multiset(s)[s[j]] >= multiset{s[i]}[s[j]] + multiset(b)[s[j]];
    }
  }

  lemma {:induction false} MultisetOfDistinct(s: seq<nat>)
    requires Distinct(s)
    ensures forall x :: multiset(s)[x] <= 1
    decreases |s|
  {
    if s != [] {
      var m := |s| - 1;
      assert s == s[..m] + [s[m]];
      MultisetOfDistinct(s[..m]);
      assert s[m] !in s[..m];
      assert s[m] !in multiset(s[..m]);
    }
  }

  lemma EndpointsAreCandidates(n: nat, attackers: set<nat>, pos: seq<Vector>, cand: seq<nat>, flows: seq<Flow>, rest: seq<nat>)
    requires Selected(pos, cand, flows, rest)
    requires Distinct(cand) && forall i: nat :: i in cand ==> Candidate(n, attackers, i)
    ensures Distinct(Endpoints(flows))
    ensures forall x: nat :: x in Endpoints(flows) ==> Candidate(n, attackers, x)
  {
    hide *;
    SelectionConserves(pos, cand, flows, rest);
    MultisetOfDistinct(cand);
    var e := Endpoints(flows);
    forall x | true ensures multiset(e)[x] <= 1 { assert multiset(e)[x] <= multiset(cand)[x]; }
    DistinctByMultiset(e);
    forall x: nat | x in e ensures Candidate(n, attackers, x) {
      assert x in multiset(e);
      assert x in multiset(cand);
    }
  }

  /** All `2F` endpoints are distinct nodes, and only flow 0, which is fixed, can touch an attacker. */
  lemma SelectionIsDisjoint(n: nat, attackers: set<nat>, pos: seq<Vector>, cand: seq<nat>, flows: seq<Flow>, rest: seq<nat>)
    requires Selected(pos, cand, flows, rest)
    requires Distinct(cand) && forall i: nat :: i in cand ==> Candidate(n, attackers, i)
    ensures Distinct(Endpoints([(CLIENT, SERVER)] + flows))
    ensures forall x: nat :: x in Endpoints(flows) ==> Candidate(n, attackers, x)
    ensures (forall x: nat :: x in Endpoints([(CLIENT, SERVER)] + flows) ==> x !in attackers)
            <==> SERVER !in attackers && CLIENT !in attackers
  {
    hide *;
    EndpointsAreCandidates(n, attackers, pos, cand, flows, rest);
    EndpointsCons((CLIENT, SERVER), flows);
    WithFlowZero(n, attackers, Endpoints(flows));
  }

  lemma WithFlowZero(n: nat, attackers: set<nat>, e: seq<nat>)
    requires Distinct(e) && forall x: nat :: x in e ==> Candidate(n, attackers, x)
    ensures Distinct([CLIENT, SERVER] + e)
    ensures (forall x: nat :: x in [CLIENT, SERVER] + e ==> x !in attackers) <==> SERVER !in attackers && CLIENT !in attackers
  {
    var all := [CLIENT, SERVER] + e;
    assert all[0] == CLIENT && all[1] == SERVER;
    forall i, j | 0 <= i < j < |all| ensures all[i] != all[j] {
      if j >= 2 {
        assert all[j] == e[j - 2] && e[j - 2] in e;
        if i >= 2 { assert all[i] == e[i - 2]; }
      }
    }
  }

  lemma {:induction false} EndpointsCons(f: Flow, flows: seq<Flow>)
    ensures Endpoints([f] + flows) == [f.0, f.1] + Endpoints(flows)
    decreases |flows|
  {
    var fs := [f] + flows;
    if flows == [] {
      assert fs[..0] == [];
    } else {
      var m := |flows| - 1;
      EndpointsCons(f, flows[..m]);
      assert fs[..m + 1] == [f] + flows[..m];
    }
  }

  // ---------------------------------------------------------------------------
  // The program
  // ---------------------------------------------------------------------------

  datatype Selection = Flows(flows: seq<Flow>) | Aborted

  method ShuffleCandidates(cand: seq<nat>, rng: WordStream) returns (r: seq<nat>)
    requires |cand| < RANGE && KeepsReturningLow(rng.words)
    modifies rng
    ensures ShuffledBy(rng.words, old(rng.next), rng.next, cand, r)
  {
    hide *;
    ghost var to, target := ShufflingStart(rng.words, rng.next, cand);
    r := cand;
    var i: nat := |cand|;
    while i > 1
      invariant i <= |r| == |cand|
      invariant Shuffling(rng.words, rng.next, to, target, r, i)
    {
      LowWordIsAccepted(rng.words, i, rng.next);
      ghost var start := rng.next;
      var j := Draw(rng, i);
      ShufflingStep(rng.words, start, to, target, r, i, rng.next - 1);
      r := Swap(r, i - 1, j);
      i := i - 1;
    }
    ShufflingEnd(rng.words, rng.next, to, target, r, i);
  }

  method CollectCandidates(n: nat, attackers: set<nat>) returns (cand: seq<nat>)
    ensures Distinct(cand) && |cand| <= n
    ensures forall i: nat :: i in cand <==> Candidate(n, attackers, i)
  {
    cand := [];
    for i := 0 to n
      invariant |cand| <= i
      invariant forall k :: 0 <= k < |cand| ==> cand[k] < i
      invariant Distinct(cand)
      invariant forall k: nat :: k in cand <==> k < i && Candidate(n, attackers, k)
    {
      if i in attackers { continue; }
      if i == SERVER || i == CLIENT { continue; }
      cand := cand + [i];
    }
  }

  /** Looks for the first pair that is apart, source index first. */
  method FindApart(pos: seq<Vector>, cand: seq<nat>) returns (made: bool, s: nat, d: nat)
    requires forall k :: 0 <= k < |cand| ==> cand[k] < |pos|
    ensures made ==> IsPick(pos, cand, s, d)
    ensures !made ==> NoneApart(pos, cand)
  {
    hide Distance2;
    made, s, d := false, 0, 0;
    for si := 0 to |cand|
      invariant forall i, j :: i < si ==> !ApartAt(pos, cand, i, j)
    {
      for di := 0 to |cand|
        invariant forall i, j :: i < si ==> !ApartAt(pos, cand, i, j)
        invariant forall j :: j < di ==> !ApartAt(pos, cand, si, j)
      {
        if di == si { continue; }
        ApartIsDistant(pos, cand[si], cand[di]);
        if Distance2(pos, cand[si], cand[di]) <= 0.0 { continue; }
        assert ApartAt(pos, cand, si, di);
        return true, si, di;
      }
    }
  }

  ghost predicate NoneApart(pos: seq<Vector>, cand: seq<nat>) {
    forall i, j :: !ApartAt(pos, cand, i, j)
  }

  lemma CoLocated(pos: seq<Vector>, cand: seq<nat>, i: nat, j: nat)
    requires i < |cand| && j < |cand| && i != j && cand[i] < |pos| && cand[j] < |pos|
    ensures Distance2(pos, cand[i], cand[j]) >= 0.0
    ensures NoneApart(pos, cand) ==> Distance2(pos, cand[i], cand[j]) == 0.0
  {
    hide SquaredDistance;
    DistanceIsNotNegative(pos[cand[i]], pos[cand[j]]);
    ApartIsDistant(pos, cand[i], cand[j]);
    assert ApartAt(pos, cand, i, j) <==> Distance2(pos, cand[i], cand[j]) > 0.0;
  }

  /** No pair of the rows below `a`, nor of row `a` before column `b`, is farther than `best`. */
  ghost predicate NoFarther(pos: seq<Vector>, cand: seq<nat>, a: nat, b: nat, best: real)
    requires forall k :: 0 <= k < |cand| ==> cand[k] < |pos|
  {
    forall i, j :: 0 <= i < |cand| && 0 <= j < |cand| && i != j && (i < a || (i == a && j < b)) ==>
      Distance2(pos, cand[i], cand[j]) <= best
  }

  lemma NoFartherStart(pos: seq<Vector>, cand: seq<nat>, best: real)
    requires forall k :: 0 <= k < |cand| ==> cand[k] < |pos|
    ensures NoFarther(pos, cand, 0, 0, best)
  {
  }

  lemma NoFartherStep(pos: seq<Vector>, cand: seq<nat>, a: nat, b: nat, best: real, better: real)
    requires forall k :: 0 <= k < |cand| ==> cand[k] < |pos|
    requires a < |cand| && b < |cand| && NoFarther(pos, cand, a, b, best) && best <= better
    requires a != b ==> Distance2(pos, cand[a], cand[b]) <= better
    ensures NoFarther(pos, cand, a, b + 1, better)
  {
    hide Distance2;
  }

  lemma NoFartherRow(pos: seq<Vector>, cand: seq<nat>, a: nat, best: real)
    requires forall k :: 0 <= k < |cand| ==> cand[k] < |pos|
    requires NoFarther(pos, cand, a, |cand|, best)
    ensures NoFarther(pos, cand, a + 1, 0, best)
  {
    hide Distance2;
  }

  /** The maximum-distance fallback.  When every pair is co-located all distances are zero, the first
      comparison against -1 wins, and the fallback always lands on the first two candidates. */
  method FindFarthest(pos: seq<Vector>, cand: seq<nat>) returns (bi: nat, bj: nat)
    requires forall k :: 0 <= k < |cand| ==> cand[k] < |pos|
    requires |cand| >= 2
    ensures bi < |cand| && bj < |cand| && bi != bj
    ensures NoFarther(pos, cand, |cand|, 0, Distance2(pos, cand[bi], cand[bj]))
    ensures NoneApart(pos, cand) ==> bi == 0 && bj == 1
  {
    hide *;
    bi, bj := 0, 1;
    var best := -1.0;
    NoFartherStart(pos, cand, best);
    for a := 0 to |cand|
      invariant bi < |cand| && bj < |cand| && bi != bj
      invariant if a == 0 then best == -1.0 else best >= 0.0 && best == Distance2(pos, cand[bi], cand[bj])
      invariant NoneApart(pos, cand) ==> bi == 0 && bj == 1
      invariant NoFarther(pos, cand, a, 0, best)
    {
      for b := 0 to |cand|
        invariant bi < |cand| && bj < |cand| && bi != bj
        invariant if a == 0 && b <= 1 then best == -1.0 else best >= 0.0 && best == Distance2(pos, cand[bi], cand[bj])
        invariant NoneApart(pos, cand) ==> bi == 0 && bj == 1
        invariant NoFarther(pos, cand, a, b, best)
      {
        if a == b {
          NoFartherStep(pos, cand, a, b, best, best);
          continue;
        }
        var d := Distance2(pos, cand[a], cand[b]);
        CoLocated(pos, cand, a, b);
        NoFartherStep(pos, cand, a, b, best, if d > best then d else best);
        if d > best {
          best, bi, bj := d, a, b;
        }
      }
      NoFartherRow(pos, cand, a, best);
    }
  }

  /** `flows` come from the shuffled candidates: the fixed flow 0, then one pick after the other. */
  ghost predicate SelectedFrom(pos: seq<Vector>, attackers: set<nat>, words: nat -> word, from: nat, to: nat,
                               flows: seq<Flow>) {
    && flows != [] && flows[0] == (CLIENT, SERVER)
    && exists cand: seq<nat>, shuffled: seq<nat>, rest: seq<nat> ::
         && Distinct(cand) && (forall i: nat :: i in cand <==> Candidate(|pos|, attackers, i))
         && ShuffledBy(words, from, to, cand, shuffled)
         && Selected(pos, shuffled, flows[1..], rest)
  }

  method SelectDataFlowPairs(pos: seq<Vector>, attackers: set<nat>, flowCount: nat, rng: WordStream)
    returns (r: Selection)
    requires flowCount >= 1 && |pos| < RANGE && KeepsReturningLow(rng.words)
    modifies rng
    // The guard: enough candidates for endpoint-disjoint flows.
    ensures r.Aborted? <==> |CandidateSet(|pos|, attackers)| + 2 < 2 * flowCount
    // Otherwise exactly `flowCount` flows.
    ensures r.Flows? ==> |r.flows| == flowCount
    ensures r.Flows? ==> SelectedFrom(pos, attackers, rng.words, old(rng.next), rng.next, r.flows)
  {
    hide *;
    var n := |pos|;
    var flows: seq<Flow> := [(CLIENT, SERVER)];
    var cand := CollectCandidates(n, attackers);
    CandidateCount(n, attackers, cand);
    if |cand| + 2 < 2 * flowCount {
      return Aborted;
    }
    ghost var from, before := rng.next, cand;
    cand := ShuffleCandidates(cand, rng);
    ghost var shuffled := cand;
    SelectingStart(pos, attackers, rng.words, from, rng.next, before, shuffled);
    ghost var to := rng.next;
    while |flows| < flowCount
      invariant 1 <= |flows| <= flowCount && rng.next == to
      invariant Selecting(pos, shuffled, flows, cand)
      invariant |cand| + 2 * |flows| >= 2 * flowCount
    {
      SelectingBounds(pos, shuffled, flows, cand);
      var made, s, d := FindApart(pos, cand);
      if !made {
        s, d := FindFarthest(pos, cand);
        FallbackPick(pos, cand);
      }
      SelectingStep(pos, shuffled, flows, cand, s, d);
      EraseLargerFirst(cand, s, d);
      flows := flows + [(cand[s], cand[d])];
      // Erase the larger index first so the smaller one stays valid.
      var hi, lo := if s < d then d else s, if s < d then s else d;
      cand := Without(cand, hi);
      cand := Without(cand, lo);
    }
    SelectingEnd(pos, attackers, rng.words, from, to, before, shuffled, flows, cand);
    r := Flows(flows);
  }

  /** The state of the selection loop. */
  ghost predicate Selecting(pos: seq<Vector>, shuffled: seq<nat>, flows: seq<Flow>, cand: seq<nat>) {
    && flows != [] && flows[0] == (CLIENT, SERVER)
    && Selected(pos, shuffled, flows[1..], cand)
    && forall k :: 0 <= k < |cand| ==> cand[k] < |pos|
  }

  lemma SelectingStart(pos: seq<Vector>, attackers: set<nat>, words: nat -> word, from: nat, to: nat,
                       before: seq<nat>, shuffled: seq<nat>)
    requires ShuffledBy(words, from, to, before, shuffled)
    requires Distinct(before) && forall i: nat :: i in before <==> Candidate(|pos|, attackers, i)
    ensures |shuffled| == |before| && Selecting(pos, shuffled, [(CLIENT, SERVER)], shuffled)
  {
    hide ShuffledBy;
    ShuffledKeepsCandidates(words, from, to, before, shuffled, |pos|, attackers);
  }

  lemma SelectingBounds(pos: seq<Vector>, shuffled: seq<nat>, flows: seq<Flow>, cand: seq<nat>)
    requires Selecting(pos, shuffled, flows, cand)
    ensures forall k :: 0 <= k < |cand| ==> cand[k] < |pos|
  {
  }

  /** One more pick extends a selection. */
  lemma SelectedSnoc(pos: seq<Vector>, cand: seq<nat>, flows: seq<Flow>, mid: seq<nat>, si: nat, di: nat,
                     last: Flow, rest: seq<nat>)
    requires Selected(pos, cand, flows, mid) && PickStep(pos, mid, si, di, last, rest)
    ensures Selected(pos, cand, flows + [last], rest)
  {
    hide PickStep;
    var longer := flows + [last];
    assert longer[..|longer| - 1] == flows && longer[|longer| - 1] == last;
  }

  lemma PickIsStep(pos: seq<Vector>, cand: seq<nat>, si: nat, di: nat)
    requires IsPick(pos, cand, si, di)
    ensures si < |cand| && di < |cand| && si != di
    ensures PickStep(pos, cand, si, di, (cand[si], cand[di]), Remaining(cand, si, di))
  {
    hide Remaining;
  }

  /** Erasing the larger index first: both positions are valid, and exactly the pair is gone. */
  lemma EraseLargerFirst(cand: seq<nat>, si: nat, di: nat)
    requires si < |cand| && di < |cand| && si != di
    ensures var hi, lo := if si < di then di else si, if si < di then si else di;
            && hi < |cand| && |Without<nat>(cand, hi)| == |cand| - 1 && lo < |Without<nat>(cand, hi)|
            && Without<nat>(Without<nat>(cand, hi), lo) == Remaining<nat>(cand, si, di)
            && multiset(cand) == multiset(Remaining<nat>(cand, si, di)) + multiset{cand[si], cand[di]}
  {
    RemainingMultiset(cand, si, di);
  }

  lemma RemainingBounds(cand: seq<nat>, si: nat, di: nat, n: nat)
    requires si < |cand| && di < |cand| && si != di && forall k :: 0 <= k < |cand| ==> cand[k] < n
    ensures forall k :: 0 <= k < |Remaining<nat>(cand, si, di)| ==> Remaining<nat>(cand, si, di)[k] < n
  {
    WithoutBounds(cand, if si < di then di else si, n);
    WithoutBounds(Without(cand, if si < di then di else si), if si < di then si else di, n);
  }

  /** One turn of the loop extends the selection by the picked pair. */
  lemma SelectingStep(pos: seq<Vector>, shuffled: seq<nat>, flows: seq<Flow>, cand: seq<nat>, si: nat, di: nat)
    requires Selecting(pos, shuffled, flows, cand) && IsPick(pos, cand, si, di)
    ensures si < |cand| && di < |cand| && si != di
    ensures Selecting(pos, shuffled, flows + [(cand[si], cand[di])], Remaining<nat>(cand, si, di))
  {
    hide IsPick, Selected, PickStep, Without, Remaining;
    PickIsStep(pos, cand, si, di);
    var last := (cand[si], cand[di]);
    SelectedSnoc(pos, shuffled, flows[1..], cand, si, di, last, Remaining<nat>(cand, si, di));
    assert (flows + [last])[1..] == flows[1..] + [last];
    RemainingBounds(cand, si, di, |pos|);
  }

  lemma WithoutBounds(s: seq<nat>, i: nat, n: nat)
    requires i < |s| && forall k :: 0 <= k < |s| ==> s[k] < n
    ensures forall k :: 0 <= k < |Without(s, i)| ==> Without(s, i)[k] < n
  {
  }

  lemma SelectingEnd(pos: seq<Vector>, attackers: set<nat>, words: nat -> word, from: nat, to: nat,
                     cand: seq<nat>, shuffled: seq<nat>, flows: seq<Flow>, rest: seq<nat>)
    requires ShuffledBy(words, from, to, cand, shuffled)
    requires Distinct(cand) && forall i: nat :: i in cand <==> Candidate(|pos|, attackers, i)
    requires Selecting(pos, shuffled, flows, rest)
    ensures SelectedFrom(pos, attackers, words, from, to, flows)
  {
    hide ShuffledBy, Distinct, Candidate, Selected;
  }

  ghost function CandidateSet(n: nat, attackers: set<nat>): set<nat> {
    set i: nat | i < n && Candidate(n, attackers, i)
  }

  lemma CandidateCount(n: nat, attackers: set<nat>, cand: seq<nat>)
    requires Distinct(cand) && forall i: nat :: i in cand <==> Candidate(n, attackers, i)
    ensures |CandidateSet(n, attackers)| == |cand|
  {
    assert CandidateSet(n, attackers) == Elements(cand);
  }

  lemma ShuffledKeepsCandidates(words: nat -> word, from: nat, to: nat, before: seq<nat>, shuffled: seq<nat>,
                                n: nat, attackers: set<nat>)
    requires ShuffledBy(words, from, to, before, shuffled)
    requires Distinct(before) && forall i: nat :: i in before <==> Candidate(n, attackers, i)
    ensures Distinct(shuffled) && |shuffled| == |before|
    ensures forall i: nat :: i in shuffled <==> Candidate(n, attackers, i)
    ensures forall k :: 0 <= k < |shuffled| ==> shuffled[k] < n
  {
    hide *;
    ShuffledByIsPermutation(words, from, to, before, shuffled);
    MultisetOfDistinct(before);
    DistinctByMultiset(shuffled);
    forall i: nat ensures i in shuffled <==> i in before {
      assert i in shuffled <==> i in multiset(shuffled);
      assert i in before <==> i in multiset(before);
    }
    CandidatesBelow(shuffled, n, attackers);
  }

  lemma CandidatesBelow(s: seq<nat>, n: nat, attackers: set<nat>)
    requires forall i: nat :: i in s ==> Candidate(n, attackers, i)
    ensures forall k :: 0 <= k < |s| ==> s[k] < n
  {
    forall k | 0 <= k < |s| ensures s[k] < n {
      assert s[k] in s;
    }
  }

  lemma FallbackPick(pos: seq<Vector>, cand: seq<nat>)
    requires NoneApart(pos, cand) && |cand| >= 2
    ensures IsPick(pos, cand, 0, 1)
  {
    hide ApartAt;
  }

  /** What a selection is worth: all `2F` endpoints are distinct, and no attacker appears exactly when
      neither endpoint of the fixed flow 0 is one. */
  lemma SelectedFlowsAreDisjoint(pos: seq<Vector>, attackers: set<nat>, words: nat -> word, from: nat, to: nat,
                                 flows: seq<Flow>)
    requires SelectedFrom(pos, attackers, words, from, to, flows)
    ensures Distinct(Endpoints(flows))
    ensures forall x: nat :: x in Endpoints(flows[1..]) ==> Candidate(|pos|, attackers, x)
    ensures (forall x: nat :: x in Endpoints(flows) ==> x !in attackers) <==> SERVER !in attackers && CLIENT !in attackers
  {
    hide ShuffledBy, Distinct, Candidate, Selected, Endpoints;
    var cand: seq<nat>, shuffled: seq<nat>, rest: seq<nat> :|
      && Distinct(cand) && (forall i: nat :: i in cand <==> Candidate(|pos|, attackers, i))
      && ShuffledBy(words, from, to, cand, shuffled)
      && Selected(pos, shuffled, flows[1..], rest);
    ShuffledKeepsCandidates(words, from, to, cand, shuffled, |pos|, attackers);
    SelectionIsDisjoint(|pos|, attackers, pos, shuffled, flows[1..], rest);
    assert flows == [(CLIENT, SERVER)] + flows[1..];
  }

  // ---------------------------------------------------------------------------
  // The attackers of a run
  // ---------------------------------------------------------------------------

  /** A segment of the comma-separated attacker list: a number, or nothing that can be used. */
  datatype Segment = Number(id: nat) | Unusable

  ghost predicate Listed(segments: seq<Segment>, n: nat, id: nat) {
    Number(id) in segments && id < n && id != SERVER && id != CLIENT
  }

  /** Reads the attacker list: ids of nodes, except the two ends of flow 0; everything else is ignored. */
  method ParseAttackers(segments: seq<Segment>, n: nat) returns (ids: seq<nat>)
    ensures forall id: nat :: id in ids <==> Listed(segments, n, id)
  {
    ids := [];
    for i := 0 to |segments|
      invariant forall id: nat :: id in ids <==> Listed(segments[..i], n, id)
    {
      var seg := segments[i];
      assert segments[..i + 1] == segments[..i] + [seg];
      if seg.Unusable? { continue; }
      if seg.id < n && seg.id != SERVER && seg.id != CLIENT {
        ids := ids + [seg.id];
      }
    }
    assert segments[..|segments|] == segments;
  }

  /** With attackers read from such a list, no attacker is an endpoint of any flow. */
  lemma NoAttackerIsAnEndpoint(pos: seq<Vector>, segments: seq<Segment>, attackers: set<nat>, words: nat -> word,
                               from: nat, to: nat, flows: seq<Flow>)
    requires forall id: nat :: id in attackers <==> Listed(segments, |pos|, id)
    requires SelectedFrom(pos, attackers, words, from, to, flows)
    ensures forall x: nat :: x in Endpoints(flows) ==> x !in attackers
  {
    hide SelectedFrom, Endpoints, Distinct, Candidate;
    SelectedFlowsAreDisjoint(pos, attackers, words, from, to, flows);
    assert !Listed(segments, |pos|, SERVER) && !Listed(segments, |pos|, CLIENT);
  }
}
