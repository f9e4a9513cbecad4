/** Rejection sampling from raw 32-bit words, and the in-place Fisher-Yates shuffle built on it. */
module Sampling {
  import opened Finite

  const RANGE: nat := 0x1_0000_0000

  type word = x: nat | x < RANGE

  /** The generator: a fixed stream of raw words and the position of the next one. */
  class WordStream {
    const words: nat -> word
    var next: nat

    constructor (words: nat -> word)
      ensures this.words == words && next == 0
    {
      this.words := words;
      next := 0;
    }

    method Next() returns (r: word)
      modifies this
      ensures r == words(old(next)) && next == old(next) + 1
    {
      r := words(next);
      next := next + 1;
    }
  }

  /** The largest multiple of `bound` that fits in the range of a raw word. */
  function Limit(bound: nat): nat
    requires bound > 0
  {
    RANGE - RANGE % bound
  }

  /** The draw made from an accepted word. */
  function Reduce(w: nat, bound: nat): (r: nat)
    requires bound > 0
    ensures r < bound
  {
    w % bound
  }

  ghost predicate Accepted(words: nat -> word, bound: nat, k: nat)
    requires bound > 0
  {
    words(k) < Limit(bound)
  }

  /** `k` is the position of the first accepted word at or after `from`. */
  ghost predicate FirstAccepted(words: nat -> word, bound: nat, from: nat, k: nat)
    requires bound > 0
  {
    from <= k && Accepted(words, bound, k) && forall i :: from <= i < k ==> !Accepted(words, bound, i)
  }

  // ---------------------------------------------------------------------------
  // Why rejection sampling is unbiased
  // ---------------------------------------------------------------------------

  /** The words below `limit` that reduce to `r`. */
  ghost function WordsBelow(limit: nat, bound: nat, r: nat): set<nat>
    requires bound > 0
  {
    set w: nat | w < limit && Reduce(w, bound) == r
  }

  /** The accepted words that reduce to `r`. */
  ghost function WordsFor(bound: nat, r: nat): set<nat>
    requires bound > 0
  {
    WordsBelow(Limit(bound), bound, r)
  }

  lemma MulBounds(d: int, b: nat)
    ensures d >= 1 ==> d * b >= b
    ensures d <= -1 ==> d * b <= 0 - b
  {
  }

  lemma DivUnique(x: nat, q: nat, b: nat, r: nat)
    requires b > 0 && r < b && x == q * b + r
    ensures x / b == q && x % b == r
  {
    var d := x / b - q;
    assert x == (x / b) * b + x % b;
    assert d * b == r - x % b;
    MulBounds(d, b);
  }

  lemma LimitIsMultiple(bound: nat)
    requires 0 < bound < RANGE
    ensures Limit(bound) == (RANGE / bound) * bound
    ensures Limit(bound) / bound == RANGE / bound
  {
    DivUnique(Limit(bound), RANGE / bound, bound, 0);
  }

  /** One more multiple of `b` adds exactly one word of each residue. */
  lemma ResidueStep(b: nat, r: nat, q: nat, low: nat)
    requires r < b && low == q * b
    ensures WordsBelow(low + b, b, r) == WordsBelow(low, b, r) + {low + r}
  {
    forall w: nat | low <= w < low + b ensures w % b == w - low {
      DivUnique(w, q, b, w - low);
    }
  }

  /** Below `m` multiples of `b` there are exactly `m` words of each residue. */
  lemma {:induction false} ResidueCount(b: nat, r: nat, m: nat)
    requires r < b
    ensures |WordsBelow(m * b, b, r)| == m
  {
    if m == 0 {
      assert WordsBelow(0, b, r) == {};
    } else {
      ResidueCount(b, r, m - 1);
      ResidueStep(b, r, m - 1, (m - 1) * b);
      assert m * b == (m - 1) * b + b;
    }
  }

  /** Every residue is produced by the same number of accepted words. */
  lemma EveryResidueEquallyOften(bound: nat, r: nat)
    requires r < bound < RANGE
    ensures |WordsFor(bound, r)| == WordsPerResidue(bound)
  {
    LimitIsMultiple(bound);
    ResidueCount(bound, r, RANGE / bound);
  }

  /** Strictly more than half of all words are accepted, whatever the bound. */
  lemma MoreThanHalfAccepted(bound: nat)
    requires 0 < bound < RANGE
    ensures 2 * Limit(bound) > RANGE
  {
    if bound > RANGE / 2 {
      DivUnique(RANGE, 1, bound, RANGE - bound);
    }
  }

  /** A stream that keeps producing words of the lower half is accepted again and again, for any bound. */
  ghost predicate KeepsReturningLow(words: nat -> word) {
    forall p: nat :: ReturnsLow(words, p)
  }

  ghost predicate ReturnsLow(words: nat -> word, from: nat) {
    exists q: nat :: from <= q && words(q) < RANGE / 2
  }

  lemma {:induction false} FirstAcceptedExists(words: nat -> word, bound: nat, from: nat, upTo: nat)
    requires 0 < bound
    requires from <= upTo && Accepted(words, bound, upTo)
    ensures exists k: nat :: k <= upTo && FirstAccepted(words, bound, from, k)
    decreases upTo - from
  {
    if Accepted(words, bound, from) {
      assert FirstAccepted(words, bound, from, from);
    } else {
      FirstAcceptedExists(words, bound, from + 1, upTo);
      var k: nat :| k <= upTo && FirstAccepted(words, bound, from + 1, k);
      assert FirstAccepted(words, bound, from, k);
    }
  }

  lemma LowWordIsAccepted(words: nat -> word, bound: nat, from: nat)
    requires 0 < bound < RANGE && KeepsReturningLow(words)
    ensures exists q: nat :: from <= q && Accepted(words, bound, q)
  {
    assert ReturnsLow(words, from);
    var q: nat :| from <= q && words(q) < RANGE / 2;
    MoreThanHalfAccepted(bound);
    assert Accepted(words, bound, q);
  }

  /** One unbiased draw: the first accepted word from the current position, reduced. */
  method Draw(rng: WordStream, bound: nat) returns (r: nat)
    requires bound < RANGE
    requires bound > 0 ==> exists q: nat :: rng.next <= q && Accepted(rng.words, bound, q)
    modifies rng
    ensures bound == 0 ==> r == 0 && rng.next == old(rng.next)
    ensures bound > 0 ==>
              && r < bound && rng.next > old(rng.next)
              && FirstAccepted(rng.words, bound, old(rng.next), rng.next - 1)
              && r == Reduce(rng.words(rng.next - 1), bound)
  {
    if bound == 0 { return 0; }
    var limit := RANGE - RANGE % bound;
    ghost var from := rng.next;
    ghost var q: nat :| from <= q && Accepted(rng.words, bound, q);
    var w := rng.Next();
    while w >= limit
      invariant from < rng.next <= q + 1 && w == rng.words(rng.next - 1)
      invariant forall i: nat :: from <= i < rng.next - 1 ==> !Accepted(rng.words, bound, i)
      decreases q + 1 - rng.next
    {
      w := rng.Next();
    }
    r := Reduce(w, bound);
  }

  // ---------------------------------------------------------------------------
  // The shuffle as a function of its index choices
  // ---------------------------------------------------------------------------

  /** One index choice per step: `c[i - 1]` is the index drawn at step `i`, at most `i`. */
  ghost predicate IsChoice(c: seq<nat>) {
    forall i :: 0 <= i < |c| ==> c[i] <= i + 1
  }

  function Swap<T>(s: seq<T>, i: nat, j: nat): (r: seq<T>)
    requires i < |s| && j < |s|
    ensures |r| == |s| && r[i] == s[j] && r[j] == s[i]
  {
    s[i := s[j]][j := s[i]]
  }

  /** Number of index choices the shuffle of `n` items makes. */
  function Steps(n: nat): nat {
    if n == 0 then 0 else n - 1
  }

  /** The steps `|s| - 1` down to 1 of the shuffle applied to `s`. */
  ghost function Shuffled<T>(s: seq<T>, c: seq<nat>): (r: seq<T>)
    requires |c| == Steps(|s|) && IsChoice(c)
    ensures |r| == |s|
    decreases |s|
  {
    if |s| <= 1 then s else
      var t := Swap(s, |s| - 1, c[|c| - 1]);
      Shuffled(t[..|s| - 1], c[..|c| - 1]) + [t[|s| - 1]]
  }

  lemma ShuffledUnfolds<T>(s: seq<T>, c: seq<nat>)
    requires |s| > 1 && |c| == Steps(|s|) && IsChoice(c)
    ensures var t := Swap(s, |s| - 1, c[|c| - 1]);
            Shuffled(s, c) == Shuffled(t[..|s| - 1], c[..|c| - 1]) + [t[|s| - 1]]
  {
  }

  lemma SwapMultiset<T>(s: seq<T>, i: nat, j: nat)
    requires i < |s| && j < |s|
    ensures multiset(Swap(s, i, j)) == multiset(s)
  {
  }

  lemma ChoicePrefix(c: seq<nat>, n: nat)
    requires n > 1 && |c| == Steps(n) && IsChoice(c)
    ensures c != [] && |c[..|c| - 1]| == Steps(n - 1) && IsChoice(c[..|c| - 1]) && c[|c| - 1] < n
  {
  }

  lemma {:induction false} ShuffledIsPermutation<T>(s: seq<T>, c: seq<nat>)
    requires |c| == Steps(|s|) && IsChoice(c)
    ensures multiset(Shuffled(s, c)) == multiset(s)
    decreases |s|
  {
    hide *;
    if |s| <= 1 {
      ShuffledTrivially(s, c);
    } else {
      var n := |s|;
      ChoicePrefix(c, n);
      var t := Swap(s, n - 1, c[|c| - 1]);
      ShuffledUnfolds(s, c);
      ShuffledIsPermutation(t[..n - 1], c[..|c| - 1]);
      SnocMultiset(Shuffled(t[..n - 1], c[..|c| - 1]), t[..n - 1], t[n - 1]);
      assert t == t[..n - 1] + [t[n - 1]];
      SwapMultiset(s, n - 1, c[|c| - 1]);
    }
  }

  lemma ShuffledTrivially<T>(s: seq<T>, c: seq<nat>)
    requires |s| <= 1 && |c| == Steps(|s|) && IsChoice(c)
    ensures Shuffled(s, c) == s
  {
  }

  lemma SnocMultiset<T>(a: seq<T>, b: seq<T>, x: T)
    requires multiset(a) == multiset(b)
    ensures multiset(a + [x]) == multiset(b + [x])
  {
  }

  lemma SwapDistinct<T>(s: seq<T>, j: nat)
    requires Distinct(s) && j < |s| && |s| >= 1
    ensures Distinct(Swap(s, |s| - 1, j)[..|s| - 1])
  {
  }

  lemma SplitLast<T>(a: seq<T>, x: T, b: seq<T>, y: T)
    requires a + [x] == b + [y]
    ensures a == b && x == y
  {
    assert |a + [x]| == |b + [y]|;
    assert a == (a + [x])[..|a|] && b == (b + [y])[..|b|];
    assert x == (a + [x])[|a|] && y == (b + [y])[|b|];
  }

  /** Different index choices give different arrangements of distinct items ... */
  lemma {:induction false} ShuffledInjective<T>(s: seq<T>, c: seq<nat>, d: seq<nat>)
    requires |c| == |d| == Steps(|s|) && IsChoice(c) && IsChoice(d)
    requires Distinct(s) && Shuffled(s, c) == Shuffled(s, d)
    ensures c == d
    decreases |s|
  {
    if |s| > 1 {
      var n, m := |s|, |c| - 1;
      var t, u := Swap(s, n - 1, c[m]), Swap(s, n - 1, d[m]);
      SplitLast(Shuffled(t[..n - 1], c[..m]), t[n - 1], Shuffled(u[..n - 1], d[..m]), u[n - 1]);
      assert c[m] == d[m];
      SwapDistinct(s, c[m]);
      ShuffledInjective(t[..n - 1], c[..m], d[..m]);
      assert c == c[..m] + [c[m]] && d == d[..m] + [d[m]];
    }
  }

  lemma DropLastMultiset<T>(a: seq<T>, b: seq<T>, x: T)
    requires multiset(a + [x]) == multiset(b + [x])
    ensures multiset(a) == multiset(b)
  {
    assert multiset(a) == multiset(a + [x]) - multiset{x};
    assert multiset(b) == multiset(b + [x]) - multiset{x};
  }

  lemma FindLast<T>(s: seq<T>, p: seq<T>) returns (j: nat)
    requires multiset(s) == multiset(p) && |s| == |p| >= 1
    ensures j < |s| && s[j] == p[|p| - 1]
    ensures multiset(Swap(s, |s| - 1, j)[..|s| - 1]) == multiset(p[..|p| - 1])
  {
    var x := p[|p| - 1];
    assert x in multiset(p);
    assert x in s;
    j :| 0 <= j < |s| && s[j] == x;
    BringLast(s, p, j);
  }

  /** Once the swap has put the right item last, the rest is a rearrangement of the rest. */
  lemma BringLast<T>(s: seq<T>, p: seq<T>, j: nat)
    requires multiset(s) == multiset(p) && |s| == |p| >= 1 && j < |s| && s[j] == p[|p| - 1]
    ensures multiset(Swap(s, |s| - 1, j)[..|s| - 1]) == multiset(p[..|p| - 1])
  {
    var n := |s|;
    var t := Swap(s, n - 1, j);
    SwapMultiset(s, n - 1, j);
    var a, b, x := t[..n - 1], p[..n - 1], p[n - 1];
    assert t == a + [x] && p == b + [x];
    DropLastMultiset(a, b, x);
  }

  lemma ShuffledUnfold<T>(s: seq<T>, d: seq<nat>, j: nat)
    requires |s| > 1 && |d| == |s| - 2 && IsChoice(d) && j < |s|
    ensures IsChoice(d + [j])
    ensures Shuffled(s, d + [j]) ==
            Shuffled(Swap(s, |s| - 1, j)[..|s| - 1], d) + [Swap(s, |s| - 1, j)[|s| - 1]]
  {
    var c := d + [j];
    assert c[..|c| - 1] == d && c[|c| - 1] == j;
  }

  lemma SurjectiveStep<T>(s: seq<T>, p: seq<T>, j: nat, d: seq<nat>)
    requires |s| == |p| > 1 && j < |s| && s[j] == p[|p| - 1]
    requires |d| == |s| - 2 && IsChoice(d)
    requires Shuffled(Swap(s, |s| - 1, j)[..|s| - 1], d) == p[..|s| - 1]
    ensures IsChoice(d + [j]) && Shuffled(s, d + [j]) == p
  {
    hide Shuffled, Swap, IsChoice;
    ShuffledUnfold(s, d, j);
    assert p == p[..|s| - 1] + [p[|s| - 1]];
  }

  /** ... and every arrangement of `s` is reached by some index choices. */
  lemma {:induction false} ShuffledSurjective<T>(s: seq<T>, p: seq<T>) returns (c: seq<nat>)
    requires multiset(s) == multiset(p)
    ensures |c| == Steps(|s|) && IsChoice(c) && Shuffled(s, c) == p
    decreases |s|
  {
    SameLength(s, p);
    if |s| <= 1 {
      SingletonEqual(s, p);
      c := [];
    } else {
      var j := FindLast(s, p);
      hide *;
      var d := ShuffledSurjective(Swap(s, |s| - 1, j)[..|s| - 1], p[..|s| - 1]);
      StepsValue(|s|);
      SurjectiveStep(s, p, j, d);
      c := d + [j];
    }
  }

  lemma StepsValue(n: nat)
    requires n > 1
    ensures Steps(n) == n - 1 && Steps(n - 1) == n - 2
  {
  }

  lemma SameLength<T>(s: seq<T>, p: seq<T>)
    requires multiset(s) == multiset(p)
    ensures |s| == |p|
  {
    assert |multiset(s)| == |s| && |multiset(p)| == |p|;
  }

  lemma SingletonEqual<T>(s: seq<T>, p: seq<T>)
    requires multiset(s) == multiset(p) && |s| == |p| <= 1
    ensures s == p
  {
    if |s| == 1 {
      assert p[0] in multiset(p);
    }
  }

  // ---------------------------------------------------------------------------
  // Every permutation is equally likely
  // ---------------------------------------------------------------------------

  /** Accepted raw words, one per step: `w[i - 1]` is the word step `i` accepts for its bound `i + 1`. */
  ghost predicate AcceptedVector(w: seq<nat>) {
    forall i :: 0 <= i < |w| ==> w[i] < Limit(i + 2)
  }

  /** The index choices made from accepted raw words. */
  ghost function Choices(w: seq<nat>): (c: seq<nat>)
    ensures |c| == |w| && IsChoice(c)
    ensures forall i :: 0 <= i < |w| ==> c[i] == Reduce(w[i], i + 2)
  {
    seq(|w|, i requires 0 <= i < |w| => Reduce(w[i], i + 2))
  }

  /** The accepted raw word vectors that lead to the index choices `c`. */
  ghost function VectorsFor(c: seq<nat>): (v: set<seq<nat>>)
    requires IsChoice(c)
    ensures forall w :: w in v <==> |w| == |c| && AcceptedVector(w) && Choices(w) == c
  {
    if c == [] then {[]} else
      var m := |c| - 1;
      var v := Product(VectorsFor(c[..m]), WordsFor(m + 2, c[m]));
      VectorsForStep(c, VectorsFor(c[..m]), v);
      v
  }

  ghost function Product(a: set<seq<nat>>, b: set<nat>): set<seq<nat>> {
    set u, x | u in a && x in b :: u + [x]
  }

  lemma VectorDropLast(c: seq<nat>, w: seq<nat>)
    requires c != [] && IsChoice(c) && |w| == |c| && AcceptedVector(w) && Choices(w) == c
    ensures AcceptedVector(w[..|c| - 1]) && Choices(w[..|c| - 1]) == c[..|c| - 1]
    ensures w[|c| - 1] in WordsFor(|c| + 1, c[|c| - 1])
  {
    var m := |c| - 1;
    assert Choices(w)[m] == Reduce(w[m], m + 2);
    assert w[m] < Limit(m + 2);
    forall i | 0 <= i < m ensures w[..m][i] < Limit(i + 2) && Reduce(w[..m][i], i + 2) == c[i] {
      assert Choices(w)[i] == Reduce(w[i], i + 2);
    }
    assert Choices(w[..m]) == c[..m];
  }

  lemma VectorAddLast(c: seq<nat>, u: seq<nat>, x: nat)
    requires c != [] && IsChoice(c) && |u| == |c| - 1 && AcceptedVector(u) && Choices(u) == c[..|c| - 1]
    requires x in WordsFor(|c| + 1, c[|c| - 1])
    ensures AcceptedVector(u + [x]) && Choices(u + [x]) == c
  {
    var m, w := |c| - 1, u + [x];
    forall i | 0 <= i < |w| ensures w[i] < Limit(i + 2) && Reduce(w[i], i + 2) == c[i] {
      if i < m {
        assert u[i] < Limit(i + 2);
        assert Choices(u)[i] == c[..m][i];
      }
    }
    assert Choices(w) == c;
  }

  lemma VectorsForStep(c: seq<nat>, shorter: set<seq<nat>>, v: set<seq<nat>>)
    requires c != [] && IsChoice(c)
    requires forall w :: w in shorter <==> |w| == |c| - 1 && AcceptedVector(w) && Choices(w) == c[..|c| - 1]
    requires v == Product(shorter, WordsFor(|c| + 1, c[|c| - 1]))
    ensures forall w :: w in v <==> |w| == |c| && AcceptedVector(w) && Choices(w) == c
  {
    hide AcceptedVector, Choices, WordsFor;
    var m := |c| - 1;
    forall w: seq<nat> | |w| == |c| && AcceptedVector(w) && Choices(w) == c ensures w in v {
      VectorDropLast(c, w);
      assert w == w[..m] + [w[m]];
    }
    forall w | w in v ensures |w| == |c| && AcceptedVector(w) && Choices(w) == c {
      var u, x :| u in shorter && x in WordsFor(m + 2, c[m]) && w == u + [x];
      VectorAddLast(c, u, x);
    }
  }

  lemma {:induction false} ProductSize(a: set<seq<nat>>, b: set<nat>)
    ensures |Product(a, b)| == |a| * |b|
    decreases a
  {
    hide Product;
    if a == {} {
      ProductEmpty(b);
    } else {
      var u :| u in a;
      var rest := a - {u};
      ProductSize(rest, b);
      RowSize(u, b);
      var row := Product({u}, b);
      ProductSplit(a, u, b);
      forall w | w in row && w in Product(rest, b) ensures false {
        SplitRow(u, rest, b, w);
      }
      assert Product(rest, b) !! row;
      assert |a| * |b| == |rest| * |b| + |b|;
    }
  }

  lemma ProductEmpty(b: set<nat>)
    ensures Product({}, b) == {}
  {
  }

  lemma ProductSplit(a: set<seq<nat>>, u: seq<nat>, b: set<nat>)
    requires u in a
    ensures Product(a, b) == Product(a - {u}, b) + Product({u}, b)
  {
    forall w | w in Product(a, b) ensures w in Product(a - {u}, b) + Product({u}, b) {
      var t, x :| t in a && x in b && w == t + [x];
      if t == u { assert t in {u}; } else { assert t in a - {u}; }
    }
  }

  lemma SplitRow(u: seq<nat>, rest: set<seq<nat>>, b: set<nat>, w: seq<nat>)
    requires w in Product({u}, b) && w in Product(rest, b)
    ensures u in rest
  {
    var x :| x in b && w == u + [x];
    var t, y :| t in rest && y in b && w == t + [y];
    SplitLast(u, x, t, y);
  }

  lemma RowSplit(u: seq<nat>, b: set<nat>, x: nat)
    requires x in b
    ensures Product({u}, b) == Product({u}, b - {x}) + {u + [x]}
    ensures u + [x] !in Product({u}, b - {x})
  {
    var less := Product({u}, b - {x});
    forall w | w in Product({u}, b) ensures w in less + {u + [x]} {
      var y :| y in b && w == u + [y];
      if y != x { assert y in b - {x}; }
    }
    if u + [x] in less {
      var y :| y in b - {x} && u + [x] == u + [y];
      SplitLast(u, x, u, y);
    }
  }

  lemma {:induction false} RowSize(u: seq<nat>, b: set<nat>)
    ensures |Product({u}, b)| == |b|
    decreases b
  {
    if b == {} {
      assert Product({u}, b) == {};
    } else {
      var x :| x in b;
      RowSize(u, b - {x});
      RowSplit(u, b, x);
    }
  }

  /** The number of accepted words behind each residue. */
  ghost function WordsPerResidue(bound: nat): nat
    requires bound > 0
  {
    Limit(bound) / bound
  }

  /** The number of accepted raw word vectors behind each single outcome of an `n`-step draw. */
  ghost function WaysPerOutcome(steps: nat): nat
  {
    if steps == 0 then 1 else WaysPerOutcome(steps - 1) * WordsPerResidue(steps + 1)
  }

  lemma {:induction false} VectorsForSize(c: seq<nat>)
    requires IsChoice(c) && |c| + 1 < RANGE
    ensures |VectorsFor(c)| == WaysPerOutcome(|c|)
    decreases |c|
  {
    if c != [] {
      var m := |c| - 1;
      VectorsForSize(c[..m]);
      EveryResidueEquallyOften(m + 2, c[m]);
      ProductSize(VectorsFor(c[..m]), WordsFor(m + 2, c[m]));
    }
  }

  /** The shuffle is unbiased: every permutation `p` of distinct items `s` comes from exactly one
      vector of index choices, hence from the same number of accepted raw word vectors. */
  lemma ShuffleIsUniform<T>(s: seq<T>, p: seq<T>) returns (ways: set<seq<nat>>)
    requires Distinct(s) && multiset(s) == multiset(p) && |s| < RANGE
    ensures forall w :: w in ways <==> |w| == Steps(|s|) && AcceptedVector(w) && Shuffled(s, Choices(w)) == p
    ensures |ways| == WaysPerOutcome(Steps(|s|))
  {
    var c := ShuffledSurjective(s, p);
    ways := VectorsFor(c);
    VectorsForSize(c);
    forall w: seq<nat> | |w| == Steps(|s|) && AcceptedVector(w) && Shuffled(s, Choices(w)) == p ensures w in ways {
      ShuffledInjective(s, Choices(w), c);
    }
  }

  // ---------------------------------------------------------------------------
  // The in-place shuffle
  // ---------------------------------------------------------------------------

  /** Reading the stream from `from` to `to`, the steps `|w|` down to 1 accept exactly the words `w`. */
  ghost predicate Drawn(words: nat -> word, from: nat, to: nat, w: seq<nat>)
    decreases |w|
  {
    if w == [] then from == to else
      exists k: nat :: StepAccepts(words, from, k, w) && Drawn(words, k + 1, to, w[..|w| - 1])
  }

  ghost predicate StepAccepts(words: nat -> word, from: nat, k: nat, w: seq<nat>)
    requires w != []
  {
    FirstAccepted(words, |w| + 1, from, k) && w[|w| - 1] == words(k)
  }

  lemma {:induction false} DrawnExists(words: nat -> word, from: nat, steps: nat) returns (to: nat, w: seq<nat>)
    requires KeepsReturningLow(words) && steps + 1 < RANGE
    ensures |w| == steps && AcceptedVector(w) && Drawn(words, from, to, w)
    decreases steps
  {
    hide Limit;
    if steps == 0 {
      to, w := from, [];
    } else {
      LowWordIsAccepted(words, steps + 1, from);
      var q: nat :| from <= q && Accepted(words, steps + 1, q);
      FirstAcceptedExists(words, steps + 1, from, q);
      var k: nat :| k <= q && FirstAccepted(words, steps + 1, from, k);
      var u;
      to, u := DrawnExists(words, k + 1, steps - 1);
      w := u + [words(k)];
      assert w[..|w| - 1] == u;
      assert StepAccepts(words, from, k, w);
    }
  }

  lemma FirstAcceptedUnique(words: nat -> word, bound: nat, from: nat, k: nat, x: nat)
    requires bound > 0 && FirstAccepted(words, bound, from, k) && FirstAccepted(words, bound, from, x)
    ensures k == x
  {
  }

  /** The next word the shuffle accepts is the last entry of the words still to be drawn. */
  lemma DrawnNext(words: nat -> word, from: nat, to: nat, w: seq<nat>, k: nat)
    requires w != [] && Drawn(words, from, to, w) && FirstAccepted(words, |w| + 1, from, k)
    ensures w[|w| - 1] == words(k) && Drawn(words, k + 1, to, w[..|w| - 1])
  {
    var x: nat :| StepAccepts(words, from, x, w) && Drawn(words, x + 1, to, w[..|w| - 1]);
    FirstAcceptedUnique(words, |w| + 1, from, k, x);
  }

  /** Part-way through, with the words `left` still to be accepted, shuffling the first `|left| + 1`
      items of the current arrangement `s` gives `target`. */
  ghost predicate ShuffleRemains<T>(target: seq<T>, s: seq<T>, left: seq<nat>) {
    && |left| < |s|
    && target == Shuffled(s[..|left| + 1], Choices(left)) + s[|left| + 1..]
  }

  lemma LastChoice(w: seq<nat>)
    requires w != []
    ensures |Choices(w)| == |w| && Choices(w)[|w| - 1] == Reduce(w[|w| - 1], |w| + 1)
    ensures Choices(w)[..|w| - 1] == Choices(w[..|w| - 1])
  {
    hide Reduce;
  }

  lemma SwapInPrefix<T>(s: seq<T>, i: nat, j: nat)
    requires j <= i < |s|
    ensures Swap(s[..i + 1], i, j) == Swap(s, i, j)[..i + 1]
    ensures Swap(s, i, j)[i..] == [Swap(s, i, j)[i]] + s[i + 1..]
  {
  }

  /** One swap of the loop is one unfolding of `Shuffled`. */
  lemma ShuffleStep<T>(target: seq<T>, s: seq<T>, left: seq<nat>)
    requires left != [] && ShuffleRemains(target, s, left)
    ensures var i := |left|;
            var j := Reduce(left[i - 1], i + 1);
            j <= i && ShuffleRemains(target, Swap(s, i, j), left[..i - 1])
  {
    hide Reduce, Swap, Shuffled, Choices;
    var i := |left|;
    var j := Reduce(left[i - 1], i + 1);
    LastChoice(left);
    var t := Swap(s, i, j);
    ShuffledUnfolds(s[..i + 1], Choices(left));
    SwapInPrefix(s, i, j);
    assert t[..i + 1][..i] == t[..i] && t[..i + 1][i] == t[i];
  }

  /** `shuffled` is what the generator, advanced from `from` to `to`, makes of `before`. */
  ghost predicate ShuffledBy<T>(words: nat -> word, from: nat, to: nat, before: seq<T>, shuffled: seq<T>) {
    exists w :: ShuffledWith(words, from, to, before, shuffled, w)
  }

  ghost predicate ShuffledWith<T>(words: nat -> word, from: nat, to: nat, before: seq<T>, shuffled: seq<T>, w: seq<nat>) {
    && |w| == Steps(|before|) && AcceptedVector(w) && Drawn(words, from, to, w)
    && shuffled == Shuffled(before, Choices(w))
  }

  /** The state of the loop that has `i` items of `s` left to shuffle and will end with `target`. */
  ghost predicate Shuffling<T>(words: nat -> word, at: nat, to: nat, target: seq<T>, s: seq<T>, i: nat) {
    && |target| == |s| && i <= |s|
    && (s != [] ==> i > 0)
    && exists left :: |left| == Steps(i) && Drawn(words, at, to, left) && (s != [] ==> ShuffleRemains(target, s, left))
  }

  lemma ShufflingStart<T>(words: nat -> word, from: nat, s: seq<T>) returns (to: nat, target: seq<T>)
    requires KeepsReturningLow(words) && |s| < RANGE
    ensures Shuffling(words, from, to, target, s, |s|)
    ensures ShuffledBy(words, from, to, s, target)
  {
    var w;
    to, w := DrawnExists(words, from, Steps(|s|));
    target := Shuffled(s, Choices(w));
    assert s[..|s|] == s;
    assert ShuffledWith(words, from, to, s, target, w);
  }

  lemma ShufflingStep<T>(words: nat -> word, at: nat, to: nat, target: seq<T>, s: seq<T>, i: nat, k: nat)
    requires Shuffling(words, at, to, target, s, i) && 1 < i
    requires FirstAccepted(words, i, at, k)
    ensures i <= |s| && Shuffling(words, k + 1, to, target, Swap(s, i - 1, Reduce(words(k), i)), i - 1)
  {
    var left :| |left| == Steps(i) && Drawn(words, at, to, left) && (s != [] ==> ShuffleRemains(target, s, left));
    DrawnNext(words, at, to, left, k);
    ShuffleStep(target, s, left);
  }

  lemma ShufflingEnd<T>(words: nat -> word, at: nat, to: nat, target: seq<T>, s: seq<T>, i: nat)
    requires Shuffling(words, at, to, target, s, i) && i <= 1
    ensures s == target && at == to
  {
    var left :| |left| == Steps(i) && Drawn(words, at, to, left) && (s != [] ==> ShuffleRemains(target, s, left));
    assert left == [];
    if s != [] {
      assert s == s[..1] + s[1..];
    }
  }

  /** Whatever the generator delivers, the result is a rearrangement of the input. */
  lemma ShuffledByIsPermutation<T>(words: nat -> word, from: nat, to: nat, before: seq<T>, shuffled: seq<T>)
    requires ShuffledBy(words, from, to, before, shuffled)
    ensures multiset(shuffled) == multiset(before) && |shuffled| == |before|
  {
    var w :| ShuffledWith(words, from, to, before, shuffled, w);
    ShuffledIsPermutation(before, Choices(w));
  }

  lemma {:induction false} DrawnOnce(words: nat -> word, from: nat, to: nat, w: seq<nat>, upTo: nat, u: seq<nat>)
    requires |w| == |u| && Drawn(words, from, to, w) && Drawn(words, from, upTo, u)
    ensures w == u && to == upTo
    decreases |w|
  {
    if w != [] {
      var k: nat :| StepAccepts(words, from, k, w) && Drawn(words, k + 1, to, w[..|w| - 1]);
      DrawnNext(words, from, upTo, u, k);
      DrawnOnce(words, k + 1, to, w[..|w| - 1], upTo, u[..|u| - 1]);
      assert w == w[..|w| - 1] + [w[|w| - 1]] && u == u[..|u| - 1] + [u[|u| - 1]];
    }
  }

  /** The generator alone determines the result. */
  lemma ShuffleIsReproducible<T>(words: nat -> word, from: nat, before: seq<T>, to: nat, p: seq<T>, upTo: nat, q: seq<T>)
    requires ShuffledBy(words, from, to, before, p) && ShuffledBy(words, from, upTo, before, q)
    ensures p == q && to == upTo
  {
    hide AcceptedVector, Drawn;
    var w :| ShuffledWith(words, from, to, before, p, w);
    var u :| ShuffledWith(words, from, upTo, before, q, u);
    DrawnOnce(words, from, to, w, upTo, u);
  }

  /** Choosing index 0 at every step moves the first item behind all others. */
  lemma {:induction false} ZeroChoicesRotate<T>(s: seq<T>, c: seq<nat>)
    requires s != [] && |c| == Steps(|s|) && forall i :: 0 <= i < |c| ==> c[i] == 0
    ensures IsChoice(c) && Shuffled(s, c) == s[1..] + [s[0]]
    decreases |s|
  {
    var n := |s|;
    if n > 1 {
      var t := Swap(s, n - 1, 0);
      ZeroChoicesRotate(t[..n - 1], c[..n - 2]);
      ShuffledUnfolds(s, c);
      assert t[..n - 1][1..] + [t[0]] == s[1..];
    }
  }

  lemma {:induction false} ZerosDrawn(words: nat -> word, from: nat, to: nat, w: seq<nat>)
    requires Drawn(words, from, to, w) && forall k: nat :: words(k) == 0
    ensures forall i :: 0 <= i < |w| ==> w[i] == 0
    decreases |w|
  {
    if w != [] {
      var k: nat :| StepAccepts(words, from, k, w) && Drawn(words, k + 1, to, w[..|w| - 1]);
      ZerosDrawn(words, k + 1, to, w[..|w| - 1]);
      assert w == w[..|w| - 1] + [0];
    }
  }

  /** A generator that delivers zeros only moves the first item behind all others. */
  lemma ZerosRotate<T>(words: nat -> word, from: nat, to: nat, before: seq<T>, shuffled: seq<T>)
    requires ShuffledBy(words, from, to, before, shuffled) && before != [] && forall k: nat :: words(k) == 0
    ensures shuffled == before[1..] + [before[0]]
  {
    hide AcceptedVector, Drawn;
    var w :| ShuffledWith(words, from, to, before, shuffled, w);
    ZerosDrawn(words, from, to, w);
    ZeroReduced(w);
    ZeroChoicesRotate(before, Choices(w));
  }

  lemma ZeroReduced(w: seq<nat>)
    requires forall i :: 0 <= i < |w| ==> w[i] == 0
    ensures forall i :: 0 <= i < |w| ==> Choices(w)[i] == 0
  {
  }

  method SwapInPlace(a: array<int>, i: nat, j: nat)
    requires i < a.Length && j < a.Length
    modifies a
    ensures a[..] == Swap(old(a[..]), i, j)
  {
    a[i], a[j] := a[j], a[i];
  }

  /** Shuffles the slot order in place.  The result is the function `Shuffled` of the index choices made
      from the words the generator accepts; `ShuffleIsUniform` says what that is worth. */
  method DeterministicShuffle(a: array<int>, rng: WordStream)
    requires 0 < a.Length < RANGE && KeepsReturningLow(rng.words)
    modifies a, rng
    ensures ShuffledBy(rng.words, old(rng.next), rng.next, old(a[..]), a[..])
  {
    hide *;
    ghost var to, target := ShufflingStart(rng.words, rng.next, a[..]);
    var i := a.Length - 1;
    while i > 0
      invariant 0 <= i < a.Length
      invariant Shuffling(rng.words, rng.next, to, target, a[..], i + 1)
    {
      LowWordIsAccepted(rng.words, i + 1, rng.next);
      ghost var start := rng.next;
      var j := Draw(rng, i + 1);
      ShufflingStep(rng.words, start, to, target, a[..], i + 1, rng.next - 1);
      SwapInPlace(a, i, j);
      i := i - 1;
    }
    ShufflingEnd(rng.words, rng.next, to, target, a[..], i + 1);
  }
}
