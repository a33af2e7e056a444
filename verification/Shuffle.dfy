/** The start-up shuffle of the providers: an in-place Fisher-Yates loop whose choices come from a linear
    congruential generator that wraps at 2^64. */
module Shuffle {
  import opened Arithmetic
  import opened Sequences

  const MULTIPLIER: int := 6364136223846793005

  function Lcg(seed: nat): nat {
    (seed * MULTIPLIER + 1) % TWO_64
  }

  // ----- the loop -------------------------------------------------------------------------------

  /** The i-th choice says which of the positions 0..i ends up at position i. */
  predicate IsChoice(js: seq<nat>) {
    forall i :: 0 <= i < |js| ==> js[i] <= i
  }

  function Swap<T>(s: seq<T>, i: nat, j: nat): (r: seq<T>)
    requires i < |s| && j < |s|
    ensures |r| == |s|
  {
    s[i := s[j]][j := s[i]]
  }

  /** The order that the choices `js` produce from `s`. */
  function Shuffled<T>(s: seq<T>, js: seq<nat>): (r: seq<T>)
    requires |js| == |s| && IsChoice(js)
    ensures |r| == |s|
    decreases |s|
  {
    if s == [] then []
    else
      var n := |s| - 1;
      var swapped := Swap(s, n, js[n]);
      Shuffled(swapped[..n], js[..n]) + [swapped[n]]
  }

  /** The choices the generator makes for n targets, starting from `seed`. */
  function Choices(seed: nat, n: nat): (js: seq<nat>)
    ensures |js| == n && IsChoice(js)
    decreases n
  {
    if n == 0 then [] else Choices(Lcg(seed), n - 1) + [Lcg(seed) % n]
  }

  /** The order that results when the first m positions are still to be settled, starting from `seed`. */
  ghost function FinalOrder<T>(all: seq<T>, seed: nat, m: nat): seq<T>
    requires m <= |all|
  {
    Shuffled(all[..m], Choices(seed, m)) + all[m..]
  }

  lemma ShuffledUnfolds<T>(s: seq<T>, js: seq<nat>)
    requires |js| == |s| && IsChoice(js) && s != []
    ensures var n := |s| - 1;
      && Shuffled(s, js)[..n] == Shuffled(Swap(s, n, js[n])[..n], js[..n])
      && Shuffled(s, js)[n] == s[js[n]]
      && Shuffled(s, js) == Shuffled(Swap(s, n, js[n])[..n], js[..n]) + [s[js[n]]]
  {}

  lemma ChoicesUnfold(seed: nat, n: nat)
    requires n > 0
    ensures Choices(seed, n)[..n - 1] == Choices(Lcg(seed), n - 1)
    ensures Choices(seed, n)[n - 1] == Lcg(seed) % n
  {}

  lemma SwapInFront<T>(all: seq<T>, i: nat, j: nat)
    requires j <= i < |all|
    ensures Swap(all[..i + 1], i, j)[..i] == Swap(all, i, j)[..i]
    ensures all[..i + 1][j] == all[j] && Swap(all, i, j)[i..] == [all[j]] + all[i + 1..]
  {}

  lemma Reassociate<T>(a: seq<T>, b: seq<T>, c: seq<T>)
    ensures (a + b) + c == a + (b + c)
  {}

  lemma SettleOne<T>(all: seq<T>, js: seq<nat>, i: nat)
    requires i < |all| && |js| == i + 1 && IsChoice(js)
    ensures var swapped := Swap(all, i, js[i]);
      Shuffled(all[..i + 1], js) + all[i + 1..] == Shuffled(swapped[..i], js[..i]) + swapped[i..]
  {
    var swapped := Swap(all, i, js[i]);
    ShuffledUnfolds(all[..i + 1], js);
    SwapInFront(all, i, js[i]);
    Reassociate(Shuffled(swapped[..i], js[..i]), [all[js[i]]], all[i + 1..]);
  }

  /** One round of the loop does not change the final order. */
  lemma Round<T>(all: seq<T>, seed: nat, next: nat, i: nat, j: nat)
    requires i < |all| && j <= i && Choices(seed, i + 1) == Choices(next, i) + [j]
    ensures FinalOrder(all, seed, i + 1) == FinalOrder(Swap(all, i, j), next, i)
  {
    var js := Choices(seed, i + 1);
    assert js[..i] == Choices(next, i) && js[i] == j;
    SettleOne(all, js, i);
  }

  lemma EverythingToSettle<T>(all: seq<T>, seed: nat)
    ensures FinalOrder(all, seed, |all|) == Shuffled(all, Choices(seed, |all|))
  {
    assert all[..|all|] == all;
  }

  lemma NothingToSettle<T>(all: seq<T>, seed: nat)
    requires all != []
    ensures FinalOrder(all, seed, 1) == all
  {
    assert Shuffled(all[..1], Choices(seed, 1)) == all[..1];
  }

  /** One step of the generator makes the last choice of the remaining vector. */
  method NextChoice(seed: nat, m: nat) returns (next: nat, j: nat)
    requires m > 0
    ensures Choices(seed, m) == Choices(next, m - 1) + [j] && j < m
  {
    next := (seed * MULTIPLIER + 1) % TWO_64;
    j := next % m;
  }

  /** The body of the loop: position i gets its target and the final order stays the same. */
  method SettlePosition<T>(targets: array<T>, seed: nat, i: nat) returns (next: nat)
    requires 0 < i < targets.Length
    modifies targets
    ensures FinalOrder(targets[..], next, i) == FinalOrder(old(targets[..]), seed, i + 1)
    ensures var j := Choices(seed, i + 1)[i];
      && j <= i && targets[i] == old(targets[j]) && targets[j] == old(targets[i])
      && forall k :: 0 <= k < targets.Length && k != i && k != j ==> targets[k] == old(targets[k])
  {
    ghost var all := targets[..];
    var j;
    next, j := NextChoice(seed, i + 1);
    targets[i], targets[j] := targets[j], targets[i];
    assert targets[..] == Swap(all, i, j);
    Round(all, seed, next, i, j);
  }

  method RandomizeProviders<T>(targets: array<T>, now: nat)
    modifies targets
    ensures targets[..] == Shuffled(old(targets[..]), Choices(now, targets.Length))
  {
    var n := targets.Length;
    if n == 0 { return; }
    var seed: nat := now;
    EverythingToSettle(targets[..], now);
    for i := n - 1 downto 0
      invariant FinalOrder(targets[..], seed, i + 1) == FinalOrder(old(targets[..]), now, n)
    {
      seed := SettlePosition(targets, seed, i + 1);
    }
    NothingToSettle(targets[..], seed);
  }

  // ----- the order is a permutation, and choices and permutations correspond one to one ----------

  lemma SwapPermutes<T>(s: seq<T>, i: nat, j: nat)
    requires i < |s| && j < |s|
    ensures multiset(Swap(s, i, j)) == multiset(s)
  {}

  lemma AppendPermutes<T>(a: seq<T>, b: seq<T>, x: T)
    ensures multiset(a) == multiset(b) <==> multiset(a + [x]) == multiset(b + [x])
  {
    assert multiset(a + [x]) == multiset(a) + multiset{x};
    assert multiset(b + [x]) == multiset(b) + multiset{x};
    assert multiset(a) == multiset(a + [x]) - multiset{x};
    assert multiset(b) == multiset(b + [x]) - multiset{x};
  }

  lemma {:induction false} ShuffledPermutes<T>(s: seq<T>, js: seq<nat>)
    requires |js| == |s| && IsChoice(js)
    ensures multiset(Shuffled(s, js)) == multiset(s)
    decreases |s|
  {
    if s != [] {
      var n := |s| - 1;
      var swapped := Swap(s, n, js[n]);
      ShuffledPermutes(swapped[..n], js[..n]);
      SwapPermutes(s, n, js[n]);
      ShuffledUnfolds(s, js);
      AppendPermutes(Shuffled(swapped[..n], js[..n]), swapped[..n], s[js[n]]);
      assert swapped == swapped[..n] + [s[js[n]]];
    }
  }

  lemma SwapKeepsDistinct<T(!new)>(s: seq<T>, i: nat, j: nat)
    requires Distinct(s) && i < |s| && j < |s|
    ensures Distinct(Swap(s, i, j)[..i])
  {}

  lemma SameFrontAndLast<T>(a: seq<T>, b: seq<T>)
    requires |a| == |b| > 0 && a[..|a| - 1] == b[..|b| - 1] && a[|a| - 1] == b[|b| - 1]
    ensures a == b
  {
    assert a == a[..|a| - 1] + [a[|a| - 1]] && b == b[..|b| - 1] + [b[|b| - 1]];
  }

  lemma {:induction false} ChoicesDetermined<T(!new)>(s: seq<T>, js: seq<nat>, ks: seq<nat>)
    requires Distinct(s) && |js| == |ks| == |s| && IsChoice(js) && IsChoice(ks)
    requires Shuffled(s, js) == Shuffled(s, ks)
    ensures js == ks
    decreases |s|
  {
    if s != [] {
      var n := |s| - 1;
      ShuffledUnfolds(s, js);
      ShuffledUnfolds(s, ks);
      assert js[n] == ks[n];
      SwapKeepsDistinct(s, n, js[n]);
      ChoicesDetermined(Swap(s, n, js[n])[..n], js[..n], ks[..n]);
      SameFrontAndLast(js, ks);
    }
  }

  lemma SameLength<T>(s: seq<T>, t: seq<T>)
    requires multiset(t) == multiset(s)
    ensures |s| == |t|
  {
    assert |s| == |multiset(s)| == |multiset(t)| == |t|;
  }

  lemma ShuffledByLast<T>(s: seq<T>, t: seq<T>, js: seq<nat>)
    requires |s| == |t| == |js| > 0 && IsChoice(js)
    requires var n := |s| - 1;
      s[js[n]] == t[n] && Shuffled(Swap(s, n, js[n])[..n], js[..n]) == t[..n]
    ensures Shuffled(s, js) == t
  {
    ShuffledUnfolds(s, js);
    SameFrontAndLast(Shuffled(s, js), t);
  }

  lemma PositionOf<T(!new)>(s: seq<T>, t: seq<T>, n: nat) returns (j: nat)
    requires multiset(t) == multiset(s) && n < |t|
    ensures j < |s| && s[j] == t[n]
  {
    assert t[n] in multiset(t);
    assert t[n] in multiset(s);
    j :| 0 <= j < |s| && s[j] == t[n];
  }

  lemma MoveToEnd<T(!new)>(s: seq<T>, t: seq<T>, n: nat, j: nat)
    requires multiset(t) == multiset(s) && |s| == |t| == n + 1 && j <= n && s[j] == t[n]
    ensures multiset(Swap(s, n, j)[..n]) == multiset(t[..n])
  {
    var swapped := Swap(s, n, j);
    SwapPermutes(s, n, j);
    assert swapped == swapped[..n] + [t[n]] && t == t[..n] + [t[n]];
    AppendPermutes(swapped[..n], t[..n], t[n]);
  }

  lemma {:induction false} ChoicesExist<T(!new)>(s: seq<T>, t: seq<T>) returns (js: seq<nat>)
    requires multiset(t) == multiset(s)
    ensures |js| == |s| == |t| && IsChoice(js) && Shuffled(s, js) == t
    decreases |s|
  {
    SameLength(s, t);
    if s == [] {
      js := [];
    } else {
      var n := |s| - 1;
      var j := PositionOf(s, t, n);
      MoveToEnd(s, t, n, j);
      var front := ChoicesExist(Swap(s, n, j)[..n], t[..n]);
      js := front + [j];
      assert js[..n] == front;
      IsChoiceFront(js);
      ShuffledByLast(s, t, js);
    }
  }

  /** For distinct targets every permutation comes from exactly one choice vector. */
  lemma ChoicesAreAPermutationCode<T(!new)>(s: seq<T>, t: seq<T>)
    requires Distinct(s)
    ensures multiset(t) == multiset(s) <==>
      exists js :: |js| == |s| && IsChoice(js) && Shuffled(s, js) == t
    ensures forall js, ks ::
      (|js| == |ks| == |s| && IsChoice(js) && IsChoice(ks) && Shuffled(s, js) == t == Shuffled(s, ks)) ==> js == ks
  {
    if multiset(t) == multiset(s) {
      var js := ChoicesExist(s, t);
    }
    forall js: seq<nat> | |js| == |s| && IsChoice(js) && Shuffled(s, js) == t ensures multiset(t) == multiset(s) {
      ShuffledPermutes(s, js);
    }
    forall js, ks: seq<nat> | |js| == |ks| == |s| && IsChoice(js) && IsChoice(ks) &&
                              Shuffled(s, js) == t && Shuffled(s, ks) == t
      ensures js == ks
    {
      ChoicesDetermined(s, js, ks);
    }
  }

  // ----- counting -------------------------------------------------------------------------------

  function Factorial(n: nat): nat {
    if n == 0 then 1 else Factorial(n - 1) * n
  }

  predicate IsExtension(u: seq<nat>, vectors: set<seq<nat>>, last: set<nat>) {
    u != [] && u[..|u| - 1] in vectors && u[|u| - 1] in last
  }

  ghost predicate AreExtensions(r: set<seq<nat>>, vectors: set<seq<nat>>, last: set<nat>) {
    forall u :: u in r <==> IsExtension(u, vectors, last)
  }

  lemma ExtensionsExist(vectors: set<seq<nat>>, last: set<nat>)
    ensures exists r :: AreExtensions(r, vectors, last)
  {
    var r := set v, j | v in vectors && j in last :: v + [j];
    forall u ensures u in r <==> IsExtension(u, vectors, last) {
      if IsExtension(u, vectors, last) {
        assert u == u[..|u| - 1] + [u[|u| - 1]];
      }
      if u in r {
        var v, j :| v in vectors && j in last && u == v + [j];
        assert u[..|u| - 1] == v;
      }
    }
    assert AreExtensions(r, vectors, last);
  }

  /** Every vector of `vectors` followed by every value of `last`. */
  ghost function Extend(vectors: set<seq<nat>>, last: set<nat>): (r: set<seq<nat>>)
    ensures AreExtensions(r, vectors, last)
  {
    ExtensionsExist(vectors, last);
    var r :| AreExtensions(r, vectors, last);
    r
  }

  lemma {:induction false} ExtendByOne(vectors: set<seq<nat>>, j: nat)
    ensures |Extend(vectors, {j})| == |vectors|
  {
    if vectors == {} {
      assert Extend(vectors, {j}) == {};
    } else {
      var v :| v in vectors;
      ExtendByOne(vectors - {v}, j);
      ExtendOneMore(vectors - {v}, v, j);
      assert vectors == (vectors - {v}) + {v};
    }
  }

  lemma ExtendOneMore(rest: set<seq<nat>>, v: seq<nat>, j: nat)
    requires v !in rest
    ensures |Extend(rest + {v}, {j})| == |Extend(rest, {j})| + 1
  {
    var u, vs := v + [j], Extend(rest, {j});
    assert u[..|u| - 1] == v;
    forall w ensures IsExtension(w, rest + {v}, {j}) <==> w in vs || w == u {
      if w != [] {
        assert w == w[..|w| - 1] + [w[|w| - 1]];
      }
    }
    assert Extend(rest + {v}, {j}) == vs + {u};
  }

  lemma ExtendSplits(vectors: set<seq<nat>>, rest: set<nat>, j: nat)
    requires j !in rest
    ensures |Extend(vectors, rest + {j})| == |Extend(vectors, rest)| + |Extend(vectors, {j})|
  {
    var a, b := Extend(vectors, rest), Extend(vectors, {j});
    assert a !! b;
    assert Extend(vectors, rest + {j}) == a + b;
  }

  lemma {:induction false} ExtendSize(vectors: set<seq<nat>>, last: set<nat>)
    ensures |Extend(vectors, last)| == |vectors| * |last|
  {
    if last == {} {
      assert Extend(vectors, last) == {};
    } else {
      var j :| j in last;
      var rest := last - {j};
      ExtendSize(vectors, rest);
      ExtendByOne(vectors, j);
      ExtendSplits(vectors, rest, j);
      assert last == rest + {j};
      Distribute(|vectors|, |rest|, 1);
    }
  }

  function Below(n: nat): (r: set<nat>)
    ensures forall j :: j in r <==> 0 <= j < n
    ensures |r| == n
  {
    if n == 0 then {} else Below(n - 1) + {n - 1}
  }

  /** All choice vectors for n targets. */
  ghost function ChoiceVectors(n: nat): set<seq<nat>> {
    if n == 0 then {[]} else Extend(ChoiceVectors(n - 1), Below(n))
  }

  lemma IsChoiceFront(js: seq<nat>)
    requires js != []
    ensures IsChoice(js) <==> IsChoice(js[..|js| - 1]) && js[|js| - 1] < |js|
  {
    assert js == js[..|js| - 1] + [js[|js| - 1]];
  }

  lemma {:induction false} ChoiceVectorsAreAll(n: nat, js: seq<nat>)
    ensures js in ChoiceVectors(n) <==> |js| == n && IsChoice(js)
  {
    if n == 0 {
      assert js in ChoiceVectors(0) <==> js == [];
    } else if js == [] {
      assert !IsExtension(js, ChoiceVectors(n - 1), Below(n));
    } else {
      ChoiceVectorsAreAll(n - 1, js[..|js| - 1]);
      IsChoiceFront(js);
    }
  }

  lemma {:induction false} ChoiceVectorsCount(n: nat)
    ensures |ChoiceVectors(n)| == Factorial(n)
  {
    if n > 0 {
      ChoiceVectorsCount(n - 1);
      ExtendSize(ChoiceVectors(n - 1), Below(n));
    }
  }

  /** The orders that a set of choice vectors produces. */
  ghost function Orders<T(!new)>(s: seq<T>, vectors: set<seq<nat>>): set<seq<T>>
    requires forall js :: js in vectors ==> |js| == |s| && IsChoice(js)
  {
    set js | js in vectors :: Shuffled(s, js)
  }

  lemma OrdersOneMore<T(!new)>(s: seq<T>, rest: set<seq<nat>>, js: seq<nat>)
    requires forall ks :: ks in rest ==> |ks| == |s| && IsChoice(ks)
    requires js !in rest && |js| == |s| && IsChoice(js)
    ensures |Orders(s, rest + {js})| <= |Orders(s, rest)| + 1
    ensures Distinct(s) ==> |Orders(s, rest + {js})| == |Orders(s, rest)| + 1
  {
    assert Orders(s, rest + {js}) == Orders(s, rest) + {Shuffled(s, js)};
    if Distinct(s) {
      forall ks | ks in rest ensures Shuffled(s, ks) != Shuffled(s, js) {
        if Shuffled(s, ks) == Shuffled(s, js) { ChoicesDetermined(s, ks, js); }
      }
    }
  }

  lemma {:induction false} OrdersSize<T(!new)>(s: seq<T>, vectors: set<seq<nat>>)
    requires forall js :: js in vectors ==> |js| == |s| && IsChoice(js)
    ensures |Orders(s, vectors)| <= |vectors|
    ensures Distinct(s) ==> |Orders(s, vectors)| == |vectors|
  {
    if vectors == {} {
      assert Orders(s, vectors) == {};
    } else {
      var js :| js in vectors;
      var rest := vectors - {js};
      OrdersSize(s, rest);
      assert vectors == rest + {js};
      OrdersOneMore(s, rest, js);
    }
  }

  /** All permutations of the targets. */
  ghost function Permutations<T(!new)>(s: seq<T>): (perms: set<seq<T>>)
    ensures forall t :: t in perms <==> multiset(t) == multiset(s)
  {
    forall js | js in ChoiceVectors(|s|) ensures |js| == |s| && IsChoice(js) {
      ChoiceVectorsAreAll(|s|, js);
    }
    forall t: seq<T> ensures t in Orders(s, ChoiceVectors(|s|)) <==> multiset(t) == multiset(s) {
      if multiset(t) == multiset(s) {
        var js := ChoicesExist(s, t);
        ChoiceVectorsAreAll(|s|, js);
      } else if t in Orders(s, ChoiceVectors(|s|)) {
        var js :| js in ChoiceVectors(|s|) && Shuffled(s, js) == t;
        ShuffledPermutes(s, js);
      }
    }
    Orders(s, ChoiceVectors(|s|))
  }

  lemma PermutationsCount<T(!new)>(s: seq<T>)
    requires Distinct(s)
    ensures |Permutations(s)| == Factorial(|s|)
  {
    forall js | js in ChoiceVectors(|s|) ensures |js| == |s| && IsChoice(js) {
      ChoiceVectorsAreAll(|s|, js);
    }
    var orders := Orders(s, ChoiceVectors(|s|));
    OrdersSize(s, ChoiceVectors(|s|));
    ChoiceVectorsCount(|s|);
    assert orders == Permutations(s);
  }

  // ----- the generator's low bits ---------------------------------------------------------------

  /** gcd(n, 2^k). */
  function PowerDividing(n: nat, k: nat): (q: nat)
    ensures q >= 1
  {
    if k == 0 || n % 2 == 1 then 1 else 2 * PowerDividing(n / 2, k - 1)
  }

  lemma {:induction false} PowerDivides(n: nat, k: nat)
    ensures n % PowerDividing(n, k) == 0 && Pow2(k) % PowerDividing(n, k) == 0
  {
    if k > 0 && n % 2 == 0 {
      PowerDivides(n / 2, k - 1);
      DoubleDivides(n / 2, PowerDividing(n / 2, k - 1));
      DoubleDivides(Pow2(k - 1), PowerDividing(n / 2, k - 1));
    }
  }

  lemma HalvesDivide(n: nat, d: nat)
    requires d > 0 && d % 2 == 0 && n % d == 0
    ensures n % 2 == 0 && (n / 2) % (d / 2) == 0
  {
    var h, q := d / 2, n / d;
    assert n == (2 * h) * q;
    Associate(2, h, q);
    RemainderUnique(n / 2, h, q, 0);
  }

  lemma OddProduct(e: nat, q: nat)
    requires q % 2 == 1
    ensures ((2 * e + 1) * q) % 2 == 1
  {
    assert (2 * e + 1) * q == 2 * (e * q) + q;
  }

  lemma OddDividesHalf(m: nat, d: nat)
    requires d % 2 == 1 && (2 * m) % d == 0
    ensures m % d == 0
  {
    var q := (2 * m) / d;
    assert 2 * m == d * q;
    var h, e := q / 2, d / 2;
    if q % 2 == 0 {
      Associate(d, 2, h);
      assert d * (2 * h) == 2 * (d * h);
      RemainderUnique(m, d, h, 0);
    } else {
      OddProduct(e, q);
      assert false;
    }
  }

  lemma {:induction false} OddDivisorOfPower(k: nat, d: nat)
    requires d % 2 == 1 && Pow2(k) % d == 0
    ensures d == 1
  {
    if k > 0 {
      OddDividesHalf(Pow2(k - 1), d);
      OddDivisorOfPower(k - 1, d);
    }
  }

  lemma {:induction false} CommonDivisorIsSmaller(n: nat, k: nat, d: nat)
    requires d > 0 && n % d == 0 && Pow2(k) % d == 0
    ensures d <= PowerDividing(n, k)
  {
    if d % 2 == 1 {
      OddDivisorOfPower(k, d);
    } else {
      HalvesDivide(n, d);
      HalvesDivide(Pow2(k), d);
      CommonDivisorIsSmaller(n / 2, k - 1, d / 2);
    }
  }

  /** PowerDividing is the greatest common divisor of n and 2^k. */
  lemma PowerDividingIsGcd(n: nat, k: nat)
    ensures n % PowerDividing(n, k) == 0 && Pow2(k) % PowerDividing(n, k) == 0
    ensures forall d: nat :: d > 0 && n % d == 0 && Pow2(k) % d == 0 ==> d <= PowerDividing(n, k)
  {
    PowerDivides(n, k);
    forall d: nat | d > 0 && n % d == 0 && Pow2(k) % d == 0 ensures d <= PowerDividing(n, k) {
      CommonDivisorIsSmaller(n, k, d);
    }
  }

  lemma {:induction false} Pow2Divides(j: nat, k: nat)
    requires j <= k
    ensures Pow2(k) % Pow2(j) == 0
  {
    if j < k {
      Pow2Divides(j, k - 1);
      DividesProduct(Pow2(k - 1), Pow2(j), 2);
    } else {
      RemainderOfSum(0, Pow2(j), 1);
    }
  }

  /** The low k bits of the seed evolve on their own. */
  function LowStep(low: nat, k: nat): nat {
    (low * MULTIPLIER + 1) % Pow2(k)
  }

  lemma LowBitsEvolve(seed: nat, k: nat)
    requires k <= 64
    ensures Lcg(seed) % Pow2(k) == LowStep(seed % Pow2(k), k)
  {
    var m := Pow2(k);
    Pow2Divides(k, 64);
    Pow2Of64();
    RemainderOfRemainder(seed * MULTIPLIER + 1, TWO_64, m);
    AffineRemainder(seed, MULTIPLIER, m);
  }

  /** The low bit of the seed flips in every round. */
  lemma LowBitFlips(seed: nat)
    ensures Lcg(seed) % 2 != seed % 2
  {
    LowBitsEvolve(seed, 1);
    assert Pow2(1) == 2;
  }

  /** The seed after m rounds. */
  function SeedAfter(seed: nat, m: nat): nat
    decreases m
  {
    if m == 0 then seed else SeedAfter(Lcg(seed), m - 1)
  }

  lemma {:induction false} SeedParity(seed: nat, m: nat)
    ensures SeedAfter(seed, m) % 2 == (seed + m) % 2
    decreases m
  {
    if m > 0 {
      LowBitFlips(seed);
      SeedParity(Lcg(seed), m - 1);
      ParityAfter(seed, Lcg(seed), m - 1);
    }
  }

  lemma ParityAfter(seed: nat, next: nat, m: nat)
    requires next % 2 != seed % 2
    ensures (next + m) % 2 == (seed + m + 1) % 2
  {}

  lemma {:induction false} ChoiceAt(seed: nat, n: nat, i: nat)
    requires i < n
    ensures Choices(seed, n)[i] == SeedAfter(seed, n - i) % (i + 1)
    decreases n
  {
    ChoicesUnfold(seed, n);
    if i < n - 1 {
      ChoiceAt(Lcg(seed), n - 1, i);
      assert Choices(seed, n)[i] == Choices(seed, n)[..n - 1][i];
    } else {
      assert SeedAfter(seed, 1) == Lcg(seed);
    }
  }

  lemma EvenModulus(x: nat, m: nat, r: nat)
    requires m > 0 && m % 2 == 0 && r == x % m
    ensures r % 2 == x % 2
  {
    RemainderOfRemainder(x, m, 2);
  }

  lemma OddChoiceParity(seed: nat, n: nat, i: nat)
    requires i < n && i % 2 == 1
    ensures Choices(seed, n)[i] % 2 == SeedAfter(seed, n - i) % 2
  {
    ChoiceAt(seed, n, i);
    var m := i + 1;
    EvenModulus(SeedAfter(seed, n - i), m, Choices(seed, n)[i]);
  }

  /** So all choices made at odd positions have the same parity. */
  lemma OddChoicesShareParity(seed: nat, n: nat, i: nat)
    requires i < n && i % 2 == 1
    ensures Choices(seed, n)[i] % 2 == (seed + n - i) % 2
  {
    OddChoiceParity(seed, n, i);
    SeedParity(seed, n - i);
  }

  /** The values below n that are congruent to r modulo q. */
  function Residues(n: nat, q: nat, r: nat): set<nat>
    requires q > 0
  {
    set j: nat | j < n && j % q == r % q
  }

  lemma {:induction false} ResiduesSize(blocks: nat, q: nat, r: nat)
    requires q > 0
    ensures |Residues(q * blocks, q, r)| == blocks
  {
    if blocks == 0 {
      assert Residues(q * blocks, q, r) == {};
    } else {
      ResiduesSize(blocks - 1, q, r);
      var lo := q * (blocks - 1);
      Distribute(q, blocks - 1, 1);
      var one := lo + r % q;
      forall j: nat | lo <= j < lo + q ensures j in Residues(q * blocks, q, r) <==> j == one {
        RemainderUnique(j, q, blocks - 1, j - lo);
      }
      assert Residues(q * blocks, q, r) == Residues(lo, q, r) + {one};
    }
  }

  lemma ResiduesCount(n: nat, q: nat, r: nat)
    requires q > 0 && n % q == 0
    ensures q * |Residues(n, q, r)| == n
  {
    assert n == q * (n / q);
    ResiduesSize(n / q, q, r);
  }

  /** The choice vectors that a seed with low bits `low` can make. */
  ghost function CorrelatedVectors(n: nat, low: nat, k: nat): set<seq<nat>> {
    if n == 0 then {[]}
    else
      var next := LowStep(low, k);
      Extend(CorrelatedVectors(n - 1, next, k), Residues(n, PowerDividing(n, k), next))
  }

  lemma {:induction false} ChoicesAreCorrelated(seed: nat, n: nat, k: nat)
    requires k <= 64
    ensures Choices(seed, n) in CorrelatedVectors(n, seed % Pow2(k), k)
    decreases n
  {
    if n > 0 {
      var next, q := Lcg(seed), PowerDividing(n, k);
      LowBitsEvolve(seed, k);
      ChoicesAreCorrelated(next, n - 1, k);
      PowerDivides(n, k);
      RemainderOfRemainder(next, n, q);
      RemainderOfRemainder(next, Pow2(k), q);
      assert next % n in Residues(n, q, LowStep(seed % Pow2(k), k));
      ChoicesUnfold(seed, n);
    }
  }

  lemma {:induction false} CorrelatedAreChoices(n: nat, low: nat, k: nat, js: seq<nat>)
    requires js in CorrelatedVectors(n, low, k)
    ensures |js| == n && IsChoice(js)
    decreases n
  {
    if n > 0 {
      var next := LowStep(low, k);
      CorrelatedAreChoices(n - 1, next, k, js[..|js| - 1]);
      IsChoiceFront(js);
    }
  }

  /** The factor by which fixing the low k bits thins out the n! choice vectors. */
  function Thinning(n: nat, k: nat): (t: nat)
    ensures t >= 1
  {
    if n == 0 then 1 else Thinning(n - 1, k) * PowerDividing(n, k)
  }

  lemma {:induction false} CorrelatedCount(n: nat, low: nat, k: nat)
    ensures Thinning(n, k) * |CorrelatedVectors(n, low, k)| == Factorial(n)
    decreases n
  {
    if n > 0 {
      var next, q := LowStep(low, k), PowerDividing(n, k);
      CorrelatedCount(n - 1, next, k);
      PowerDivides(n, k);
      ResiduesCount(n, q, next);
      var c, b := |CorrelatedVectors(n - 1, next, k)|, |Residues(n, q, next)|;
      ExtendSize(CorrelatedVectors(n - 1, next, k), Residues(n, q, next));
      Regroup(Thinning(n - 1, k), q, c, b);
    }
  }

  lemma Regroup(t: int, q: int, c: int, b: int)
    ensures (t * q) * (c * b) == (t * c) * (q * b)
  {
    assert (t * q) * (c * b) == t * (q * (c * b));
    assert q * (c * b) == c * (q * b);
    assert t * (c * (q * b)) == (t * c) * (q * b);
  }

  /** The union of family(0), ..., family(bound - 1). */
  ghost function UnionOf(family: nat -> set<seq<nat>>, bound: nat): set<seq<nat>> {
    if bound == 0 then {} else UnionOf(family, bound - 1) + family(bound - 1)
  }

  lemma {:induction false} UnionContents(family: nat -> set<seq<nat>>, bound: nat, js: seq<nat>)
    ensures js in UnionOf(family, bound) <==> exists low: nat :: low < bound && js in family(low)
  {
    if bound > 0 {
      UnionContents(family, bound - 1, js);
    }
  }

  lemma {:induction false} UnionCount(family: nat -> set<seq<nat>>, bound: nat, size: nat)
    requires forall low :: 0 <= low < bound ==> |family(low)| == size
    ensures |UnionOf(family, bound)| <= bound * size
  {
    if bound > 0 {
      UnionCount(family, bound - 1, size);
      var a, b := UnionOf(family, bound - 1), family(bound - 1);
      assert |a + b| <= |a| + |b|;
      Distribute(size, bound - 1, 1);
    }
  }

  /** The orders that one shuffle produces from some 64-bit start value. */
  ghost function ReachableOrders<T(!new)>(s: seq<T>): set<seq<T>> {
    set seed: nat | seed < TWO_64 :: Shuffled(s, Choices(seed, |s|))
  }

  lemma Cancel(t: nat, a: nat, b: nat)
    requires t > 0 && t * a == t * b
    ensures a == b
  {
    if a < b {
      MulMonotone(t, a + 1, b);
    } else if b < a {
      MulMonotone(t, b + 1, a);
    }
  }

  lemma ScaleBound(t: nat, r: nat, p: nat, c: nat)
    requires r <= p * c
    ensures t * r <= p * (t * c)
  {
    MulMonotone(t, r, p * c);
    Associate(t, p, c);
    Associate(p, t, c);
  }

  /** For every k up to 64 the reachable orders are at most 2^k / (gcd(1,2^k) * ... * gcd(n,2^k)) of n!. */
  lemma FewOrdersReachable<T(!new)>(s: seq<T>, k: nat)
    requires k <= 64
    ensures Thinning(|s|, k) * |ReachableOrders(s)| <= Pow2(k) * Factorial(|s|)
  {
    var n := |s|;
    var family := (low: nat) => CorrelatedVectors(n, low, k);
    var vectors := UnionOf(family, Pow2(k));
    var size := |family(0)|;
    CorrelatedCount(n, 0, k);
    forall low: nat | low < Pow2(k) ensures |family(low)| == size {
      CorrelatedCount(n, low, k);
      Cancel(Thinning(n, k), |family(low)|, size);
    }
    UnionCount(family, Pow2(k), size);
    forall js | js in vectors ensures |js| == n && IsChoice(js) {
      UnionContents(family, Pow2(k), js);
      var low: nat :| low < Pow2(k) && js in family(low);
      CorrelatedAreChoices(n, low, k, js);
    }
    forall seed: nat | seed < TWO_64 ensures Shuffled(s, Choices(seed, n)) in Orders(s, vectors) {
      ChoicesAreCorrelated(seed, n, k);
      assert Choices(seed, n) in family(seed % Pow2(k));
      UnionContents(family, Pow2(k), Choices(seed, n));
    }
    OrdersSize(s, vectors);
    SubsetSize(ReachableOrders(s), Orders(s, vectors));
    ScaleBound(Thinning(n, k), |ReachableOrders(s)|, Pow2(k), size);
  }

  lemma {:induction false} SubsetSize<T>(a: set<T>, b: set<T>)
    requires a <= b
    ensures |a| <= |b|
  {
    if a != {} {
      var x :| x in a;
      SubsetSize(a - {x}, b - {x});
    }
  }

  lemma AtMostHalf(t: nat, r: nat, f: nat)
    requires t >= 4 && t * r <= 2 * f
    ensures 2 * r <= f
  {
    MulMonotone(r, 4, t);
  }

  /** With four or more distinct targets one shuffle cannot produce at least half of all permutations. */
  lemma HalfTheOrdersAreUnreachable<T(!new)>(s: seq<T>)
    requires Distinct(s) && |s| >= 4
    ensures 2 * |ReachableOrders(s)| <= |Permutations(s)|
  {
    FewOrdersReachable(s, 1);
    PermutationsCount(s);
    ThinningOfFour(|s|);
    assert Pow2(1) == 2;
    AtMostHalf(Thinning(|s|, 1), |ReachableOrders(s)|, Factorial(|s|));
  }

  lemma {:induction false} ThinningOfFour(n: nat)
    requires n >= 4
    ensures Thinning(n, 1) >= 4
  {
    if n > 4 {
      ThinningOfFour(n - 1);
      MulMonotone(Thinning(n - 1, 1), 1, PowerDividing(n, 1));
    } else {
      assert PowerDividing(1, 1) == 1 && PowerDividing(2, 1) == 2;
      assert PowerDividing(3, 1) == 1 && PowerDividing(4, 1) == 2;
      assert Thinning(2, 1) == 2;
      assert Thinning(4, 1) == 4;
    }
  }
}
