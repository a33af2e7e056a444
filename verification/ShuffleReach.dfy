/** Which orders the shuffle can produce: within any short stretch of clock time, over all start values, and when
    it is repeated, as the program does at start-up when both the configuration and the command line ask for it. */
module ShuffleReach {
  import opened Arithmetic
  import opened Sequences
  import opened Shuffle

  // ----- neighbouring start values --------------------------------------------------------------

  /** k additions of `step`, wrapping at 2^64. */
  function Orbit(x: nat, step: nat, k: nat): nat {
    if k == 0 then x else (Orbit(x, step, k - 1) + step) % TWO_64
  }

  const STEP_2: nat := 12728272447693586010          // two nanoseconds, after one generator step
  const STEP_4: nat := 11636846823531788196          // four nanoseconds, after two generator steps

  lemma LcgOfSum(seed: nat, d: nat)
    ensures Lcg(seed + d) == (Lcg(seed) + d * MULTIPLIER) % TWO_64
  {
    Distribute(MULTIPLIER, seed, d);
    RemainderOfShift(seed * MULTIPLIER + 1, d * MULTIPLIER, TWO_64);
  }

  lemma LcgOfRemainder(x: nat)
    ensures Lcg(x % TWO_64) == Lcg(x)
  {
    AffineRemainder(x, MULTIPLIER, TWO_64);
  }

  lemma TwoApart(seed: nat)
    ensures Lcg(seed + 2) == (Lcg(seed) + STEP_2) % TWO_64
  {
    LcgOfSum(seed, 2);
  }

  lemma FourApart(seed: nat)
    ensures Lcg(Lcg(seed + 4)) == (Lcg(Lcg(seed)) + STEP_4) % TWO_64
  {
    var d := 4 * MULTIPLIER;
    LcgOfSum(seed, 4);
    LcgOfRemainder(Lcg(seed) + d);
    LcgOfSum(Lcg(seed), d);
    RemainderOfSum(Lcg(Lcg(seed)) + STEP_4, TWO_64, 8782521124343676969);
  }

  lemma {:induction false} OneStepOrbit(seed: nat, k: nat)
    ensures Lcg(seed + 2 * k) == Orbit(Lcg(seed), STEP_2, k)
  {
    if k > 0 {
      OneStepOrbit(seed, k - 1);
      TwoApart(seed + 2 * (k - 1));
    }
  }

  lemma {:induction false} TwoStepOrbit(seed: nat, k: nat)
    ensures Lcg(Lcg(seed + 4 * k)) == Orbit(Lcg(Lcg(seed)), STEP_4, k)
  {
    if k > 0 {
      TwoStepOrbit(seed, k - 1);
      FourApart(seed + 4 * (k - 1));
    }
  }

  /** An addition that wraps lowers the remainder modulo 3 by one, any other keeps it. */
  lemma WrapLowersResidue(x: nat, step: nat)
    requires x < TWO_64 && step < TWO_64 && step % 3 == 0
    ensures (x + step) % TWO_64 == if x + step < TWO_64 then x + step else x + step - TWO_64
    ensures ((x + step) % TWO_64) % 3 == if x + step < TWO_64 then x % 3 else (x + 2) % 3
  {
    RemainderUnique(x + step, TWO_64, if x + step < TWO_64 then 0 else 1,
      if x + step < TWO_64 then x + step else x + step - TWO_64);
  }

  lemma PlusTwo(x: nat, y: nat)
    requires x % 3 == y % 3
    ensures (x + 2) % 3 == (y + 2) % 3
  {}

  /** Of two additions of a large step at least one wraps. */
  lemma OneOfTwoWraps(x: nat, y: nat, z: nat, step: nat)
    requires x < TWO_64 && TWO_63 <= step < TWO_64 && step % 3 == 0
    requires y == (x + step) % TWO_64 && z == (y + step) % TWO_64
    ensures y < TWO_64 && z < TWO_64 && (y % 3 == (x + 2) % 3 || z % 3 == (x + 2) % 3)
  {
    WrapLowersResidue(x, step);
    WrapLowersResidue(y, step);
    if x + step < TWO_64 {
      PlusTwo(x, y);
    }
  }

  lemma TwoStepsLower(x: nat, step: nat) returns (k: nat)
    requires x < TWO_64 && TWO_63 <= step < TWO_64 && step % 3 == 0
    ensures k <= 2 && Orbit(x, step, k) % 3 == (x + 2) % 3 && Orbit(x, step, k) < TWO_64
  {
    var y, z := Orbit(x, step, 1), Orbit(x, step, 2);
    assert y == (Orbit(x, step, 0) + step) % TWO_64;
    OneOfTwoWraps(x, y, z, step);
    k := if y % 3 == (x + 2) % 3 then 1 else 2;
  }

  lemma {:induction false} OrbitAdds(x: nat, step: nat, j: nat, k: nat)
    ensures Orbit(Orbit(x, step, j), step, k) == Orbit(x, step, j + k)
  {
    if k > 0 {
      OrbitAdds(x, step, j, k - 1);
    }
  }

  lemma ThreeResidues(x: nat, y: nat, z: nat, r: nat)
    requires y % 3 == (x + 2) % 3 && z % 3 == (y + 2) % 3 && r < 3
    ensures x % 3 == r || y % 3 == r || z % 3 == r
  {
    RemainderOfShift(x, 2, 3);
    RemainderOfShift(y, 2, 3);
  }

  /** So every remainder modulo 3 comes up within four additions. */
  lemma HitResidue(x: nat, step: nat, r: nat) returns (k: nat)
    requires x < TWO_64 && TWO_63 <= step < TWO_64 && step % 3 == 0 && r < 3
    ensures k <= 4 && Orbit(x, step, k) % 3 == r
  {
    var i := TwoStepsLower(x, step);
    var y := Orbit(x, step, i);
    var j := TwoStepsLower(y, step);
    var z := Orbit(y, step, j);
    OrbitAdds(x, step, i, j);
    ThreeResidues(x, y, z, r);
    k := if x % 3 == r then 0 else if y % 3 == r then i else i + j;
  }

  // ----- choice vectors in a stretch of clock time ----------------------------------------------

  lemma FirstChoices(seed: nat)
    ensures Choices(seed, 0) == [] && Choices(seed, 1) == [0] && Choices(seed, 2) == [0, Lcg(seed) % 2]
    ensures Choices(seed, 3) == [0, Lcg(Lcg(seed)) % 2, Lcg(seed) % 3]
  {
    assert Choices(seed, 1) == Choices(Lcg(seed), 0) + [0];
    var next := Lcg(seed);
    assert Choices(next, 1) == Choices(Lcg(next), 0) + [0];
    assert Choices(seed, 2) == Choices(next, 1) + [next % 2];
    assert Choices(next, 2) == Choices(Lcg(next), 1) + [Lcg(next) % 2];
    assert Choices(Lcg(next), 1) == [0];
    assert Choices(seed, 3) == Choices(next, 2) + [next % 3];
  }

  lemma FourChoices(seed: nat)
    ensures Choices(seed, 4) == [0, Lcg(Lcg(Lcg(seed))) % 2, Lcg(Lcg(seed)) % 3, Lcg(seed) % 4]
  {
    var next := Lcg(seed);
    FirstChoices(next);
    assert Choices(seed, 4) == Choices(next, 3) + [next % 4];
  }

  lemma TwoSteps(seed: nat)
    ensures Lcg(Lcg(seed)) % 2 == seed % 2
  {
    LowBitFlips(seed);
    LowBitFlips(Lcg(seed));
  }

  lemma LcgBelow(seed: nat)
    ensures Lcg(seed) < TWO_64
  {}

  lemma StartOfParity(from: nat, b: nat) returns (start: nat)
    requires b < 2
    ensures from <= start < from + 2 && start % 2 == b
  {
    start := if from % 2 == b then from else from + 1;
  }

  lemma FlipsTo(seed: nat, b: nat)
    requires b < 2 && seed % 2 != b
    ensures Lcg(seed) % 2 == b
  {
    LowBitFlips(seed);
  }

  lemma PairInWindow(from: nat, b: nat) returns (seed: nat)
    requires b < 2
    ensures from <= seed < from + 2 && Lcg(seed) % 2 == b
  {
    seed := StartOfParity(from, 1 - b);
    FlipsTo(seed, b);
  }

  lemma SameRemainder(start: nat, m: nat, k: nat)
    requires m > 0
    ensures (start + m * k) % m == start % m
  {
    RemainderOfSum(start, m, k);
  }

  lemma SameThird(x: nat, y: nat, a: nat)
    requires x == y && y % 3 == a
    ensures x % 3 == a
  {}

  lemma HitByTwo(x: nat, a: nat) returns (k: nat)
    requires x < TWO_64 && a < 3
    ensures k <= 4 && Orbit(x, STEP_2, k) % 3 == a
  {
    k := HitResidue(x, STEP_2, a);
  }

  lemma HitByFour(x: nat, a: nat) returns (k: nat)
    requires x < TWO_64 && a < 3
    ensures k <= 4 && Orbit(x, STEP_4, k) % 3 == a
  {
    k := HitResidue(x, STEP_4, a);
  }

  lemma ThirdsByTwo(start: nat, a: nat) returns (k: nat)
    requires a < 3
    ensures k <= 4 && Lcg(start + 2 * k) % 3 == a
  {
    LcgBelow(start);
    k := HitByTwo(Lcg(start), a);
    OneStepOrbit(start, k);
    SameThird(Lcg(start + 2 * k), Orbit(Lcg(start), STEP_2, k), a);
  }

  lemma ThirdsByFour(start: nat, a: nat) returns (k: nat)
    requires a < 3
    ensures k <= 4 && Lcg(Lcg(start + 4 * k)) % 3 == a
  {
    LcgBelow(Lcg(start));
    k := HitByFour(Lcg(Lcg(start)), a);
    TwoStepOrbit(start, k);
    SameThird(Lcg(Lcg(start + 4 * k)), Orbit(Lcg(Lcg(start)), STEP_4, k), a);
  }

  lemma TripleInWindow(from: nat, a: nat, b: nat) returns (seed: nat)
    requires a < 3 && b < 2
    ensures from <= seed < from + 10 && Lcg(seed) % 3 == a && Lcg(Lcg(seed)) % 2 == b
  {
    var start := StartOfParity(from, b);
    var k := ThirdsByTwo(start, a);
    seed := start + 2 * k;
    SameRemainder(start, 2, k);
    TwoSteps(seed);
  }

  /** For four targets the first choice fixes the parity of the last. */
  function FourVector(a: nat, c: nat): (js: seq<nat>)
    requires a < 3 && c < 4
    ensures |js| == 4 && IsChoice(js)
  {
    [0, c % 2, a, c]
  }

  lemma LcgModFour(seed: nat)
    ensures Lcg(seed) % 4 == (seed + 1) % 4
  {
    RemainderOfRemainder(seed * MULTIPLIER + 1, TWO_64, 4);
    assert seed * MULTIPLIER + 1 == 4 * (seed * 1591034055961698251) + (seed + 1);
    RemainderOfSum(seed + 1, 4, seed * 1591034055961698251);
  }

  lemma LowTwoBits(seed: nat, c: nat)
    requires c < 4 && seed % 4 == (c + 3) % 4
    ensures Lcg(seed) % 4 == c
  {
    LcgModFour(seed);
    RemainderOfShift(seed, 1, 4);
  }

  lemma StartOfFour(from: nat, c: nat) returns (start: nat)
    requires c < 4
    ensures from <= start < from + 4 && start % 4 == (c + 3) % 4
  {
    start := from + (c + 3 - from % 4) % 4;
  }

  lemma QuadrupleInWindow(from: nat, a: nat, c: nat) returns (seed: nat)
    requires a < 3 && c < 4
    ensures from <= seed < from + 20 && Lcg(seed) % 4 == c && Lcg(Lcg(seed)) % 3 == a
  {
    var start := StartOfFour(from, c);
    var k := ThirdsByFour(start, a);
    seed := start + 4 * k;
    SameRemainder(start, 4, k);
    LowTwoBits(seed, c);
  }

  lemma AsFourVector(x: nat, y: nat, z: nat, a: nat, c: nat)
    requires a < 3 && c < 4 && x % 4 == c && y % 3 == a && z % 2 == x % 2
    ensures [0, z % 2, y % 3, x % 4] == FourVector(a, c)
  {
    EvenModulus(x, 4, c);
  }

  lemma FourMade(seed: nat, a: nat, c: nat)
    requires a < 3 && c < 4 && Lcg(seed) % 4 == c && Lcg(Lcg(seed)) % 3 == a
    ensures Choices(seed, 4) == FourVector(a, c)
  {
    TwoSteps(Lcg(seed));
    FourChoices(seed);
    AsFourVector(Lcg(seed), Lcg(Lcg(seed)), Lcg(Lcg(Lcg(seed))), a, c);
  }

  lemma FourInWindow(from: nat, a: nat, c: nat) returns (seed: nat)
    requires a < 3 && c < 4
    ensures from <= seed < from + 20 && Choices(seed, 4) == FourVector(a, c)
  {
    seed := QuadrupleInWindow(from, a, c);
    FourMade(seed, a, c);
  }

  lemma PairMade(seed: nat, b: nat)
    requires Lcg(seed) % 2 == b
    ensures Choices(seed, 2) == [0, b]
  {
    FirstChoices(seed);
  }

  lemma TripleMade(seed: nat, a: nat, b: nat)
    requires Lcg(seed) % 3 == a && Lcg(Lcg(seed)) % 2 == b
    ensures Choices(seed, 3) == [0, b, a]
  {
    FirstChoices(seed);
  }

  lemma SmallVectors(js: seq<nat>)
    requires |js| <= 3 && IsChoice(js)
    ensures js == if |js| == 0 then [] else if |js| == 1 then [0] else if |js| == 2 then [0, js[1]] else [0, js[1], js[2]]
  {}

  lemma SmallVectorInWindow(from: nat, js: seq<nat>) returns (seed: nat)
    requires |js| <= 3 && IsChoice(js)
    ensures from <= seed < from + 10 && Choices(seed, |js|) == js
  {
    SmallVectors(js);
    if |js| <= 1 {
      seed := from;
      FirstChoices(seed);
    } else if |js| == 2 {
      seed := PairInWindow(from, js[1]);
      PairMade(seed, js[1]);
    } else {
      seed := TripleInWindow(from, js[2], js[1]);
      TripleMade(seed, js[2], js[1]);
    }
  }

  // ----- one shuffle ----------------------------------------------------------------------------

  /** Ten consecutive nanoseconds are enough for every order of up to three targets. */
  lemma AllOrdersInTenNanoseconds<T(!new)>(s: seq<T>, t: seq<T>, from: nat) returns (seed: nat)
    requires |s| <= 3 && multiset(t) == multiset(s)
    ensures from <= seed < from + 10 && Shuffled(s, Choices(seed, |s|)) == t
  {
    var js := ChoicesExist(s, t);
    seed := SmallVectorInWindow(from, js);
  }

  lemma ReachableArePermutations<T(!new)>(s: seq<T>, t: seq<T>)
    requires t in ReachableOrders(s)
    ensures multiset(t) == multiset(s)
  {
    var seed: nat :| seed < TWO_64 && t == Shuffled(s, Choices(seed, |s|));
    ShuffledPermutes(s, Choices(seed, |s|));
  }

  /** For distinct targets one shuffle can produce every order exactly when there are at most three. */
  lemma AllOrdersReachableIff<T(!new)>(s: seq<T>)
    requires Distinct(s)
    ensures ReachableOrders(s) == Permutations(s) <==> |s| <= 3
  {
    if |s| <= 3 {
      forall t: seq<T> ensures t in ReachableOrders(s) <==> multiset(t) == multiset(s) {
        if multiset(t) == multiset(s) {
          var seed := AllOrdersInTenNanoseconds(s, t, 0);
        } else if t in ReachableOrders(s) {
          ReachableArePermutations(s, t);
        }
      }
    } else {
      HalfTheOrdersAreUnreachable(s);
      assert s in Permutations(s);
    }
  }

  lemma FourAreCorrelated(seed: nat)
    ensures Choices(seed, 4)[1] == Choices(seed, 4)[3] % 2
  {
    FourChoices(seed);
    TwoSteps(Lcg(seed));
    EvenModulus(Lcg(seed), 4, Lcg(seed) % 4);
  }

  lemma ReachableAreCorrelated<T(!new)>(s: seq<T>, js: seq<nat>, seed: nat)
    requires Distinct(s) && |s| == |js| == 4 && IsChoice(js) && Shuffled(s, js) == Shuffled(s, Choices(seed, 4))
    ensures js[1] == js[3] % 2
  {
    ChoicesDetermined(s, js, Choices(seed, 4));
    FourAreCorrelated(seed);
  }

  lemma IsFourVector(js: seq<nat>)
    requires |js| == 4 && IsChoice(js) && js[1] == js[3] % 2
    ensures js == FourVector(js[2], js[3])
  {}

  /** For four targets exactly the orders whose code has choices of one parity at positions 1 and 3. */
  lemma FourTargetsReachableIff<T(!new)>(s: seq<T>, js: seq<nat>)
    requires Distinct(s) && |s| == |js| == 4 && IsChoice(js)
    ensures Shuffled(s, js) in ReachableOrders(s) <==> js[1] == js[3] % 2
  {
    if js[1] == js[3] % 2 {
      var seed := FourInWindow(0, js[2], js[3]);
      IsFourVector(js);
      assert Choices(seed, |s|) == js;
    }
    if Shuffled(s, js) in ReachableOrders(s) {
      var seed: nat :| seed < TWO_64 && Shuffled(s, js) == Shuffled(s, Choices(seed, |s|));
      ReachableAreCorrelated(s, js, seed);
    }
  }

  // ----- repeated shuffles ----------------------------------------------------------------------

  /** What the choices do to four targets. */
  function SwapThrice<T>(s: seq<T>, i: nat, j: nat, k: nat): seq<T>
    requires |s| == 4 && i < 2 && j < 3 && k < 4
  {
    Swap(Swap(Swap(s, 3, k), 2, j), 1, i)
  }

  lemma SwapBelow<T>(a: seq<T>, i: nat, j: nat)
    requires i < |a| - 1 && j < |a| - 1
    ensures Swap(a[..|a| - 1], i, j) + [a[|a| - 1]] == Swap(a, i, j)
  {}

  lemma ShuffledTwo<T>(s: seq<T>, js: seq<nat>)
    requires |s| == |js| == 2 && IsChoice(js)
    ensures Shuffled(s, js) == Swap(s, 1, js[1])
  {
    ShuffledUnfolds(s, js);
    var front := Swap(s, 1, js[1])[..1];
    ShuffledUnfolds(front, js[..1]);
    assert Shuffled(front, js[..1]) == front;
  }

  lemma ShuffledThree<T>(s: seq<T>, js: seq<nat>)
    requires |s| == |js| == 3 && IsChoice(js)
    ensures Shuffled(s, js) == Swap(Swap(s, 2, js[2]), 1, js[1])
  {
    ShuffledUnfolds(s, js);
    var a := Swap(s, 2, js[2]);
    ShuffledTwo(a[..2], js[..2]);
    SwapBelow(a, 1, js[1]);
  }

  lemma ShuffledFour<T>(s: seq<T>, js: seq<nat>)
    requires |s| == |js| == 4 && IsChoice(js)
    ensures Shuffled(s, js) == SwapThrice(s, js[1], js[2], js[3])
  {
    ShuffledUnfolds(s, js);
    var a := Swap(s, 3, js[3]);
    ShuffledThree(a[..3], js[..3]);
    SwapBelow(a, 2, js[2]);
    SwapBelow(Swap(a, 2, js[2]), 1, js[1]);
    assert Swap(a, 2, js[2])[..3] == Swap(a[..3], 2, js[2]);
  }

  /** How to make, with two shuffles, the order that choices of different parity encode: the last choice of the
      first shuffle and the last two choices of the second, by the last two choices of the order. */
  const DETOURS: seq<seq<(nat, nat, nat)>> := [
    [(2, 1, 2), (2, 2, 0), (1, 2, 0), (2, 2, 1)],
    [(2, 0, 2), (1, 1, 3), (2, 0, 3), (1, 1, 1)],
    [(2, 2, 2), (2, 0, 0), (1, 1, 0), (2, 1, 1)]]

  predicate GoodDetour(d: (nat, nat, nat)) {
    d.0 < 4 && d.1 < 3 && d.2 < 4
  }

  function Detour(a: nat, c: nat): (d: (nat, nat, nat))
    requires a < 3 && c < 4
    ensures GoodDetour(d)
  {
    DETOURS[a][c]
  }

  lemma DetourArrives<T>(s: seq<T>, a: nat, c: nat)
    requires |s| == 4 && a < 3 && c < 4
    ensures var d := Detour(a, c);
      SwapThrice(SwapThrice(s, d.0 % 2, 0, d.0), d.2 % 2, d.1, d.2) == SwapThrice(s, 1 - c % 2, a, c)
  {}

  lemma FourMoved<T>(s: seq<T>, seed: nat, a: nat, c: nat)
    requires |s| == 4 && a < 3 && c < 4 && Choices(seed, 4) == FourVector(a, c)
    ensures Shuffled(s, Choices(seed, |s|)) == SwapThrice(s, c % 2, a, c)
  {
    ShuffledFour(s, FourVector(a, c));
  }

  /** Every order of four targets in two moves that the generator can make. */
  lemma RouteOfFour<T>(s: seq<T>, i: nat, j: nat, k: nat) returns (x: nat, f: nat, y: nat, g: nat)
    requires |s| == 4 && i < 2 && j < 3 && k < 4
    ensures x < 3 && f < 4 && y < 3 && g < 4
    ensures SwapThrice(SwapThrice(s, f % 2, x, f), g % 2, y, g) == SwapThrice(s, i, j, k)
  {
    if i == k % 2 {
      x, f, y, g := j, k, 2, 3;
    } else {
      var d := Detour(j, k);
      x, f, y, g := 0, d.0, d.1, d.2;
      DetourArrives(s, j, k);
    }
  }

  /** Two shuffles of four targets, each in any twenty consecutive nanoseconds, can produce every order. */
  lemma TwoShufflesOfFour<T(!new)>(s: seq<T>, t: seq<T>, first: nat, second: nat) returns (a: nat, b: nat)
    requires |s| == 4 && multiset(t) == multiset(s)
    ensures first <= a < first + 20 && second <= b < second + 20
    ensures var once := Shuffled(s, Choices(a, |s|)); t == Shuffled(once, Choices(b, |once|))
  {
    var js := ChoicesExist(s, t);
    ShuffledFour(s, js);
    var x, f, y, g := RouteOfFour(s, js[1], js[2], js[3]);
    a := FourInWindow(first, x, f);
    FourMoved(s, a, x, f);
    b := FourInWindow(second, y, g);
    FourMoved(Shuffled(s, Choices(a, |s|)), b, y, g);
  }

  /** The orders that m shuffles in a row produce from 64-bit start values. */
  ghost function OrdersAfter<T(!new)>(s: seq<T>, m: nat): set<seq<T>> {
    if m == 0 then {s} else Onward(OrdersAfter(s, m - 1))
  }

  /** One more shuffle. */
  ghost function Onward<T(!new)>(orders: set<seq<T>>): set<seq<T>> {
    set t, u | t in orders && u in ReachableOrders(t) :: u
  }

  lemma {:induction false} OrdersAfterArePermutations<T(!new)>(s: seq<T>, m: nat, t: seq<T>)
    requires t in OrdersAfter(s, m)
    ensures multiset(t) == multiset(s)
  {
    if m > 0 {
      var u :| u in OrdersAfter(s, m - 1) && t in ReachableOrders(u);
      OrdersAfterArePermutations(s, m - 1, u);
      ReachableArePermutations(u, t);
    }
  }

  /** One shuffle has no more outcomes than start values. */
  lemma OneOrderPerSeed<T(!new)>(s: seq<T>)
    ensures |ReachableOrders(s)| <= TWO_64
  {
    var n := |s|;
    var family := (seed: nat) => {Choices(seed, n)};
    var vectors := UnionOf(family, TWO_64);
    UnionCount(family, TWO_64, 1);
    forall js | js in vectors ensures |js| == n && IsChoice(js) {
      UnionContents(family, TWO_64, js);
    }
    forall seed: nat | seed < TWO_64 ensures Shuffled(s, Choices(seed, n)) in Orders(s, vectors) {
      assert Choices(seed, n) in family(seed);
      UnionContents(family, TWO_64, Choices(seed, n));
    }
    OrdersSize(s, vectors);
    SubsetSize(ReachableOrders(s), Orders(s, vectors));
  }

  lemma {:induction false} OnwardCount<T(!new)>(orders: set<seq<T>>)
    ensures |Onward(orders)| <= |orders| * TWO_64
  {
    if orders == {} {
      assert Onward(orders) == {};
    } else {
      var t :| t in orders;
      var rest := orders - {t};
      OnwardCount(rest);
      OneOrderPerSeed(t);
      assert Onward(orders) == Onward(rest) + ReachableOrders(t);
      assert |Onward(rest) + ReachableOrders(t)| <= |Onward(rest)| + |ReachableOrders(t)|;
    }
  }

  lemma Pow2Times64(k: nat)
    ensures Pow2(k + 64) == Pow2(k) * TWO_64
    decreases k
  {
    if k == 0 {
      Pow2Of64();
    } else {
      Pow2Times64(k - 1);
    }
  }

  /** At most 2^(64 m) orders can be reached with m shuffles, whatever the number of targets. */
  lemma {:induction false} FewOrdersAfter<T(!new)>(s: seq<T>, m: nat)
    ensures |OrdersAfter(s, m)| <= Pow2(64 * m)
  {
    if m > 0 {
      FewOrdersAfter(s, m - 1);
      OnwardCount(OrdersAfter(s, m - 1));
      Pow2Times64(64 * (m - 1));
      MulMonotone(TWO_64, |OrdersAfter(s, m - 1)|, Pow2(64 * (m - 1)));
    }
  }

  lemma ProperSubset<X>(a: set<X>, b: set<X>)
    requires (forall x :: x in a ==> x in b) && |a| < |b|
    ensures a < b
  {
    assert a <= b && a != b;
  }

  /** So m shuffles cannot produce every order of distinct targets that have more than 2^(64 m). */
  lemma TooManyOrders<T(!new)>(s: seq<T>, m: nat)
    requires Distinct(s) && Factorial(|s|) > Pow2(64 * m)
    ensures OrdersAfter(s, m) < Permutations(s)
  {
    FewOrdersAfter(s, m);
    PermutationsCount(s);
    var orders, all := OrdersAfter(s, m), Permutations(s);
    forall t | t in orders ensures t in all {
      OrdersAfterArePermutations(s, m, t);
    }
    ProperSubset(orders, all);
  }

  lemma FactorialOf35()
    ensures Factorial(35) > Pow2(128)
  {
    Pow2Times64(64);
    Pow2Of64();
    assert Factorial(10) == 3628800;
    assert Factorial(20) == 2432902008176640000;
    assert Factorial(30) == 265252859812191058636308480000000;
    assert Factorial(35) == 10333147966386144929666651337523200000000;
  }

  lemma {:induction false} FactorialGrows(m: nat, n: nat)
    requires 0 < m <= n
    ensures Factorial(m) <= Factorial(n) && Factorial(m) > 0
  {
    if m < n {
      FactorialGrows(m, n - 1);
      MulMonotone(Factorial(n - 1), 1, n);
    } else if m > 1 {
      FactorialGrows(m - 1, m - 1);
      MulMonotone(Factorial(m - 1), 1, m);
    }
  }

  lemma OneMoreShuffle<T(!new)>(s: seq<T>, m: nat, t: seq<T>, seed: nat)
    requires t in OrdersAfter(s, m) && seed < TWO_64
    ensures Shuffled(t, Choices(seed, |t|)) in OrdersAfter(s, m + 1)
  {
    assert Shuffled(t, Choices(seed, |t|)) in ReachableOrders(t);
  }

  lemma TwoShufflesReach<T(!new)>(s: seq<T>, t: seq<T>)
    requires |s| <= 4 && multiset(t) == multiset(s)
    ensures t in OrdersAfter(s, 2)
  {
    var a: nat, b: nat;
    if |s| == 4 {
      a, b := TwoShufflesOfFour(s, t, 0, 0);
    } else {
      a := AllOrdersInTenNanoseconds(s, s, 0);
      b := AllOrdersInTenNanoseconds(s, t, 0);
    }
    OneMoreShuffle(s, 0, s, a);
    OneMoreShuffle(s, 1, Shuffled(s, Choices(a, |s|)), b);
  }

  /** With both switches on the program shuffles twice: for distinct targets that reaches every order up to four
      targets, and not every order from thirty-five on. */
  lemma TwoShuffles<T(!new)>(s: seq<T>)
    requires Distinct(s)
    ensures |s| <= 4 ==> OrdersAfter(s, 2) == Permutations(s)
    ensures |s| >= 35 ==> OrdersAfter(s, 2) < Permutations(s)
  {
    if |s| <= 4 {
      forall t: seq<T> ensures t in OrdersAfter(s, 2) <==> multiset(t) == multiset(s) {
        if multiset(t) == multiset(s) {
          TwoShufflesReach(s, t);
        } else if t in OrdersAfter(s, 2) {
          OrdersAfterArePermutations(s, 2, t);
        }
      }
    }
    if |s| >= 35 {
      FactorialOf35();
      FactorialGrows(35, |s|);
      TooManyOrders(s, 2);
    }
  }
}
