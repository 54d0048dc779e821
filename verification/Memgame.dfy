/** The memory game's random numbers and the way it deals the piece pairs. */
module Memgame {
  import opened Bits

  const NR_OF_PIECE_PAIRS := 6
  const NR_OF_PIECES := 2 * NR_OF_PIECE_PAIRS
  const PIECE_INVALID_INDEX := 0xFF

  // ---- The generator ----

  /** One step of the generator, on a 16-bit seed. */
  function Rand(seed: nat): (r: nat)
    ensures r < 0x1_0000
  {
    (25037 * seed + 1) % 0x1_0000
  }

  /** The seed after `n` more steps. */
  function Iterate(seed: nat, n: nat): nat
    decreases n
  {
    if n == 0 then seed else Iterate(Rand(seed), n - 1)
  }

  /** The generator without the overflow. */
  function Wide(x: nat, n: nat): nat
    decreases n
  {
    if n == 0 then x else Wide(25037 * x + 1, n - 1)
  }

  lemma {:induction false} WideAppend(x: nat, m: nat, n: nat)
    ensures Wide(x, m + n) == Wide(Wide(x, m), n)
    decreases m
  {
    if m > 0 {
      WideAppend(25037 * x + 1, m - 1, n);
    }
  }

  /** `2^k` steps multiply by a factor one above a multiple of `4 * 2^k` and add an odd
      multiple of `2^k`. */
  ghost function Factor(k: nat): nat
  {
    if k == 0 then 25037 else Factor(k - 1) * Factor(k - 1)
  }

  ghost function Addend(k: nat): nat
  {
    if k == 0 then 1 else (Factor(k - 1) + 1) * Addend(k - 1)
  }

  lemma {:induction false} WideJump(x: nat, k: nat)
    ensures Wide(x, Pow2(k)) == Factor(k) * x + Addend(k)
    decreases k
  {
    if k == 0 {
      assert Wide(x, 1) == Wide(25037 * x + 1, 0);
    } else {
      var h := Pow2(k - 1);
      WideAppend(x, h, h);
      WideJump(x, k - 1);
      WideJump(Wide(x, h), k - 1);
      JumpTwice(Factor(k - 1), Addend(k - 1), x);
    }
  }

  lemma JumpTwice(f: nat, a: nat, x: nat)
    ensures f * (f * x + a) + a == (f * f) * x + (f + 1) * a
  {
  }

  /** The multiple in `Factor(k) == 1 + 4 * 2^k * m`. */
  lemma {:induction false} FactorShape(k: nat) returns (m: nat)
    ensures Factor(k) == 1 + 4 * (Pow2(k) * m)
  {
    if k == 0 {
      m := 6259;
    } else {
      var h := FactorShape(k - 1);
      var p := Pow2(k - 1);
      m := h + 2 * (p * h) * h;
      SquareShape(p, h);
    }
  }

  lemma SquareShape(p: nat, h: nat)
    ensures (1 + 4 * (p * h)) * (1 + 4 * (p * h)) == 1 + 4 * ((2 * p) * (h + 2 * (p * h) * h))
  {
    var n := p * h;
    assert (2 * p) * (h + 2 * n * h) == 2 * n + 4 * (n * n);
  }

  /** The odd number in `Addend(k) == 2^k * (1 + 2 * m)`. */
  lemma {:induction false} AddendShape(k: nat) returns (m: nat)
    ensures Addend(k) == Pow2(k) * (1 + 2 * m)
  {
    if k == 0 {
      m := 0;
    } else {
      var h := AddendShape(k - 1);
      var g := FactorShape(k - 1);
      var p := Pow2(k - 1);
      m := h + (p * g) * (1 + 2 * h);
      OddTimesOdd(p, p * g, h);
    }
  }

  lemma OddTimesOdd(p: nat, t: nat, h: nat)
    ensures (1 + 4 * t + 1) * (p * (1 + 2 * h)) == (2 * p) * (1 + 2 * (h + t * (1 + 2 * h)))
  {
    var odd := 1 + 2 * h;
    assert 1 + 2 * (h + t * odd) == (1 + 2 * t) * odd;
    assert (2 + 4 * t) * (p * odd) == (2 * p) * ((1 + 2 * t) * odd);
  }

  /** Modulo `2^(k+1)`, `2^k` steps add `2^k`: they flip bit `k` and keep the bits below. */
  lemma JumpFlipsBit(x: nat, k: nat)
    ensures Wide(x, Pow2(k)) % Pow2(k + 1) == (x + Pow2(k)) % Pow2(k + 1)
  {
    hide Wide;
    hide Factor;
    hide Addend;
    WideJump(x, k);
    var m := FactorShape(k);
    var h := AddendShape(k);
    JumpRemainder(Pow2(k), m, h, x);
    ModAddMultiple(x + Pow2(k), 2 * (m * x) + h, 2 * Pow2(k));
  }

  lemma JumpRemainder(p: nat, m: nat, h: nat, x: nat)
    ensures (1 + 4 * (p * m)) * x + p * (1 + 2 * h) == (x + p) + (2 * (m * x) + h) * (2 * p)
  {
    assert (p * m) * x == p * (m * x);
    assert (1 + 4 * (p * m)) * x == x + 4 * ((p * m) * x);
    assert (2 * (m * x) + h) * (2 * p) == 4 * (p * (m * x)) + 2 * (p * h);
  }

  /** From any seed there is a number of steps below `2^k` after which the low `k` bits are
      any wanted ones. */
  ghost function StepsTo(x: nat, target: nat, k: nat): (n: nat)
    ensures n < Pow2(k) && Wide(x, n) % Pow2(k) == target % Pow2(k)
  {
    if k == 0 then 0
    else
      var n := StepsTo(x, target, k - 1);
      if Wide(x, n) % Pow2(k) == target % Pow2(k) then n
      else
        JumpReaches(x, n, target, k - 1);
        n + Pow2(k - 1)
  }

  lemma JumpReaches(x: nat, n: nat, target: nat, k: nat)
    requires Wide(x, n) % Pow2(k) == target % Pow2(k)
    requires Wide(x, n) % Pow2(k + 1) != target % Pow2(k + 1)
    ensures Wide(x, n + Pow2(k)) % Pow2(k + 1) == target % Pow2(k + 1)
  {
    var y := Wide(x, n);
    WideAppend(x, n, Pow2(k));
    JumpFlipsBit(y, k);
    BitMod(y, k);
    BitMod(target, k);
    AddBit(y, k);
  }

  lemma AddBit(y: nat, k: nat)
    ensures var r, p := y % Pow2(k + 1), Pow2(k);
            (y + p) % Pow2(k + 1) == if r >= p then r - p else r + p
  {
    var p, twice := Pow2(k), Pow2(k + 1);
    RemainderOf(y, twice);
    var r := y % twice;
    ModAddMultiple(r + p, y / twice, twice);
    if r >= p {
      DivModUnique(r + p, twice, 1, r - p);
    } else {
      DivModUnique(r + p, twice, 0, r + p);
    }
  }

  /** The generator is the wide one modulo `2^16`. */
  lemma {:induction false} IterateIsWide(seed: nat, n: nat)
    requires seed < 0x1_0000
    ensures Iterate(seed, n) == Wide(seed, n) % 0x1_0000
    decreases n
  {
    if n > 0 {
      IterateIsWide(Rand(seed), n - 1);
      WideCongruent(Rand(seed), 25037 * seed + 1, n - 1);
    }
  }

  lemma {:induction false} WideCongruent(x: nat, y: nat, n: nat)
    requires x % 0x1_0000 == y % 0x1_0000
    ensures Wide(x, n) % 0x1_0000 == Wide(y, n) % 0x1_0000
    decreases n
  {
    if n > 0 {
      StepCongruent(x, y);
      WideCongruent(25037 * x + 1, 25037 * y + 1, n - 1);
    }
  }

  lemma StepCongruent(x: nat, y: nat)
    requires x % 0x1_0000 == y % 0x1_0000
    ensures (25037 * x + 1) % 0x1_0000 == (25037 * y + 1) % 0x1_0000
  {
    var q := x / 0x1_0000 - y / 0x1_0000;
    assert x == y + q * 0x1_0000;
    ModAddMultiple(25037 * y + 1, 25037 * q, 0x1_0000);
  }

  /** Full period: every one of the 65536 states is reached from every other one, in
      fewer than 65536 steps. */
  lemma FullPeriod(seed: nat, target: nat)
    requires seed < 0x1_0000 && target < 0x1_0000
    ensures exists n: nat :: n < 0x1_0000 && Iterate(seed, n) == target
  {
    assert Pow2(8) == 0x100;
    Pow2Add(8, 8);
    var n := StepsTo(seed, target, 16);
    IterateIsWide(seed, n);
  }

  lemma {:induction false} Jumps(x: nat, k: nat, m: nat)
    ensures Wide(x, Pow2(k) * m) % Pow2(k + 1) == (x + Pow2(k) * m) % Pow2(k + 1)
    decreases m
  {
    if m > 0 {
      var p, y := Pow2(k), Wide(x, Pow2(k) * (m - 1));
      assert p * m == p * (m - 1) + p;
      WideAppend(x, p * (m - 1), p);
      JumpFlipsBit(y, k);
      Jumps(x, k, m - 1);
      var twice := Pow2(k + 1);
      RemainderOf(y, twice);
      RemainderOf(x + p * (m - 1), twice);
      var q := (x + p * (m - 1)) / twice - y / twice;
      MulDistributes((x + p * (m - 1)) / twice, y / twice, twice);
      assert x + p * m == y + p + q * twice;
      ModAddMultiple(y + p, q, twice);
    }
  }

  /** Every positive number is a power of two times an odd number. */
  lemma {:induction false} OddPart(n: nat) returns (k: nat, m: nat)
    requires n > 0
    ensures n == Pow2(k) * (2 * m + 1)
  {
    if n % 2 == 1 {
      k, m := 0, n / 2;
    } else {
      var j;
      j, m := OddPart(n / 2);
      k := j + 1;
      assert 2 * (Pow2(j) * (2 * m + 1)) == Pow2(k) * (2 * m + 1);
    }
  }

  /** The period is exactly 65536: a seed comes back after 65536 steps and not before. */
  lemma ExactPeriod(seed: nat, n: nat)
    requires seed < 0x1_0000 && 0 < n <= 0x1_0000
    ensures Iterate(seed, n) == seed <==> n == 0x1_0000
  {
    hide Wide;
    hide Iterate;
    IterateIsWide(seed, n);
    var k, m := OddPart(n);
    OddJumps(seed, k, m);
    assert Pow2(16) == 0x1_0000 by {
      assert Pow2(8) == 0x100;
      Pow2Add(8, 8);
    }
    if k >= 16 {
      Pow2Monotone(16, k);
      WholePeriod(Wide(seed, n), seed, k, m);
    } else {
      BrokenPeriod(Wide(seed, n), seed, k, m);
    }
  }

  /** An odd number of `2^k`-step jumps adds `2^k` modulo `2^(k+1)`. */
  lemma OddJumps(x: nat, k: nat, m: nat)
    ensures Wide(x, Pow2(k) * (2 * m + 1)) % Pow2(k + 1) == (x + Pow2(k)) % Pow2(k + 1)
  {
    hide Wide;
    var p := Pow2(k);
    Jumps(x, k, 2 * m + 1);
    assert p * (2 * m + 1) == p + m * (2 * p);
    ModAddMultiple(x + p, m, 2 * p);
  }

  lemma BrokenPeriod(y: nat, seed: nat, k: nat, m: nat)
    requires Pow2(16) == 0x1_0000 && k < 16
    requires y % Pow2(k + 1) == (seed + Pow2(k)) % Pow2(k + 1)
    ensures y % 0x1_0000 != seed && Pow2(k) * (2 * m + 1) != 0x1_0000
  {
    AddBit(seed, k);
    LowBits(y, k + 1);
    Pow2Add(k, 16 - k);
    if Pow2(k) * (2 * m + 1) == Pow2(k) * Pow2(16 - k) {
      SameFactor(Pow2(k), 2 * m + 1, Pow2(16 - k));
    }
  }

  lemma SameFactor(p: nat, a: nat, b: nat)
    requires p > 0 && p * a == p * b
    ensures a == b
  {
    if a < b {
      MulAtLeast(b - a, p);
      MulDistributes(b, a, p);
    } else if b < a {
      MulAtLeast(a - b, p);
      MulDistributes(a, b, p);
    }
  }

  lemma WholePeriod(y: nat, seed: nat, k: nat, m: nat)
    requires Pow2(16) == 0x1_0000 <= Pow2(k) && Pow2(k) * (2 * m + 1) <= 0x1_0000 && seed < 0x1_0000
    requires y % Pow2(k + 1) == (seed + Pow2(k)) % Pow2(k + 1)
    ensures Pow2(k) * (2 * m + 1) == 0x1_0000
    ensures y % 0x1_0000 == seed
  {
    MulAtLeast(2 * m + 1, Pow2(k));
    assert Pow2(k + 1) == 0x2_0000;
    LowHalf(y, seed);
  }

  lemma LowHalf(y: nat, seed: nat)
    requires seed < 0x1_0000 && y % 0x2_0000 == (seed + 0x1_0000) % 0x2_0000
    ensures y % 0x1_0000 == seed
  {
    SmallMod(seed + 0x1_0000, 0x2_0000);
    RemainderOf(y, 0x2_0000);
    DivModUnique(y, 0x1_0000, 2 * (y / 0x2_0000) + 1, seed);
  }

  /** Values that differ in their low bits differ as 16-bit values. */
  lemma LowBits(y: nat, j: nat)
    requires j <= 16 && Pow2(16) == 0x1_0000
    ensures (y % 0x1_0000) % Pow2(j) == y % Pow2(j)
  {
    WrapThenMod(y, j, 16);
  }

  // ---- Dealing ----

  datatype Piece = Piece(pair: nat, found: bool)

  /** The entries of an index list that have been handed out. */
  ghost function Taken(indexes: seq<nat>): set<nat>
  {
    set j | 0 <= j < |indexes| && indexes[j] == PIECE_INVALID_INDEX
  }

  /** Every entry still names its own place, or has been handed out. */
  ghost predicate IndexList(indexes: seq<nat>)
  {
    && |indexes| == NR_OF_PIECES
    && forall j | 0 <= j < |indexes| :: indexes[j] == j || indexes[j] == PIECE_INVALID_INDEX
  }

  /** The handed-out places that hold a piece of pair `v`. */
  ghost function Holders(pieces: seq<Piece>, taken: set<nat>, v: nat): set<nat>
  {
    set j | j in taken && j < |pieces| && pieces[j].pair == v
  }

  /** Pairs 0 to `n - 1` have been dealt, two pieces each, to the places handed out. */
  ghost predicate Dealt(pieces: seq<Piece>, taken: set<nat>, n: nat)
  {
    && |taken| == 2 * n
    && (forall j | j in taken :: j < |pieces| && pieces[j].pair < n && !pieces[j].found)
    && (forall v | 0 <= v < n :: |Holders(pieces, taken, v)| == 2)
  }

  /** Some place is free while fewer than all have been handed out. */
  lemma FreePlace(indexes: seq<nat>) returns (j: nat)
    requires IndexList(indexes) && |Taken(indexes)| < NR_OF_PIECES
    ensures j < NR_OF_PIECES == |indexes| && indexes[j] == j
  {
    var free := Places(NR_OF_PIECES) - Taken(indexes);
    assert Places(NR_OF_PIECES) == free + Taken(indexes);
    j :| j in free;
  }

  /** Handing out a place. */
  lemma TakePlace(indexes: seq<nat>, j: nat)
    requires IndexList(indexes) && j < |indexes| && indexes[j] != PIECE_INVALID_INDEX
    ensures j !in Taken(indexes) && indexes[j] == j < NR_OF_PIECES
    ensures Taken(indexes[j := PIECE_INVALID_INDEX]) == Taken(indexes) + {j}
    ensures IndexList(indexes[j := PIECE_INVALID_INDEX])
  {
  }

  lemma TakenPlace(indexes: seq<nat>, j: nat)
    requires j < |indexes| && indexes[j] == PIECE_INVALID_INDEX
    ensures j in Taken(indexes)
  {
  }

  ghost function Places(n: nat): (s: set<nat>)
    ensures |s| == n && forall j: nat :: j in s <==> j < n
  {
    if n == 0 then {} else Places(n - 1) + {n - 1}
  }

  lemma HoldersAfter(pieces: seq<Piece>, taken: set<nat>, n: nat, j1: nat, j2: nat, v: nat)
    requires Dealt(pieces, taken, n) && j1 < |pieces| && j2 < |pieces|
    requires j1 !in taken && j2 !in taken && j1 != j2
    ensures Holders(pieces[j1 := Piece(n, false)][j2 := Piece(n, false)], taken + {j1} + {j2}, v)
         == if v == n then {j1, j2} else Holders(pieces, taken, v)
  {
  }

  /** Dealing the two pieces of the next pair to two more places. */
  lemma PairDealt(pieces: seq<Piece>, taken: set<nat>, n: nat, j1: nat, j2: nat)
    requires Dealt(pieces, taken, n) && j1 < |pieces| && j2 < |pieces|
    requires j1 !in taken && j2 !in taken && j1 != j2
    ensures Dealt(pieces[j1 := Piece(n, false)][j2 := Piece(n, false)], taken + {j1} + {j2}, n + 1)
  {
    hide Holders;
    var after, all := pieces[j1 := Piece(n, false)][j2 := Piece(n, false)], taken + {j1} + {j2};
    forall v: nat | v < n + 1
      ensures |Holders(after, all, v)| == 2
    {
      HoldersAfter(pieces, taken, n, j1, j2, v);
    }
  }

  /** Every place dealt so far holds its pair. */
  ghost predicate InPlace(pieces: seq<Piece>, places: seq<nat>)
  {
    forall k | 0 <= k < |places| :: places[k] < |pieces| && pieces[places[k]] == Piece(k / 2, false)
  }

  /** Dealing to places that are not among those dealt before. */
  lemma TwoInPlace(pieces: seq<Piece>, places: seq<nat>, i: nat, p1: nat, p2: nat)
    requires InPlace(pieces, places) && |places| == 2 * i
    requires p1 < |pieces| && p2 < |pieces| && p1 !in places && p2 !in places && p1 != p2
    ensures InPlace(pieces[p1 := Piece(i, false)][p2 := Piece(i, false)], places + [p1] + [p2])
  {
  }

  lemma NoneTaken(indexes: seq<nat>)
    requires |indexes| == NR_OF_PIECES && forall j | 0 <= j < |indexes| :: indexes[j] == j
    ensures IndexList(indexes) && Taken(indexes) == {}
  {
  }

  lemma NoneDealt(seed: nat, pieces: seq<Piece>)
    ensures DrawnInOrder(seed, [], seed) && PlaceSet([]) == {} && InPlace(pieces, []) && Dealt(pieces, {}, 0)
  {
  }

  /** The pairs lie two by two at the places, which are all twelve, and nothing is found yet. */
  ghost predicate FairDeal(pieces: seq<Piece>, places: seq<nat>)
  {
    && |pieces| == |places| == 12 && PlaceSet(places) == Places(12)
    && InPlace(pieces, places)
    && (forall j | 0 <= j < 12 :: pieces[j].pair < 6 && !pieces[j].found)
    && forall v | 0 <= v < 6 :: |Holders(pieces, Places(12), v)| == 2
  }

  lemma AllDealt(pieces: seq<Piece>, taken: set<nat>, places: seq<nat>)
    requires |pieces| == |places| == NR_OF_PIECES && Dealt(pieces, taken, NR_OF_PIECE_PAIRS)
    requires InPlace(pieces, places) && PlaceSet(places) == taken
    ensures FairDeal(pieces, places)
  {
    hide Holders;
    hide InPlace;
    hide Places;
    hide PlaceSet;
    SubsetOfAll(taken, NR_OF_PIECES);
  }

  lemma SubsetOfAll(s: set<nat>, n: nat)
    requires |s| == n && forall j | j in s :: j < n
    ensures s == Places(n)
  {
    assert s <= Places(n);
    assert |Places(n) - s| == 0;
  }

  lemma IterateZero(seed: nat)
    ensures Iterate(seed, 0) == seed
  {
  }

  lemma IterateFirst(seed: nat, n: nat)
    ensures n > 0 ==> Iterate(seed, n) == Iterate(Rand(seed), n - 1)
  {
  }

  lemma {:induction false} IterateAppend(seed: nat, n: nat)
    ensures Iterate(seed, n + 1) == Rand(Iterate(seed, n))
    decreases n
  {
    if n > 0 {
      IterateAppend(Rand(seed), n - 1);
    }
  }

  // ---- The order of the draws ----

  /** After `n` draws from `seed0` on, at least one, the generator stands at `seed`, and the
      place drawn last is the first that was not taken. */
  ghost predicate DrawnAfter(seed0: nat, n: nat, seed: nat, taken: set<nat>)
  {
    && n > 0 && seed == Iterate(seed0, n) && seed % NR_OF_PIECES !in taken
    && forall m: nat | 0 < m < n :: Iterate(seed0, m) % NR_OF_PIECES in taken
  }

  ghost predicate Drawn(seed0: nat, seed: nat, taken: set<nat>)
  {
    exists n: nat :: DrawnAfter(seed0, n, seed, taken)
  }

  ghost function PlaceSet(places: seq<nat>): set<nat>
  {
    set p | p in places
  }

  /** The places were drawn one after the other, each the first free one. */
  ghost predicate DrawnInOrder(seed0: nat, places: seq<nat>, seed: nat)
  {
    if places == [] then seed == seed0
    else
      var init := places[..|places| - 1];
      exists s: nat ::
        DrawnInOrder(seed0, init, s) && Drawn(s, seed, PlaceSet(init)) && places[|init|] == seed % NR_OF_PIECES
  }

  lemma DrawnIsUnique(seed0: nat, seed: nat, seed': nat, taken: set<nat>)
    requires Drawn(seed0, seed, taken) && Drawn(seed0, seed', taken)
    ensures seed == seed'
  {
    hide Iterate;
    var n: nat :| DrawnAfter(seed0, n, seed, taken);
    var n': nat :| DrawnAfter(seed0, n', seed', taken);
    assert n == n';
  }

  /** A deal is determined by the seed it starts from. */
  lemma {:induction false} DealIsUnique(seed0: nat, places: seq<nat>, places': seq<nat>, seed: nat, seed': nat)
    requires DrawnInOrder(seed0, places, seed) && DrawnInOrder(seed0, places', seed') && |places| == |places'|
    ensures places == places' && seed == seed'
  {
    hide Drawn;
    if places != [] {
      var init, init' := places[..|places| - 1], places'[..|places| - 1];
      var s: nat :| DrawnInOrder(seed0, init, s) && Drawn(s, seed, PlaceSet(init))
                    && places[|init|] == seed % NR_OF_PIECES;
      var s': nat :| DrawnInOrder(seed0, init', s') && Drawn(s', seed', PlaceSet(init'))
                     && places'[|init'|] == seed' % NR_OF_PIECES;
      DealIsUnique(seed0, init, init', s, s');
      DrawnIsUnique(s, seed, seed', PlaceSet(init));
      assert places == init + [places[|init|]] && places' == init' + [places'[|init|]];
    }
  }

  lemma DrawOneMore(seed0: nat, places: seq<nat>, s: nat, seed: nat)
    requires DrawnInOrder(seed0, places, s) && Drawn(s, seed, PlaceSet(places))
    ensures DrawnInOrder(seed0, places + [seed % NR_OF_PIECES], seed)
    ensures PlaceSet(places + [seed % NR_OF_PIECES]) == PlaceSet(places) + {seed % NR_OF_PIECES}
  {
    hide Drawn;
    var more := places + [seed % NR_OF_PIECES];
    assert more[..|more| - 1] == places;
  }

  /** The first game starts with place 10. */
  lemma FirstDraw()
    ensures Drawn(12345, 13990, {}) && 13990 % NR_OF_PIECES == 10
  {
    assert Iterate(12345, 1) == Iterate(Rand(12345), 0) == 13990;
    assert DrawnAfter(12345, 1, 13990, {});
  }

  class Memgame {
    var seed: nat
    const pieces: array<Piece>

    constructor ()
      ensures Valid() && fresh(pieces) && seed == 12345
    {
      seed := 12345;
      pieces := new Piece[NR_OF_PIECES](_ => Piece(0, false));
    }

    ghost predicate Valid()
      reads this
    {
      seed < 0x1_0000 && pieces.Length == NR_OF_PIECES
    }

    method NextRand() returns (r: nat)
      modifies this`seed
      ensures seed == Rand(old(seed)) == r
    {
      seed := (25037 * seed + 1) % 0x1_0000;
      r := seed;
    }

    /** Draws until a free entry turns up. That happens because the generator visits
        every state, in particular the one that equals a free place. */
    method GetRandomIndex(indexes: array<nat>) returns (pieceIndex: nat)
      requires Valid() && IndexList(indexes[..]) && |Taken(indexes[..])| < NR_OF_PIECES
      modifies this`seed, indexes
      ensures Valid() && pieceIndex < NR_OF_PIECES && pieceIndex !in Taken(old(indexes[..]))
      ensures indexes[..] == old(indexes[..])[pieceIndex := 0xFF]
      ensures Taken(indexes[..]) == Taken(old(indexes[..])) + {pieceIndex}
      ensures Drawn(old(seed), seed, Taken(old(indexes[..]))) && pieceIndex == seed % NR_OF_PIECES
    {
      hide Iterate;
      hide Rand;
      hide Taken;
      hide IndexList;
      ghost var free := FreePlace(indexes[..]);
      ghost var place := free % NR_OF_PIECES;
      var r := NextRand();
      var arrayIndex := r % NR_OF_PIECES;
      pieceIndex := indexes[arrayIndex];
      FullPeriod(seed, free);
      ghost var left: nat :| left < 0x1_0000 && Iterate(seed, left) == free;
      ghost var n: nat := 1;
      IterateZero(old(seed));
      IterateZero(seed);
      IterateAppend(old(seed), 0);

      while pieceIndex == PIECE_INVALID_INDEX
        invariant Valid() && indexes[..] == old(indexes[..])
        invariant Iterate(seed, left) == free
        invariant indexes[place] != PIECE_INVALID_INDEX && (left == 0 ==> arrayIndex == place)
        invariant n > 0 && seed == Iterate(old(seed), n)
        invariant forall m: nat | 0 < m < n :: Iterate(old(seed), m) % NR_OF_PIECES in Taken(old(indexes[..]))
        invariant arrayIndex == seed % NR_OF_PIECES && pieceIndex == indexes[arrayIndex]
        decreases left
      {
        TakenPlace(indexes[..], arrayIndex);
        IterateFirst(seed, left);
        IterateAppend(old(seed), n);
        r := NextRand();
        arrayIndex := r % NR_OF_PIECES;
        pieceIndex := indexes[arrayIndex];
        left, n := left - 1, n + 1;
        IterateZero(seed);
      }
      TakePlace(indexes[..], arrayIndex);
      assert DrawnAfter(old(seed), n, seed, Taken(old(indexes[..])));
      indexes[arrayIndex] := PIECE_INVALID_INDEX;
      assert indexes[..] == old(indexes[..])[arrayIndex := PIECE_INVALID_INDEX];
    }

    method DealPiece(indexes: array<nat>, pair: nat) returns (ghost place: nat)
      requires Valid() && IndexList(indexes[..]) && |Taken(indexes[..])| < NR_OF_PIECES
      requires indexes as object != pieces
      modifies this`seed, indexes, pieces
      ensures Valid() && IndexList(indexes[..]) && place < NR_OF_PIECES && place !in Taken(old(indexes[..]))
      ensures Taken(indexes[..]) == Taken(old(indexes[..])) + {place}
      ensures pieces[..] == old(pieces[..])[place := Piece(pair, false)]
      ensures Drawn(old(seed), seed, Taken(old(indexes[..]))) && place == seed % NR_OF_PIECES
    {
      var p := GetRandomIndex(indexes);
      pieces[p] := pieces[p].(pair := pair);
      pieces[p] := pieces[p].(found := false);
      place := p;
    }

    /** Deals a pair to the next two free places drawn. */
    method DealPair(indexes: array<nat>, pair: nat, ghost seed0: nat, ghost places0: seq<nat>)
      returns (ghost places: seq<nat>)
      requires Valid() && IndexList(indexes[..]) && pair < NR_OF_PIECE_PAIRS && indexes as object != pieces
      requires Dealt(pieces[..], Taken(indexes[..]), pair) && InPlace(pieces[..], places0)
      requires |places0| == 2 * pair && PlaceSet(places0) == Taken(indexes[..])
      requires DrawnInOrder(seed0, places0, seed)
      modifies this`seed, indexes, pieces
      ensures Valid() && IndexList(indexes[..])
      ensures Dealt(pieces[..], Taken(indexes[..]), pair + 1) && InPlace(pieces[..], places)
      ensures |places| == 2 * (pair + 1) && PlaceSet(places) == Taken(indexes[..])
      ensures DrawnInOrder(seed0, places, seed)
    {
      hide Drawn;
      hide DrawnInOrder;
      hide Taken;
      hide IndexList;
      hide InPlace;
      hide Holders;
      ghost var before, taken, s0 := pieces[..], Taken(indexes[..]), seed;
      ghost var p1 := DealPiece(indexes, pair);
      DrawOneMore(seed0, places0, s0, seed);
      ghost var s1 := seed;
      ghost var p2 := DealPiece(indexes, pair);
      DrawOneMore(seed0, places0 + [p1], s1, seed);
      PairDealt(before, taken, pair, p1, p2);
      TwoInPlace(before, places0, pair, p1, p2);
      places := places0 + [p1] + [p2];
    }

    /** A new game deals the six pairs in order, each to the next two free places drawn: every
        pair gets exactly two of the twelve places. */
    method StartNewGame() returns (ghost places: seq<nat>)
      requires Valid()
      modifies this`seed, pieces
      ensures Valid()
      ensures DrawnInOrder(old(seed), places, seed) && FairDeal(pieces[..], places)
    {
      hide FairDeal;
      hide IndexList;
      hide DrawnInOrder;
      hide Dealt;
      hide InPlace;
      hide Taken;
      hide PlaceSet;
      hide Holders;
      var indexes := new nat[NR_OF_PIECES];
      for i := 0 to NR_OF_PIECES
        invariant Valid() && seed == old(seed) && forall j | 0 <= j < i :: indexes[j] == j
      {
        indexes[i] := i;
      }
      NoneTaken(indexes[..]);
      NoneDealt(seed, pieces[..]);
      places := [];

      for i := 0 to NR_OF_PIECE_PAIRS
        invariant Valid() && IndexList(indexes[..])
        invariant Dealt(pieces[..], Taken(indexes[..]), i) && InPlace(pieces[..], places)
        invariant |places| == 2 * i && PlaceSet(places) == Taken(indexes[..])
        invariant DrawnInOrder(old(seed), places, seed)
      {
        places := DealPair(indexes, i, old(seed), places);
      }

      AllDealt(pieces[..], Taken(indexes[..]), places);
    }
  }
}
