/** MT19937-64: the words of the generator, the in-place refill and its seeding. */
module MersenneWords {

  const UM: bv64 := 0xFFFF_FFFF_8000_0000      // most significant 33 bits
  const LM: bv64 := 0x7FFF_FFFF                // least significant 31 bits
  const MATRIX_A: bv64 := 0xB502_6F5A_A966_19E9

  function High(x: bv64): bv64 { x & UM }
  function Low(x: bv64): bv64 { x & LM }

  function Mix(a: bv64, b: bv64): bv64 { (a & UM) | (b & LM) }

  function Twist(x: bv64): bv64 {
    (x >> 1) ^ (if x & 1 == 0 then 0 else MATRIX_A)
  }

  /** Nothing is lost by the twist: the top bit of the result tells whether the word was odd. */
  lemma TwistInjective(x: bv64, y: bv64)
    requires Twist(x) == Twist(y)
    ensures x == y
  {
  }

  lemma MixSplits(a: bv64, b: bv64, a': bv64, b': bv64)
    requires Mix(a, b) == Mix(a', b')
    ensures High(a) == High(a') && Low(b) == Low(b')
  {
  }

  lemma HalvesMakeWord(a: bv64, b: bv64)
    requires High(a) == High(b) && Low(a) == Low(b)
    ensures a == b
  {
  }

  function Xor(a: bv64, b: bv64): bv64 { a ^ b }

  // The solver simplifies an operator applied to operators; it is slow as soon as names stand between
  // them.  Hence the laws are first stated with the operators in the arguments.
  lemma XorRaw(a: bv64, b: bv64, c: bv64)
    ensures Xor(a, b) == a ^ b && Xor(a ^ b, b) == a && Xor(a ^ b, b ^ c) == a ^ c
  {
  }

  lemma XorCancels(a: bv64, b: bv64)
    ensures Xor(Xor(a, b), b) == a
  {
    hide Xor;
    XorRaw(a, b, b);
  }

  lemma XorMiddle(a: bv64, b: bv64, c: bv64)
    ensures Xor(Xor(a, b), Xor(b, c)) == Xor(a, c)
  {
    hide Xor;
    XorRaw(a, b, c);
    XorRaw(b, c, c);
    XorRaw(a, c, c);
  }

  lemma XorZero(a: bv64)
    ensures Xor(a, 0) == a
  {
  }

  // ----- tempering -----

  function L1(x: bv64): bv64 { (x >> 29) & 0x5555_5555_5555_5555 }
  function L2(x: bv64): bv64 { (x << 17) & 0x71D6_7FFF_EDA6_0000 }
  function L3(x: bv64): bv64 { (x << 37) & 0xFFF7_EEE0_0000_0000 }
  function L4(x: bv64): bv64 { x >> 43 }

  function Temper(x: bv64): bv64 {
    var x1 := Xor(x, L1(x));
    var x2 := Xor(x1, L2(x1));
    var x3 := Xor(x2, L3(x2));
    Xor(x3, L4(x3))
  }

  /** Every line is undone by repeating its shift until nothing is left to shift in. */
  function Untemper1(y: bv64): bv64 { Xor(y, L1(Xor(y, L1(y)))) }
  function Untemper2(y: bv64): bv64 { Xor(y, L2(Xor(y, L2(Xor(y, L2(y)))))) }
  function Untemper3(y: bv64): bv64 { Xor(y, L3(y)) }
  function Untemper4(y: bv64): bv64 { Xor(y, L4(y)) }

  function Untemper(y: bv64): bv64 { Untemper1(Untemper2(Untemper3(Untemper4(y)))) }

  lemma L1Linear(a: bv64, b: bv64)
    ensures L1(Xor(a, b)) == Xor(L1(a), L1(b)) && L1(L1(L1(a))) == 0
  {
  }

  lemma L2Linear(a: bv64, b: bv64)
    ensures L2(Xor(a, b)) == Xor(L2(a), L2(b)) && L2(L2(L2(L2(a)))) == 0
  {
  }

  lemma L3Linear(a: bv64, b: bv64)
    ensures L3(Xor(a, b)) == Xor(L3(a), L3(b)) && L3(L3(a)) == 0
  {
  }

  lemma L4Linear(a: bv64, b: bv64)
    ensures L4(Xor(a, b)) == Xor(L4(a), L4(b)) && L4(L4(a)) == 0
  {
  }

  lemma Untempers1(x: bv64)
    ensures Untemper1(Xor(x, L1(x))) == x && Xor(Untemper1(x), L1(Untemper1(x))) == x
  {
    hide Xor, L1;
    var b, c := L1(x), L1(L1(x));
    L1Linear(x, b);
    XorMiddle(x, b, c);
    L1Linear(x, c);
    XorZero(b);
    XorCancels(x, b);
    L1Linear(b, c);
    L1Linear(x, Xor(b, c));
    XorZero(c);
    XorCancels(x, Xor(b, c));
  }

  lemma Untempers2(x: bv64)
    ensures Untemper2(Xor(x, L2(x))) == x && Xor(Untemper2(x), L2(Untemper2(x))) == x
  {
    hide Xor, L2;
    var b, c, d := L2(x), L2(L2(x)), L2(L2(L2(x)));
    L2Linear(x, b);
    XorMiddle(x, b, c);
    L2Linear(x, c);
    XorMiddle(x, b, d);
    L2Linear(x, d);
    XorZero(b);
    XorCancels(x, b);
    L2Linear(c, d);
    XorZero(d);
    L2Linear(b, Xor(c, d));
    L2Linear(b, c);
    L2Linear(x, Xor(b, c));
    L2Linear(x, Xor(b, Xor(c, d)));
    XorCancels(x, Xor(b, Xor(c, d)));
  }

  lemma Untempers3(x: bv64)
    ensures Untemper3(Xor(x, L3(x))) == x && Xor(Untemper3(x), L3(Untemper3(x))) == x
  {
    hide Xor, L3;
    L3Linear(x, L3(x));
    XorZero(L3(x));
    XorCancels(x, L3(x));
  }

  lemma Untempers4(x: bv64)
    ensures Untemper4(Xor(x, L4(x))) == x && Xor(Untemper4(x), L4(Untemper4(x))) == x
  {
    hide Xor, L4;
    L4Linear(x, L4(x));
    XorZero(L4(x));
    XorCancels(x, L4(x));
  }

  /** Tempering is a bijection on the words, with `Untemper` as its inverse. */
  lemma TemperBijective(x: bv64)
    ensures Untemper(Temper(x)) == x && Temper(Untemper(x)) == x
  {
    hide Xor, L1, L2, L3, L4, Untemper1, Untemper2, Untemper3, Untemper4;
    var x1 := Xor(x, L1(x));
    var x2 := Xor(x1, L2(x1));
    var x3 := Xor(x2, L3(x2));
    Untempers1(x);
    Untempers2(x1);
    Untempers3(x2);
    Untempers4(x3);
    Untempers4(x);
    Untempers3(Untemper4(x));
    Untempers2(Untemper3(Untemper4(x)));
    Untempers1(Untemper2(Untemper3(Untemper4(x))));
  }

  // ----- one word of the seeding -----

  function Shift62(x: bv64): bv64 { x >> 62 }
  function Fold(x: bv64): bv64 { Xor(x, Shift62(x)) }
  function Times(x: bv64): bv64 { 6364136223846793005 * x }
  function Over(x: bv64): bv64 { 13877824140714322085 * x }
  function Plus(x: bv64, i: bv64): bv64 { x + i }
  function Minus(x: bv64, i: bv64): bv64 { x - i }

  lemma Shift62Of(x: bv64)
    ensures Shift62(Xor(x, Shift62(x))) == Shift62(x)
  {
  }

  lemma FoldTwice(x: bv64)
    ensures Fold(Fold(x)) == x
  {
    hide Xor, Shift62;
    Shift62Of(x);
    XorCancels(x, Shift62(x));
  }

  lemma TimesOverRaw(x: bv64)
    ensures Over(6364136223846793005 * x) == x && Times(13877824140714322085 * x) == x
  {
  }

  lemma OverTimes(x: bv64)
    ensures Over(Times(x)) == x
  {
    hide Over;
    TimesOverRaw(x);
  }

  lemma TimesOver(x: bv64)
    ensures Times(Over(x)) == x
  {
    hide Times;
    TimesOverRaw(x);
  }

  lemma PlusMinusRaw(x: bv64, i: bv64)
    ensures Minus(x + i, i) == x && Plus(x - i, i) == x
  {
  }

  lemma MinusPlus(x: bv64, i: bv64)
    ensures Minus(Plus(x, i), i) == x
  {
    hide Minus;
    PlusMinusRaw(x, i);
  }

  lemma PlusMinus(x: bv64, i: bv64)
    ensures Plus(Minus(x, i), i) == x
  {
    hide Plus;
    PlusMinusRaw(x, i);
  }

  function SeedStep(w: bv64, i: bv64): bv64 { Plus(Times(Fold(w)), i) }

  function UnseedStep(w: bv64, i: bv64): bv64 { Fold(Over(Minus(w, i))) }

  lemma SeedStepInverse(w: bv64, i: bv64)
    ensures UnseedStep(SeedStep(w, i), i) == w && SeedStep(UnseedStep(w, i), i) == w
  {
    hide Fold, Times, Over, Plus, Minus;
    MinusPlus(Times(Fold(w)), i);
    OverTimes(Fold(w));
    FoldTwice(w);
    FoldTwice(Over(Minus(w, i)));
    TimesOver(Minus(w, i));
    PlusMinus(w, i);
  }
}

module MersenneTwister {
  import opened MersenneWords

  const NN := 312
  const MM := 156

  // ----- the infinite sequence of words -----

  /** The linear recurrence, from any 312 first words. */
  function X(init: seq<bv64>, j: nat): bv64
    requires |init| == NN
  {
    if j < NN then init[j]
    else Xor(X(init, j - NN + MM), Twist(Mix(X(init, j - NN), X(init, j - NN + 1))))
  }

  lemma XStep(init: seq<bv64>, j: nat)
    requires |init| == NN
    ensures X(init, j + NN) == Xor(X(init, j + MM), Twist(Mix(X(init, j), X(init, j + 1))))
  {
  }

  /** The words of the array are those of the sequence from `base` on. */
  ghost predicate Window(words: seq<bv64>, init: seq<bv64>, base: nat) {
    |words| == |init| == NN && forall k :: 0 <= k < NN ==> words[k] == X(init, base + k)
  }

  // ----- the part of the state that matters -----

  /** Two runs agree, from word `j` on, on the top 33 bits of one word and the whole 311 words behind it. */
  ghost predicate SameState(s: seq<bv64>, t: seq<bv64>, j: nat)
    requires |s| == |t| == NN
  {
    && High(X(s, j)) == High(X(t, j))
    && forall k :: j < k < j + NN ==> X(s, k) == X(t, k)
  }

  /** A step loses nothing: states that agree after it agreed before it. */
  lemma StepInjective(s: seq<bv64>, t: seq<bv64>, j: nat)
    requires |s| == |t| == NN && SameState(s, t, j + 1)
    ensures SameState(s, t, j)
  {
    XStep(s, j);
    XStep(t, j);
    hide X, Xor, Twist, Mix, High, Low;
    var y, y' := Mix(X(s, j), X(s, j + 1)), Mix(X(t, j), X(t, j + 1));
    XorCancelsLeft(X(s, j + MM), Twist(y), Twist(y'));
    TwistInjective(y, y');
    MixSplits(X(s, j), X(s, j + 1), X(t, j), X(t, j + 1));
    HalvesMakeWord(X(s, j + 1), X(t, j + 1));
  }

  lemma XorCancelsLeft(a: bv64, b: bv64, c: bv64)
    requires Xor(a, b) == Xor(a, c)
    ensures b == c
  {
    XorSwap(a, b);
    XorSwap(a, c);
    hide Xor;
    XorCancels(b, a);
    XorCancels(c, a);
  }

  lemma XorSwap(a: bv64, b: bv64)
    ensures Xor(a, b) == Xor(b, a)
  {
  }

  /** Runs that ever meet started from the same state. */
  lemma {:induction false} RunsNeverMerge(s: seq<bv64>, t: seq<bv64>, j: nat)
    requires |s| == |t| == NN && SameState(s, t, j)
    ensures SameState(s, t, 0)
    decreases j
  {
    if j > 0 {
      StepInjective(s, t, j - 1);
      RunsNeverMerge(s, t, j - 1);
    }
  }

  function Zeros(): seq<bv64> { seq(NN, _ => 0) }

  lemma {:induction false} ZerosStayZero(j: nat)
    ensures X(Zeros(), j) == 0
  {
    if j >= NN {
      XStep(Zeros(), j - NN);
      ZerosStayZero(j - NN + MM);
      ZerosStayZero(j - NN);
      ZerosStayZero(j - NN + 1);
      ZeroStep();
    }
  }

  lemma ZeroStep()
    ensures Xor(0, Twist(Mix(0, 0))) == 0
  {
  }

  ghost predicate NonZero(init: seq<bv64>, j: nat)
    requires |init| == NN
  {
    High(X(init, j)) != 0 || exists k :: j < k < j + NN && X(init, k) != 0
  }

  /** A state that is not all zero never becomes all zero. */
  lemma NeverZero(init: seq<bv64>, j: nat)
    requires |init| == NN && NonZero(init, 0)
    ensures NonZero(init, j)
  {
    hide X, High;
    if !NonZero(init, j) {
      forall k | j <= k < j + NN
        ensures X(Zeros(), k) == 0
      {
        ZerosStayZero(k);
      }
      ZeroMasked();
      RunsNeverMerge(init, Zeros(), j);
      forall k | 0 <= k < NN
        ensures X(Zeros(), k) == 0
      {
        ZerosStayZero(k);
      }
    }
  }

  lemma ZeroMasked()
    ensures High(0) == 0 && forall x :: High(x) != 0 ==> x != 0
  {
  }

  /** Hence no 312 outputs in a row are all zero. */
  lemma NoZeroBlock(init: seq<bv64>, j: nat)
    requires |init| == NN && NonZero(init, 0)
    ensures exists k :: j <= k < j + NN && Temper(X(init, k)) != 0
  {
    NeverZero(init, j);
    hide X, Temper, High;
    ZeroMasked();
    var k :| j <= k < j + NN && X(init, k) != 0;
    hide Untemper;
    TemperBijective(X(init, k));
    TemperBijective(0);
    TemperZero();
  }

  lemma TemperZero()
    ensures Temper(0) == 0
  {
  }

  // ----- seeding -----

  /** A loop counter as a word. */
  function Index(i: nat): bv64
    requires i < 0x1_0000_0000_0000_0000
  {
    i as bv64
  }

  function SeedWord(seed: bv64, i: nat): bv64
    requires i < NN
  {
    if i == 0 then seed else SeedStep(SeedWord(seed, i - 1), Index(i))
  }

  function SeededState(seed: bv64): (s: seq<bv64>)
    ensures |s| == NN && forall i :: 0 <= i < NN ==> s[i] == SeedWord(seed, i)
  {
    seq(NN, i requires 0 <= i < NN => SeedWord(seed, i))
  }

  lemma SeedNext(seed: bv64, i: nat)
    requires i < NN
    ensures SeedWord(seed, i) == if i == 0 then seed else SeedStep(SeedWord(seed, i - 1), Index(i))
  {
  }

  lemma WindowAtStart(words: seq<bv64>)
    requires |words| == NN
    ensures Window(words, words, 0)
  {
  }

  function UnseedWord(w: bv64, i: nat): bv64
    requires i < NN
    decreases i
  {
    if i == 0 then w else UnseedWord(UnseedStep(w, Index(i)), i - 1)
  }

  /** Every word of a seeded state is a bijective function of the seed. */
  lemma {:induction false} SeedWordBijective(seed: bv64, i: nat)
    requires i < NN
    ensures UnseedWord(SeedWord(seed, i), i) == seed && SeedWord(UnseedWord(seed, i), i) == seed
    decreases i
  {
    hide SeedStep, UnseedStep, Index;
    if i > 0 {
      SeedStepInverse(SeedWord(seed, i - 1), Index(i));
      SeedWordBijective(seed, i - 1);
      SeedStepInverse(seed, Index(i));
      SeedWordBijective(UnseedStep(seed, Index(i)), i - 1);
    }
  }

  /** Runs from different seeds never meet. */
  lemma SeedsNeverMeet(seed: bv64, seed': bv64, j: nat)
    requires SameState(SeededState(seed), SeededState(seed'), j)
    ensures seed == seed'
  {
    RunsNeverMerge(SeededState(seed), SeededState(seed'), j);
    assert X(SeededState(seed), 1) == X(SeededState(seed'), 1);
    SeedWordBijective(seed, 1);
    SeedWordBijective(seed', 1);
  }

  /** Any seed gives a state that is not all zero: a zero at index 1 makes the word at index 2 equal 2. */
  lemma SeededNonZero(seed: bv64)
    ensures NonZero(SeededState(seed), 0)
  {
    var s := SeededState(seed);
    assert X(s, 1) == SeedWord(seed, 1) && X(s, 2) == SeedWord(seed, 2);
    hide X;
    if SeedWord(seed, 1) == 0 {
      SecondWord();
    }
  }

  lemma SecondWord()
    ensures SeedStep(0, Index(2)) != 0
  {
  }

  // ----- seeding from a key -----

  function KeyScale(x: bv64): bv64 { x * 3935559000370003845 }
  function MixScale(x: bv64): bv64 { x * 2862933555777941757 }

  function KeyWord(word: bv64, prev: bv64, k: bv64, j: nat): bv64
    requires j < 0x1_0000_0000_0000_0000
  {
    Plus(Plus(Xor(word, KeyScale(Fold(prev))), k), Index(j))
  }

  function MixWord(word: bv64, prev: bv64, i: nat): bv64
    requires i < NN
  {
    Minus(Xor(word, MixScale(Fold(prev))), Index(i))
  }

  /** `k` turns of the first loop of `init_by_array64`, from index `i` of the state and `j` of the key. */
  function KeyRounds(s: seq<bv64>, key: seq<bv64>, i: nat, j: nat, k: nat): (r: (seq<bv64>, nat))
    requires |s| == NN && 1 <= i < NN && j < |key| < 0x1_0000_0000_0000_0000
    ensures |r.0| == NN && 1 <= r.1 < NN
    decreases k
  {
    if k == 0 then (s, i) else
      var s1 := s[i := KeyWord(s[i], s[i - 1], key[j], j)];
      var j1 := if j + 1 >= |key| then 0 else j + 1;
      if i + 1 >= NN then KeyRounds(s1[0 := s1[NN - 1]], key, 1, j1, k - 1) else KeyRounds(s1, key, i + 1, j1, k - 1)
  }

  lemma KeyRoundsStep(s: seq<bv64>, key: seq<bv64>, i: nat, j: nat, k: nat)
    requires |s| == NN && 1 <= i < NN && j < |key| < 0x1_0000_0000_0000_0000
    ensures k == 0 ==> KeyRounds(s, key, i, j, k) == (s, i)
    ensures k > 0 ==>
      var s1 := s[i := KeyWord(s[i], s[i - 1], key[j], j)];
      KeyRounds(s, key, i, j, k) ==
      KeyRounds(if i + 1 >= NN then s1[0 := s1[NN - 1]] else s1, key, if i + 1 >= NN then 1 else i + 1,
                if j + 1 >= |key| then 0 else j + 1, k - 1)
  {
  }

  /** `k` turns of its second loop. */
  function MixRounds(s: seq<bv64>, i: nat, k: nat): (r: seq<bv64>)
    requires |s| == NN && 1 <= i < NN
    ensures |r| == NN
    decreases k
  {
    if k == 0 then s else
      var s1 := s[i := MixWord(s[i], s[i - 1], i)];
      if i + 1 >= NN then MixRounds(s1[0 := s1[NN - 1]], 1, k - 1) else MixRounds(s1, i + 1, k - 1)
  }

  function Larger(a: nat, b: nat): nat { if a > b then a else b }

  function KeyedState(key: seq<bv64>): (s: seq<bv64>)
    requires 1 <= |key| < 0x1_0000_0000_0000_0000
    ensures |s| == NN
  {
    var (s, i) := KeyRounds(SeededState(19650218), key, 1, 0, Larger(NN, |key|));
    MixRounds(s, i, NN - 1)[0 := 0x8000_0000_0000_0000]
  }

  lemma KeyedNonZero(key: seq<bv64>)
    requires 1 <= |key| < 0x1_0000_0000_0000_0000
    ensures NonZero(KeyedState(key), 0)
  {
    TopBit();
    hide KeyRounds, MixRounds, SeededState, KeyWord, MixWord, Index;
    assert X(KeyedState(key), 0) == 0x8000_0000_0000_0000;
    hide High, X;
  }

  lemma TopBit()
    ensures High(0x8000_0000_0000_0000) != 0
  {
  }

  // ----- the generator -----

  class Generator {
    const mt: array<bv64>
    var mti: nat                  // NN + 1 means not seeded
    ghost var init: seq<bv64>     // the seeded state
    ghost var block: nat          // how often the array was refilled since

    ghost predicate Valid()
      reads this, mt
    {
      && mt.Length == NN && mti <= NN + 1
      && (mti <= NN ==> Window(mt[..], init, NN * block) && (block == 0 ==> mti == NN))
    }

    /** Outputs delivered since the seeding. */
    ghost function Delivered(): int
      reads this
    {
      if mti == NN + 1 || block == 0 then 0 else NN * (block - 1) + mti
    }

    constructor ()
      ensures Valid() && mti == NN + 1 && fresh(mt)
    {
      mt := new bv64[NN];
      mti := NN + 1;
      init, block := [], 0;
    }

    method InitGenrand64(seed: bv64)
      requires Valid()
      modifies this, mt
      ensures Valid() && Delivered() == 0 && mti == NN
      ensures init == SeededState(seed) && mt[..] == init
    {
      hide SeedStep, SeedWord, SeededState, Window, X, Index;
      SeedNext(seed, 0);
      mt[0] := seed;
      mti := 1;
      while mti < NN
        invariant 1 <= mti <= NN
        invariant forall k :: 0 <= k < mti ==> mt[k] == SeedWord(seed, k)
      {
        SeedNext(seed, mti);
        mt[mti] := SeedStep(mt[mti - 1], Index(mti));
        mti := mti + 1;
      }
      init, block := SeededState(seed), 0;
      assert mt[..] == init;
      WindowAtStart(init);
    }

    /** First loop of `init_by_array64`.  A length of 0 makes it read the first word all the time. */
    method ApplyKey(initKey: seq<bv64>, keyLength: nat) returns (i: nat)
      requires mt.Length == NN && 1 <= |initKey| < 0x1_0000_0000_0000_0000 && keyLength <= |initKey|
      modifies mt
      ensures 1 <= i < NN
      ensures var key := initKey[..Larger(1, keyLength)];
        (mt[..], i) == KeyRounds(old(mt[..]), key, 1, 0, Larger(NN, |key|))
    {
      hide KeyWord, KeyRounds;
      ghost var key := initKey[..Larger(1, keyLength)];
      var j: nat, k: nat := 0, if NN > keyLength then NN else keyLength;
      i := 1;
      ghost var after := KeyRounds(mt[..], key, i, j, k);
      while k > 0
        invariant 1 <= i < NN && 0 <= j < |key|
        invariant KeyRounds(mt[..], key, i, j, k) == after
      {
        ghost var s := mt[..];
        KeyRoundsStep(s, key, i, j, k);
        mt[i] := KeyWord(mt[i], mt[i - 1], initKey[j], j);
        assert mt[..] == s[i := KeyWord(s[i], s[i - 1], key[j], j)];
        i, j := i + 1, j + 1;
        if i >= NN {
          mt[0] := mt[NN - 1];
          i := 1;
        }
        if j >= keyLength {
          j := 0;
        }
        k := k - 1;
      }
      KeyRoundsStep(mt[..], key, i, j, k);
    }

    /** Second loop of `init_by_array64`. */
    method MixKeyed(start: nat)
      requires mt.Length == NN && 1 <= start < NN
      modifies mt
      ensures mt[..] == MixRounds(old(mt[..]), start, NN - 1)
    {
      hide MixWord;
      var i, k: nat := start, NN - 1;
      ghost var after := MixRounds(mt[..], i, k);
      while k > 0
        invariant 1 <= i < NN
        invariant MixRounds(mt[..], i, k) == after
      {
        ghost var s := mt[..];
        mt[i] := MixWord(mt[i], mt[i - 1], i);
        assert mt[..] == s[i := MixWord(s[i], s[i - 1], i)];
        i := i + 1;
        if i >= NN {
          mt[0] := mt[NN - 1];
          i := 1;
        }
        k := k - 1;
      }
    }

    method InitByArray64(initKey: seq<bv64>, keyLength: nat)
      requires Valid() && 1 <= |initKey| < 0x1_0000_0000_0000_0000 && keyLength <= |initKey|
      modifies this, mt
      ensures Valid() && Delivered() == 0 && mti == NN
      ensures init == KeyedState(initKey[..Larger(1, keyLength)]) && mt[..] == init
    {
      hide SeededState, KeyRounds, MixRounds, Window, X;
      InitGenrand64(19650218);
      var i := ApplyKey(initKey, keyLength);
      MixKeyed(i);
      mt[0] := 0x8000_0000_0000_0000;
      init := KeyedState(initKey[..Larger(1, keyLength)]);
      assert mt[..] == init;
      WindowAtStart(init);
    }

    /** The refill overwrites the array word by word: each new word needs two old ones and, past the
        first 156, one that is new already. */
    method Refill()
      requires Valid() && mti == NN
      modifies this, mt
      ensures Valid() && mti == 0 && block == old(block) + 1 && init == old(init)
    {
      hide X, Xor, Twist, Mix;
      ghost var base := NN * block;
      var i := 0;
      while i < NN - MM
        invariant 0 <= i <= NN - MM && mti == NN && init == old(init) && block == old(block)
        invariant |init| == NN
        invariant forall k :: 0 <= k < NN ==> mt[k] == X(init, base + k + if k < i then NN else 0)
      {
        XStep(init, base + i);
        mt[i] := Xor(mt[i + MM], Twist(Mix(mt[i], mt[i + 1])));
        i := i + 1;
      }
      while i < NN - 1
        invariant NN - MM <= i <= NN - 1 && mti == NN && init == old(init) && block == old(block)
        invariant |init| == NN
        invariant forall k :: 0 <= k < NN ==> mt[k] == X(init, base + k + if k < i then NN else 0)
      {
        XStep(init, base + i);
        mt[i] := Xor(mt[i + MM - NN], Twist(Mix(mt[i], mt[i + 1])));
        i := i + 1;
      }
      XStep(init, base + NN - 1);
      mt[NN - 1] := Xor(mt[MM - 1], Twist(Mix(mt[NN - 1], mt[0])));
      mti := 0;
      block := block + 1;
    }

    /** The k-th output after the seeding, counted from 0, is the tempered word 312 + k of the sequence;
        a generator never seeded is seeded with 5489 first. */
    method Genrand64() returns (x: bv64)
      requires Valid()
      modifies this, mt
      ensures Valid() && mti <= NN && Delivered() == old(Delivered()) + 1
      ensures init == if old(mti) == NN + 1 then SeededState(5489) else old(init)
      ensures |init| == NN && old(Delivered()) >= 0 && x == Temper(X(init, NN + old(Delivered())))
    {
      hide X, Temper, SeededState;
      if mti >= NN {
        if mti == NN + 1 {
          InitGenrand64(5489);
        }
        Refill();
      }
      x := Temper(mt[mti]);
      mti := mti + 1;
    }
  }
}
