/** What seeding from a key keeps of the key: keys of up to 310 words can be told from the state, and every
    longer key has a twin with the same state. */
module MersenneKeys {
  import opened Bits
  import opened MersenneWords
  import opened MersenneTwister

  // ----- single words -----

  lemma KeyWordTellsKey(w: bv64, p: bv64, k: bv64, k': bv64, j: nat)
    requires j < 0x1_0000_0000_0000_0000 && KeyWord(w, p, k, j) == KeyWord(w, p, k', j)
    ensures k == k'
  {
    hide Xor, Fold, Index, Plus, Minus, KeyScale;
    var x := Xor(w, KeyScale(Fold(p)));
    MinusPlus(Plus(x, k), Index(j));
    MinusPlus(Plus(x, k'), Index(j));
    PlusSwap(x, k);
    PlusSwap(x, k');
    MinusPlus(k, x);
    MinusPlus(k', x);
  }

  lemma PlusSwap(a: bv64, b: bv64)
    ensures Plus(a, b) == Plus(b, a)
  {
  }

  lemma MixWordTellsWord(w: bv64, w': bv64, p: bv64, i: nat)
    requires i < NN && MixWord(w, p, i) == MixWord(w', p, i)
    ensures w == w'
  {
    hide Xor, Fold, Index, Plus, Minus, MixScale;
    var m := MixScale(Fold(p));
    PlusMinus(Xor(w, m), Index(i));
    PlusMinus(Xor(w', m), Index(i));
    XorCancels(w, m);
    XorCancels(w', m);
  }

  /** The other value of the top bit. */
  function Flip(x: bv64): bv64 { x ^ 0x8000_0000_0000_0000 }

  lemma FlipXor(x: bv64, y: bv64)
    ensures Flip(x) != x && Xor(Flip(x), y) == Flip(Xor(x, y))
  {
  }

  const Top: bv64 := 0x8000_0000_0000_0000

  lemma FlipIsPlus(x: bv64)
    ensures Flip(x) == Plus(x, Top)
  {
  }

  lemma PlusIs(x: bv64, y: bv64)
    ensures Plus(x, y) == x + y
  {
  }

  lemma PlusRaw(x: bv64, y: bv64, c: bv64)
    ensures Plus(x + c, y) == Plus(x + y, c)
  {
  }

  lemma PlusShuffle(x: bv64, y: bv64, c: bv64)
    ensures Plus(Plus(x, c), y) == Plus(Plus(x, y), c)
  {
    hide Plus;
    PlusIs(x, c);
    PlusIs(x, y);
    PlusRaw(x, y, c);
  }

  lemma FlipPlus(x: bv64, y: bv64)
    ensures Plus(Flip(x), y) == Flip(Plus(x, y)) == Plus(x, Flip(y))
  {
    hide Plus, Flip;
    FlipIsPlus(x);
    FlipIsPlus(y);
    FlipIsPlus(Plus(x, y));
    PlusShuffle(x, y, Top);
    PlusShuffle(y, x, Top);
    PlusSwap(x, Plus(y, Top));
    PlusSwap(x, y);
  }

  lemma FlipTwice(x: bv64)
    ensures Flip(Flip(x)) == x
  {
  }

  lemma KeyWordFlips(w: bv64, p: bv64, k: bv64, j: nat)
    requires j < 0x1_0000_0000_0000_0000
    ensures KeyWord(w, p, Flip(k), j) == Flip(KeyWord(w, p, k, j))
    ensures KeyWord(Flip(w), p, Flip(k), j) == KeyWord(w, p, k, j)
  {
    hide Xor, Fold, Index, Flip, Plus, KeyScale;
    var m := KeyScale(Fold(p));
    var x := Xor(w, m);
    FlipXor(w, m);
    FlipPlus(x, k);
    FlipPlus(x, Flip(k));
    FlipTwice(Plus(x, k));
    FlipPlus(Plus(x, k), Index(j));
  }

  /** The key word that gives a wanted result. */
  function KeyFor(w: bv64, p: bv64, wanted: bv64, j: nat): bv64
    requires j < 0x1_0000_0000_0000_0000
  {
    Minus(Minus(wanted, Index(j)), Xor(w, KeyScale(Fold(p))))
  }

  lemma KeyForWorks(w: bv64, p: bv64, wanted: bv64, j: nat)
    requires j < 0x1_0000_0000_0000_0000
    ensures KeyWord(w, p, KeyFor(w, p, wanted, j), j) == wanted
  {
    hide Xor, Fold, Index, Plus, Minus, KeyScale;
    var x := Xor(w, KeyScale(Fold(p)));
    var y := Minus(wanted, Index(j));
    PlusSwap(x, Minus(y, x));
    PlusMinus(y, x);
    PlusMinus(wanted, Index(j));
  }

  // ----- the first loop -----

  type State = s: seq<bv64> | |s| == NN witness Zeros()

  predicate IsKey(key: seq<bv64>) { 1 <= |key| < 0x1_0000_0000_0000_0000 }

  lemma ModNext(x: nat, n: nat)
    requires n > 0
    ensures (x + 1) % n == if x % n + 1 >= n then 0 else x % n + 1
  {
    var q, r := x / n, x % n;
    assert x == n * q + r;
    if r + 1 >= n {
      assert x + 1 == n * (q + 1) + 0;
      DivUnique(x + 1, n, q + 1, 0);
    } else {
      DivUnique(x + 1, n, q, r + 1);
    }
  }

  /** `m + k` rounds are `m` rounds and then `k`. */
  lemma {:induction false} KeyRoundsSplit(s: State, key: seq<bv64>, i: nat, t: nat, m: nat, k: nat)
    requires IsKey(key) && 1 <= i < NN
    ensures 0 <= t % |key| < |key| && 0 <= (t + m) % |key| < |key|
    ensures var r := KeyRounds(s, key, i, t % |key|, m);
      KeyRounds(s, key, i, t % |key|, m + k) == KeyRounds(r.0, key, r.1, (t + m) % |key|, k)
    decreases m
  {
    hide KeyRounds, KeyWord;
    KeyRoundsStep(s, key, i, t % |key|, m);
    KeyRoundsStep(s, key, i, t % |key|, m + k);
    if m > 0 {
      ModNext(t, |key|);
      var (s', i') := KeyTurn(s, key, i, t % |key|);
      KeyRoundsSplit(s', key, i', t + 1, m - 1, k);
    }
  }

  /** The state and the index after one round. */
  function KeyTurn(s: State, key: seq<bv64>, i: nat, j: nat): (State, nat)
    requires IsKey(key) && 1 <= i < NN && j < |key|
  {
    var s1 := s[i := KeyWord(s[i], s[i - 1], key[j], j)];
    if i + 1 >= NN then (s1[0 := s1[NN - 1]], 1) else (s1, i + 1)
  }

  /** The first 311 rounds from `s0` put this into word `k`. */
  function RowWord(s0: State, key: seq<bv64>, k: nat): bv64
    requires IsKey(key) && k < NN
  {
    if k == 0 then s0[0] else KeyWord(s0[k], RowWord(s0, key, k - 1), key[(k - 1) % |key|], (k - 1) % |key|)
  }

  ghost predicate InRow(s: State, s0: State, key: seq<bv64>, i: nat)
    requires IsKey(key)
  {
    && (forall k :: 0 <= k < i && k < NN ==> s[k] == RowWord(s0, key, k))
    && forall k :: i <= k < NN ==> s[k] == s0[k]
  }

  lemma {:induction false} RowDone(s: State, s0: State, key: seq<bv64>, i: nat)
    requires IsKey(key) && 1 <= i < NN && InRow(s, s0, key, i)
    ensures 0 <= (i - 1) % |key| < |key|
    ensures var r := KeyRounds(s, key, i, (i - 1) % |key|, NN - i);
      r.1 == 1 && r.0[0] == RowWord(s0, key, NN - 1) && forall k :: 1 <= k < NN ==> r.0[k] == RowWord(s0, key, k)
    decreases NN - i
  {
    hide KeyRounds, KeyWord;
    var j := (i - 1) % |key|;
    KeyRoundsStep(s, key, i, j, NN - i);
    ModNext(i - 1, |key|);
    var (s', i') := KeyTurn(s, key, i, j);
    if i + 1 < NN {
      RowDone(s', s0, key, i + 1);
    } else {
      KeyRoundsStep(s', key, 1, if j + 1 >= |key| then 0 else j + 1, 0);
    }
  }

  /** All rounds for a key of at most 312 words: the words from index 2 on are those of the row. */
  lemma ShortKeyRounds(s0: State, key: seq<bv64>)
    requires IsKey(key) && |key| <= NN
    ensures var r := KeyRounds(s0, key, 1, 0, NN);
      r.1 == 2 && forall k :: 2 <= k < NN ==> r.0[k] == RowWord(s0, key, k)
  {
    hide KeyRounds, KeyWord;
    RowDone(s0, s0, key, 1);
    KeyRoundsSplit(s0, key, 1, 0, NN - 1, 1);
    var r := KeyRounds(s0, key, 1, 0, NN - 1);
    var j := (NN - 1) % |key|;
    KeyRoundsStep(r.0, key, 1, j, 1);
    var (s', i') := KeyTurn(r.0, key, 1, j);
    KeyRoundsStep(s', key, 2, if j + 1 >= |key| then 0 else j + 1, 0);
  }

  /** A word and the one before it tell the key word that was used. */
  lemma WordTellsKey(s0: State, a: seq<bv64>, b: seq<bv64>, k: nat, j: nat)
    requires IsKey(a) && |a| == |b| && 1 <= k < NN && j == (k - 1) % |a|
    requires RowWord(s0, a, k - 1) == RowWord(s0, b, k - 1) && RowWord(s0, a, k) == RowWord(s0, b, k)
    ensures j < |a| && a[j] == b[j]
  {
    hide KeyWord;
    KeyWordTellsKey(s0[k], RowWord(s0, a, k - 1), a[j], b[j], j);
  }

  lemma SmallMod(j: nat, n: nat)
    requires n > 0
    ensures j < n ==> j % n == j
    ensures n % n == 0
  {
    if j < n {
      DivUnique(j, n, 0, j);
    }
    DivUnique(n, n, 1, 0);
  }

  /** Two short keys that give the same words from index 2 on are the same. */
  lemma RowTellsKey(s0: State, a: seq<bv64>, b: seq<bv64>)
    requires IsKey(a) && |a| == |b| <= NN - 2
    requires forall k :: 2 <= k < NN ==> RowWord(s0, a, k) == RowWord(s0, b, k)
    ensures a == b
  {
    hide RowWord;
    var n := |a|;
    SmallMod(1, n);
    if n == 1 {
      WordTellsKey(s0, a, b, 3, 0);
    } else {
      WordTellsKey(s0, a, b, n + 1, 0);
      FirstWord(s0, a, b);
      WordTellsKey(s0, a, b, 2, 1);
    }
    forall j | 2 <= j < n
      ensures a[j] == b[j]
    {
      SmallMod(j, n);
      WordTellsKey(s0, a, b, j + 1, j);
    }
  }

  lemma FirstWord(s0: State, a: seq<bv64>, b: seq<bv64>)
    requires IsKey(a) && |a| == |b| && a[0] == b[0]
    ensures RowWord(s0, a, 1) == RowWord(s0, b, 1)
  {
    SmallMod(0, |a|);
    assert RowWord(s0, a, 0) == s0[0] == RowWord(s0, b, 0);
  }

  // ----- the second loop -----

  /** The state and the index after one round. */
  function MixTurn(s: State, i: nat): (State, nat)
    requires 1 <= i < NN
  {
    var s1 := s[i := MixWord(s[i], s[i - 1], i)];
    if i + 1 >= NN then (s1[0 := s1[NN - 1]], 1) else (s1, i + 1)
  }

  lemma MixRoundsStep(s: State, i: nat, k: nat)
    requires 1 <= i < NN
    ensures MixRounds(s, i, k) == if k == 0 then s else MixRounds(MixTurn(s, i).0, MixTurn(s, i).1, k - 1)
  {
  }

  ghost predicate SameTail(s: State, t: State) {
    forall k :: 1 <= k < NN ==> s[k] == t[k]
  }

  /** A round that does not start at index 1 can be undone on the words behind the first. */
  lemma TurnBack(s: State, t: State, i: nat)
    requires 2 <= i < NN && SameTail(MixTurn(s, i).0, MixTurn(t, i).0)
    ensures SameTail(s, t)
  {
    hide MixWord;
    var s', t' := MixTurn(s, i).0, MixTurn(t, i).0;
    assert s[i - 1] == s'[i - 1] == t'[i - 1] == t[i - 1];
    assert MixWord(s[i], s[i - 1], i) == s'[i] == t'[i] == MixWord(t[i], t[i - 1], i);
    MixWordTellsWord(s[i], t[i], s[i - 1], i);
    assert forall k :: 1 <= k < NN && k != i ==> s[k] == s'[k] && t[k] == t'[k];
  }

  /** The whole second loop can be undone on the words behind the first, although that one is overwritten. */
  lemma {:induction false} MixBack(s: State, t: State, i: nat)
    requires 2 <= i < NN
    requires SameTail(MixRounds(s, i, NN - i + 1), MixRounds(t, i, NN - i + 1))
    ensures SameTail(s, t)
    decreases NN - i
  {
    hide MixWord, MixRounds;
    MixRoundsStep(s, i, NN - i + 1);
    MixRoundsStep(t, i, NN - i + 1);
    var (s', i') := MixTurn(s, i);
    var (t', _) := MixTurn(t, i);
    if i + 1 < NN {
      MixBack(s', t', i + 1);
    } else {
      LastBack(s', t');
    }
    TurnBack(s, t, i);
  }

  lemma LastBack(s: State, t: State)
    requires s[0] == s[NN - 1] && t[0] == t[NN - 1] && SameTail(MixRounds(s, 1, 1), MixRounds(t, 1, 1))
    ensures SameTail(s, t)
  {
    hide MixWord, MixRounds;
    var s', t' := MixTurn(s, 1).0, MixTurn(t, 1).0;
    MixRoundsStep(s, 1, 1);
    MixRoundsStep(t, 1, 1);
    MixRoundsStep(s', 2, 0);
    MixRoundsStep(t', 2, 0);
    assert s'[1] == MixWord(s[1], s[0], 1) && t'[1] == MixWord(t[1], t[0], 1);
    assert s'[NN - 1] == s[NN - 1] && t'[NN - 1] == t[NN - 1];
    MixWordTellsWord(s[1], t[1], s[0], 1);
    assert forall k :: 2 <= k < NN ==> s[k] == s'[k] && t[k] == t'[k];
  }

  // ----- the two together -----

  /** Keys of the same length, up to 310 words, that give the same state are the same. */
  lemma ShortKeysTold(a: seq<bv64>, b: seq<bv64>)
    requires IsKey(a) && |a| == |b| <= NN - 2 && KeyedState(a) == KeyedState(b)
    ensures a == b
  {
    hide KeyRounds, MixRounds, SeededState, KeyWord, MixWord, RowWord;
    var s0: State := SeededState(19650218);
    ShortKeyRounds(s0, a);
    ShortKeyRounds(s0, b);
    var s: State, t: State := KeyRounds(s0, a, 1, 0, NN).0, KeyRounds(s0, b, 1, 0, NN).0;
    var u, v := MixRounds(s, 2, NN - 1), MixRounds(t, 2, NN - 1);
    assert KeyedState(a) == u[0 := 0x8000_0000_0000_0000] && KeyedState(b) == v[0 := 0x8000_0000_0000_0000];
    assert forall k :: 1 <= k < NN ==> u[k] == KeyedState(a)[k] && v[k] == KeyedState(b)[k];
    MixBack(s, t, 2);
    RowTellsKey(s0, a, b);
  }

  // ----- longer keys -----

  /** The key changed at 0, so that word 1 of the state changes, at 1, so that word 2 does not, and at 311,
      so that word 1 is back when it is written again. */
  function Twin(key: seq<bv64>): (b: seq<bv64>)
    requires IsKey(key) && |key| >= NN - 1
    ensures |b| == |key| && b[0] == Flip(key[0]) && b[0] != key[0]
  {
    var s0 := SeededState(19650218);
    var w1 := KeyWord(s0[1], s0[0], key[0], 0);
    var k1 := KeyFor(s0[2], Flip(w1), KeyWord(s0[2], w1, key[1], 1), 1);
    FlipXor(key[0], 0);
    var b := key[0 := Flip(key[0])][1 := k1];
    if |key| >= NN then b[NN - 1 := Flip(key[NN - 1])] else b
  }

  /** The two states differ in word 1 only, where one has the other top bit. */
  ghost predicate TwinStates(s: State, t: State) {
    t == s[1 := Flip(s[1])]
  }

  /** Rounds that use the same key words and do not touch word 1 keep it so. */
  lemma {:induction false} TwinRow(s: State, t: State, a: seq<bv64>, b: seq<bv64>, i: nat)
    requires IsKey(a) && |a| == |b| >= NN - 1 && 3 <= i < NN && TwinStates(s, t)
    requires forall j :: 2 <= j < NN - 1 ==> a[j] == b[j]
    ensures var r, r' := KeyRounds(s, a, i, i - 1, NN - i), KeyRounds(t, b, i, i - 1, NN - i);
      r.1 == 1 && r'.1 == 1 && TwinStates(r.0, r'.0)
    decreases NN - i
  {
    hide KeyRounds, KeyWord, Flip;
    KeyRoundsStep(s, a, i, i - 1, NN - i);
    KeyRoundsStep(t, b, i, i - 1, NN - i);
    var (s', _) := KeyTurn(s, a, i, i - 1);
    var (t', _) := KeyTurn(t, b, i, i - 1);
    assert t' == s'[1 := Flip(s'[1])];
    if i + 1 < NN {
      TwinRow(s', t', a, b, i + 1);
    } else {
      var j := if i >= |a| then 0 else i;
      KeyRoundsStep(s', a, 1, j, 0);
      KeyRoundsStep(t', b, 1, j, 0);
    }
  }

  /** Rounds that use the same key words give the same state. */
  lemma {:induction false} SameRounds(s: State, a: seq<bv64>, b: seq<bv64>, i: nat, j: nat, k: nat)
    requires IsKey(a) && |a| == |b| && 1 <= i < NN && j < |a| && j + k <= |a|
    requires forall m :: j <= m < j + k ==> a[m] == b[m]
    ensures KeyRounds(s, a, i, j, k) == KeyRounds(s, b, i, j, k)
    decreases k
  {
    hide KeyRounds, KeyWord;
    KeyRoundsStep(s, a, i, j, k);
    KeyRoundsStep(s, b, i, j, k);
    if k > 0 {
      var (s', i') := KeyTurn(s, a, i, j);
      if j + 1 < |a| {
        SameRounds(s', a, b, i', j + 1, k - 1);
      } else {
        KeyRoundsStep(s', a, i', 0, 0);
        KeyRoundsStep(s', b, i', 0, 0);
      }
    }
  }

  /** The state after the first two rounds. */
  function AfterTwo(s0: State, key: seq<bv64>): State
    requires IsKey(key) && |key| > 2
  {
    var w1 := KeyWord(s0[1], s0[0], key[0], 0);
    s0[1 := w1][2 := KeyWord(s0[2], w1, key[1], 1)]
  }

  lemma TwoRounds(s0: State, key: seq<bv64>, k: nat)
    requires IsKey(key) && |key| > 2
    ensures KeyRounds(s0, key, 1, 0, k + 2) == KeyRounds(AfterTwo(s0, key), key, 3, 2, k)
  {
    hide KeyRounds, KeyWord;
    var s1: State := s0[1 := KeyWord(s0[1], s0[0], key[0], 0)];
    KeyRoundsStep(s0, key, 1, 0, k + 2);
    assert s1[2] == s0[2];
    KeyRoundsStep(s1, key, 2, 1, k + 1);
  }

  lemma TwinStart(a: seq<bv64>)
    requires IsKey(a) && |a| >= NN - 1
    ensures TwinStates(AfterTwo(SeededState(19650218), a), AfterTwo(SeededState(19650218), Twin(a)))
  {
    hide KeyWord, SeededState, KeyFor, Flip;
    var s0: State := SeededState(19650218);
    var w1 := KeyWord(s0[1], s0[0], a[0], 0);
    KeyWordFlips(s0[1], s0[0], a[0], 0);
    KeyForWorks(s0[2], Flip(w1), KeyWord(s0[2], w1, a[1], 1), 1);
  }

  /** Every key of 311 words or more has a twin that gives the same state. */
  lemma LongKeysCollide(a: seq<bv64>)
    requires IsKey(a) && |a| >= NN - 1
    ensures |Twin(a)| == |a| && Twin(a) != a && KeyedState(Twin(a)) == KeyedState(a)
  {
    hide KeyRounds, MixRounds, SeededState, KeyWord, MixWord, Flip, KeyFor, AfterTwo;
    var n, b := |a|, Twin(a);
    var s0: State := SeededState(19650218);
    var k := Larger(NN, n) - NN;
    var s: State, t: State := AfterTwo(s0, a), AfterTwo(s0, b);
    TwinStart(a);
    TwoRounds(s0, a, NN - 3 + (1 + k));
    TwoRounds(s0, b, NN - 3 + (1 + k));
    SmallMod(2, n);
    assert NN - 3 + (1 + k) + 2 == Larger(NN, n);
    KeyRoundsSplit(s, a, 3, 2, NN - 3, 1 + k);
    KeyRoundsSplit(t, b, 3, 2, NN - 3, 1 + k);
    TwinRow(s, t, a, b, 3);
    var r: State, r': State := KeyRounds(s, a, 3, 2, NN - 3).0, KeyRounds(t, b, 3, 2, NN - 3).0;
    TwinEnd(r, r', a, k);
  }

  /** Round 312 makes the states equal, and what follows uses the same key words. */
  lemma TwinEnd(r: State, r': State, a: seq<bv64>, k: nat)
    requires IsKey(a) && |a| >= NN - 1 && TwinStates(r, r') && k == Larger(NN, |a|) - NN
    ensures (NN - 1) % |a| < |a|
    ensures KeyRounds(r, a, 1, (NN - 1) % |a|, 1 + k) == KeyRounds(r', Twin(a), 1, (NN - 1) % |a|, 1 + k)
  {
    hide KeyRounds, SeededState, KeyWord, Flip, KeyFor;
    var n, b := |a|, Twin(a);
    SmallMod(NN - 1, n);
    var j := (NN - 1) % n;
    assert j == if n == NN - 1 then 0 else NN - 1;
    KeyWordFlips(r[1], r[0], a[j], j);
    KeyRoundsStep(r, a, 1, j, 1 + k);
    KeyRoundsStep(r', b, 1, j, 1 + k);
    var (u, _) := KeyTurn(r, a, 1, j);
    assert r'[1 := KeyWord(r'[1], r'[0], b[j], j)] == u;
    var j' := if j + 1 >= n then 0 else j + 1;
    if k > 0 {
      SameRounds(u, a, b, 2, j', k);
    } else {
      KeyRoundsStep(u, a, 2, j', 0);
      KeyRoundsStep(u, b, 2, j', 0);
    }
  }

  /** Seeding from keys of a given length is injective exactly up to 310 words. */
  lemma KeysToldIff(n: nat)
    requires 1 <= n < 0x1_0000_0000_0000_0000
    ensures (forall a, b :: |a| == n && |b| == n && KeyedState(a) == KeyedState(b) ==> a == b) <==> n <= NN - 2
  {
    hide KeyedState;
    if n <= NN - 2 {
      forall a, b | |a| == n && |b| == n && KeyedState(a) == KeyedState(b)
        ensures a == b
      {
        ShortKeysTold(a, b);
      }
    } else {
      var a := seq(n, _ => 0);
      LongKeysCollide(a);
    }
  }
}
