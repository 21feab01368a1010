/** What holds of the space over every run of StringPoolS, whether bytes were lost or not, and how much the
    moves to larger buffers copy. */
module StringPoolSpace {
  import opened StringPoolLayout
  import opened StringPoolSteps
  import opened StringPoolRuns

  // ----- the string stored last ends the used part -----

  /** What growing in place rests on: nothing lies behind the string at the highest offset. */
  ghost predicate TopEnds(l: Layout) {
    && Paired(l)
    && forall k :: 0 <= k < |l.offs| && l.offs[k] != 0 && l.offs[k] == l.top ==> l.data == l.top + |l.strs[k]| + 1
  }

  lemma PackedEnds(l: Layout, newsize: int)
    ensures TopEnds(Packed(l, newsize))
  {
    ExactPacked(l.strs);
  }

  lemma AtTopEnds(r: Layout, t: int, w: string)
    requires Sound(r) && r.size > 0 && t < |r.offs|
    requires if t >= 0 then LastStored(r, t) else forall k :: 0 <= k < |r.offs| ==> r.offs[k] == 0
    ensures TopEnds(AtTop(r, t, w))
  {
    forall k | 0 <= k < |r.offs| && k != t && r.offs[k] != 0
      ensures r.offs[k] != r.top
    {
      assert Apart(r.offs[k], r.strs[k], r.offs[t], r.strs[t]);
    }
  }

  lemma AtEndEnds(l: Layout, i: nat, w: string)
    requires Sound(l) && i < |l.offs|
    ensures TopEnds(AtEnd(RoomAtEnd(Dropped(l, i), |w|), i, w))
  {
    hide RoomAtEnd, Live;
    RoomAtEndGeometry(l, i, |w|);
  }

  /** All paths of an allocation keep it, also when the place is that of another string. */
  lemma AllocatedEnds(l: Layout, i: nat, w: string)
    requires Sound(l) && TopEnds(l) && i < |l.offs|
    ensures l.data >= 0 && TopEnds(Allocated(l, i, w))
  {
    SoundFits(l);
    hide Geometry, RoomAtEnd, RoomAtTop, Target;
    if LastStored(l, i) {
      RoomAtTopSound(l, i, |w|);
      AtTopEnds(RoomAtTop(l, |w|), TargetOf(l, i, |w|), w);
    } else if !FitsInPlace(l, i, |w|) {
      AtEndEnds(l, i, w);
    }
  }

  lemma SetStepEnds(l: Layout, i: nat, s: string)
    requires Sound(l) && TopEnds(l)
    ensures l.data >= 0 && TopEnds(SetStep(l, i, s))
  {
    SoundFits(l);
    LongerSound(l, i + 1);
    LongerHas(l, i);
    LongerEnds(l, i + 1);
    if s != "" {
      AllocatedEnds(Longer(l, i + 1), i, s);
    }
    hide Allocated, Geometry;
  }

  lemma LongerEnds(l: Layout, n: nat)
    requires TopEnds(l)
    ensures TopEnds(Longer(l, n))
  {
    assert forall k :: 0 <= k < |l.offs| ==> Longer(l, n).offs[k] == l.offs[k] && Longer(l, n).strs[k] == l.strs[k];
  }

  /** The place handed out is at the new top unless a shorter string stays where it is. */
  predicate StaysInPlace(l: Layout, i: nat, len: nat)
    requires i < |l.offs| == |l.strs|
  {
    !LastStored(l, i) && FitsInPlace(l, i, len)
  }

  lemma PlaceAtTop(l: Layout, i: nat, w: string)
    requires Sound(l) && i < |l.offs|
    ensures l.data >= 0
    ensures var a, t := Allocated(l, i, w), TargetOf(l, i, |w|);
      && t < |a.offs| == |a.strs|
      && (t >= 0 ==> a.offs[t] != 0 && a.strs[t] == w && (a.offs[t] == a.top <==> !StaysInPlace(l, i, |w|)))
  {
    SoundFits(l);
    TargetPlaced(l, i, w);
    hide Geometry, RoomAtTop, RoomAtEnd, Target;
    if LastStored(l, i) {
      RoomAtTopSound(l, i, |w|);
    } else if !FitsInPlace(l, i, |w|) {
      RoomAtEndGeometry(l, i, |w|);
    }
  }

  /** A string cut short by a zero is no longer followed by the end of the used part: exactly when there is a
      zero among the characters and they were put at the top. */
  predicate CutsTop(l: Layout, op: Op)
    requires |l.offs| == |l.strs|
  {
    op.AssignRaw? && op.i >= 0 && '\0' in op.raw &&
    TargetOf(Longer(l, op.i + 1), op.i, |op.raw|) >= 0 && !StaysInPlace(Longer(l, op.i + 1), op.i, |op.raw|)
  }

  lemma CutEnds(a: Layout, t: int, w: string, u: string)
    requires TopEnds(a) && t < |a.offs| && |u| < |w| && (t >= 0 ==> a.offs[t] != 0 && a.strs[t] == w)
    ensures TopEnds(a.(strs := Put(a.strs, t, u))) <==> t < 0 || a.offs[t] != a.top
  {
    var b := a.(strs := Put(a.strs, t, u));
    if t >= 0 && a.offs[t] == a.top {
      assert a.data == a.top + |w| + 1;
      assert b.offs[t] == b.top && |b.strs[t]| == |u|;
    }
  }

  lemma RawStepEnds(l: Layout, i: nat, raw: string)
    requires Sound(l) && TopEnds(l)
    ensures l.data >= 0
    ensures TopEnds(RawStep(l, i, raw)) <==> !CutsTop(l, AssignRaw(i, raw))
  {
    hide Geometry, Sound, Allocated, Longer, TopEnds, TargetOf, UpToNul;
    SoundFits(l);
    SetStepEnds(l, i, raw);
    LongerSound(l, i + 1);
    LongerHas(l, i);
    if raw != "" {
      var e := Longer(l, i + 1);
      PlaceAtTop(e, i, raw);
      if '\0' in raw {
        assert UpToNul(raw) != raw;
        CutEnds(Allocated(e, i, raw), TargetOf(e, i, |raw|), raw, UpToNul(raw));
      } else {
        RawInOrder(l, i, raw);
      }
    } else {
      RawEmpty(l, i);
    }
  }

  /** From a layout in which the used part ends with the string at the top, every step that is not stopped
      leads to one if and only if it does not cut that string short. */
  lemma StepEnds(l: Layout, op: Op)
    requires Sound(l) && TopEnds(l)
    ensures l.data >= 0
    ensures Step(l, op).Running? ==> (TopEnds(Step(l, op).layout) <==> !CutsTop(l, op))
  {
    hide Geometry, Sound, SetStep, RawStep, Longer, TopEnds, TargetOf, Packed, Read;
    SoundFits(l);
    match op
    case Assign(i, src) =>
      if Exists(l.strs, src) && i >= 0 {
        SetStepEnds(l, i, Read(l.strs, src));
      }
    case AssignRaw(i, raw) =>
      if i >= 0 {
        RawStepEnds(l, i, raw);
      }
    case Append(i, src) =>
      if Exists(l.strs, src) && 0 <= i < |l.strs| {
        AllocatedEnds(l, i, l.strs[i] + Read(l.strs, src));
      }
    case Reserve(newsize) =>
      PackedEnds(l, newsize);
  }

  /** No step of the run cuts the string at the top short. */
  ghost predicate UncutRun(ops: seq<Op>) {
    ops != [] ==>
      var front := ops[..|ops| - 1];
      UncutRun(front) && (Run(front).Running? ==> !CutsTop(Run(front).layout, ops[|ops| - 1]))
  }

  /** Over every such run, wasteful or not and whichever strings it writes: if a string is at the top, the used
      part ends with it. */
  lemma {:induction false} RunEnds(ops: seq<Op>)
    requires UncutRun(ops)
    ensures Run(ops).Running? ==> TopEnds(Run(ops).layout)
    decreases |ops|
  {
    hide Sound, Step, CutsTop;
    if ops != [] {
      RunEnds(ops[..|ops| - 1]);
      if Run(ops[..|ops| - 1]).Running? {
        StepEnds(Run(ops[..|ops| - 1]).layout, ops[|ops| - 1]);
      }
    }
  }

  predicate NoZeros(ops: seq<Op>) {
    forall k :: 0 <= k < |ops| && ops[k].AssignRaw? ==> '\0' !in ops[k].raw
  }

  lemma {:induction false} NoZerosUncut(ops: seq<Op>)
    requires NoZeros(ops)
    ensures UncutRun(ops)
    decreases |ops|
  {
    hide Run;
    if ops != [] {
      NoZerosUncut(ops[..|ops| - 1]);
    }
  }

  // ----- runs that lose bytes -----

  /** A run that writes the right strings throughout and still loses bytes: making string 1 long moves the
      buffer while its old characters are copied once more. */
  lemma BytesLost(a: string, b: string, s: string)
    requires a != "" && b != "" && '\0' !in a + b && |a| + |b| <= 100 && '\0' !in s && |s| >= 5000
    ensures var ops := [Assign(1, Text(b)), Assign(0, Text(a)), Assign(1, Text(s))];
      RightRun(ops) && Run(ops).Running? && Run(ops).layout.strs == [a, s] && !Tight(Run(ops).layout)
  {
    hide Run, Packed, Sound, RightRun, Tight;
    var ops, l := [Assign(1, Text(b)), Assign(0, Text(a))], TwoStrings(a, b);
    var third := Assign(1, Text(s));
    assert UpToNul(s) == s;
    TwoStored(a, b);
    TwoRight(a, b);
    RunSnoc(ops, third);
    assert ops + [third] == [Assign(1, Text(b)), Assign(0, Text(a)), third];
    RightSnoc(ops, third);
    StepSound(l, third);
    TwoTight(a, b);
    assert Longer(l, 2) == l;
    RightPlaceFits(l, third);
    StepIsMap(l, third);
    StepTight(l, third);
  }

  lemma RightSnoc(ops: seq<Op>, op: Op)
    ensures RightRun(ops + [op]) <==> RightRun(ops) && (Run(ops).Running? ==> RightPlace(Run(ops).layout, op))
  {
    assert (ops + [op])[..|ops + [op]| - 1] == ops;
  }

  lemma TwoRight(a: string, b: string)
    requires a != "" && b != "" && '\0' !in a + b && |a| + |b| <= 100
    ensures RightRun([Assign(1, Text(b)), Assign(0, Text(a))])
  {
    hide Run;
    var first, second := Assign(1, Text(b)), Assign(0, Text(a));
    RunEmpty();
    AppendedTarget(Longer(Empty, 2), 1, |UpToNul(b)|);
    RightSnoc([], first);
    RightSnoc([first], second);
    OneStored(b);
    assert [] + [first] == [first] && [first] + [second] == [first, second];
  }

  lemma TwoTight(a: string, b: string)
    ensures Tight(TwoStrings(a, b))
  {
    var l := TwoStrings(a, b);
    assert l.offs[..1] == [|b| + 2] && l.strs[..1] == [a];
    assert Live(l.offs, l.strs) == Live([|b| + 2], [a]) + |b| + 1 && Live([|b| + 2], [a]) == Live([], []) + |a| + 1;
  }

  /** One zero among the characters of the only string is enough to leave bytes behind it. */
  lemma TopCut()
    ensures var ops := [AssignRaw(0, "a\0")]; Run(ops).Running? && !TopEnds(Run(ops).layout)
  {
    hide Run, Packed;
    var op := AssignRaw(0, "a\0");
    assert Longer(Empty, 1) == Layout([0], [""], 0, 0, 0, 0, 0);
    OneBuffer();
    RunEmpty();
    RunSnoc([], op);
    assert [] + [op] == [op];
    assert UpToNul("a\0") == "a";
  }

  lemma OneBuffer()
    ensures Packed(Layout([0], [""], 0, 0, 0, 0, 0), 3) == Layout([0], [""], 4097, 1, 0, 1, 0)
  {
    EmptyPacked([""], 1);
    assert seq(1, _ => 0) == [0];
  }

  // ----- the price of moving -----

  /** What the free part of the buffer has not yet paid back. */
  function Debt(l: Layout): int { Max(0, 2 * l.data - l.size) }

  lemma AtTopCost(l: Layout, i: nat, w: string)
    requires Sound(l) && i < |l.offs| && LastStored(l, i)
    ensures var a := AtTop(RoomAtTop(l, |w|), TargetOf(l, i, |w|), w);
      a.copied + Debt(a) <= l.copied + Debt(l) + 3 * (|w| + 1)
  {
    hide Live, Disjoint, Target, PackedTop, PackedOffs;
    SoundFits(l);
    PackedFits(l.offs, l.strs);
    PackedTopRoom(l.strs, |l.strs|);
  }

  lemma AtEndCost(l: Layout, i: nat, w: string)
    requires Sound(l) && i < |l.offs| && !FitsInPlace(l, i, |w|)
    ensures var a := AtEnd(RoomAtEnd(Dropped(l, i), |w|), i, w);
      l.data >= 0 && a.copied + Debt(a) <= l.copied + Debt(l) + 5 * (|w| + 1)
  {
    hide Geometry, PackedTop, PackedOffs;
    SoundFits(l);
    SlotBelow(l, i, |w|);
  }

  lemma SlotBelow(l: Layout, i: nat, len: nat)
    requires Sound(l) && i < |l.offs| && !FitsInPlace(l, i, len)
    ensures 0 <= Slot(l.offs[i], l.strs[i]) <= len
  {
  }

  /** An allocation pays for what moving copies, once and for all. */
  lemma AllocatedCost(l: Layout, i: nat, w: string)
    requires Sound(l) && i < |l.offs|
    ensures l.data >= 0
    ensures var a := Allocated(l, i, w); a.copied + Debt(a) <= l.copied + Debt(l) + 5 * (|w| + 1)
  {
    hide Sound, Geometry, RoomAtTop, RoomAtEnd, Target;
    SoundFits(l);
    if LastStored(l, i) {
      AtTopCost(l, i, w);
    } else if !FitsInPlace(l, i, |w|) {
      AtEndCost(l, i, w);
    }
  }

  /** Characters an operation makes room for, terminator included. */
  function Requested(l: Layout, op: Op): nat {
    match op
    case Assign(i, src) =>
      if Exists(l.strs, src) && i >= 0 && Read(l.strs, src) != "" then |Read(l.strs, src)| + 1 else 0
    case AssignRaw(i, raw) => if i >= 0 && raw != "" then |raw| + 1 else 0
    case Append(i, src) =>
      if Exists(l.strs, src) && 0 <= i < |l.strs| && Read(l.strs, src) != ""
      then |l.strs[i]| + |Read(l.strs, src)| + 1 else 0
    case Reserve(newsize) => 0
  }

  ghost function RequestedBy(ops: seq<Op>): nat {
    if ops == [] then 0 else
      var front := ops[..|ops| - 1];
      RequestedBy(front) + if Run(front).Running? then Requested(Run(front).layout, ops[|ops| - 1]) else 0
  }

  lemma SetStepCost(l: Layout, i: nat, s: string)
    requires Sound(l)
    ensures l.data >= 0
    ensures var a := SetStep(l, i, s);
      a.copied + Debt(a) <= l.copied + Debt(l) + if s == "" then 0 else 5 * (|s| + 1)
  {
    hide Sound, Geometry, Allocated;
    SoundFits(l);
    LongerSound(l, i + 1);
    LongerHas(l, i);
    if s != "" {
      AllocatedCost(Longer(l, i + 1), i, s);
    }
  }

  lemma StepCost(l: Layout, op: Op)
    requires Sound(l) && !op.Reserve?
    ensures l.data >= 0
    ensures Step(l, op).Running? ==>
      var a := Step(l, op).layout; a.copied + Debt(a) <= l.copied + Debt(l) + 5 * Requested(l, op)
  {
    hide Sound, Geometry, Allocated, SetStep, Longer, Read;
    SoundFits(l);
    match op
    case Assign(i, src) =>
      if Exists(l.strs, src) && i >= 0 {
        SetStepCost(l, i, Read(l.strs, src));
      }
    case AssignRaw(i, raw) =>
      if i >= 0 {
        SetStepCost(l, i, raw);
        RawSameSize(l, i, raw);
      }
    case Append(i, src) =>
      if Exists(l.strs, src) && 0 <= i < |l.strs| && Read(l.strs, src) != "" {
        AllocatedCost(l, i, l.strs[i] + Read(l.strs, src));
      }
  }

  predicate NoReserve(ops: seq<Op>) {
    forall k :: 0 <= k < |ops| ==> !ops[k].Reserve?
  }

  /** Over any run without explicit reservations the moves copy at most five characters for every one that
      room was made for. */
  lemma {:induction false} CopiesAmortised(ops: seq<Op>)
    requires NoReserve(ops)
    ensures Run(ops).Running? ==> Run(ops).layout.copied + Debt(Run(ops).layout) <= 5 * RequestedBy(ops)
    decreases |ops|
  {
    hide Sound, Step, Requested, Debt;
    if ops != [] {
      var front := ops[..|ops| - 1];
      CopiesAmortised(front);
      if Run(front).Running? {
        StepCost(Run(front).layout, ops[|ops| - 1]);
      }
    } else {
      EmptyDebt();
    }
  }

  lemma DebtNotNegative()
    ensures forall l :: Debt(l) >= 0
  {
  }

  lemma EmptyDebt()
    ensures Debt(Empty) == 0
  {
  }
}
