/** Whole runs of StringPoolS, from the empty pool, on the values of `StringPoolSteps`. */
module StringPoolRuns {
  import opened StringPoolLayout
  import opened StringPoolSteps

  /** Where an assigned string comes from: a text of the caller or another string of the pool. */
  datatype Source = Text(s: string) | Element(j: int)

  datatype Op =
    | Assign(i: int, src: Source)
    | AssignRaw(i: int, raw: string)
    | Append(i: int, src: Source)
    | Reserve(newsize: int)

  /** Copying a string onto itself is not part of the model. */
  predicate Distinct(op: Op) {
    (op.Assign? || op.Append?) && op.src.Element? ==> op.src.j != op.i
  }

  datatype Result = Running(layout: Layout) | Failed(outcome: Outcome)

  predicate Exists(strs: seq<string>, src: Source) { src.Element? ==> 0 <= src.j < |strs| }

  /** The characters a scan of the source sees. */
  function Read(strs: seq<string>, src: Source): (s: string)
    requires Exists(strs, src)
    ensures '\0' !in s
  {
    UpToNul(if src.Text? then src.s else strs[src.j])
  }

  function Checked(l: Layout): Result {
    if l.data > l.size then Failed(Overrun) else Running(l)
  }

  function Step(l: Layout, op: Op): (r: Result)
    requires |l.offs| == |l.strs| && l.data >= 0
    ensures r.Failed? ==> r.outcome == OutOfRange || r.outcome == Overrun
  {
    match op
    case Assign(i, src) =>
      if !Exists(l.strs, src) || i < 0 then Failed(OutOfRange) else Checked(SetStep(l, i, Read(l.strs, src)))
    case AssignRaw(i, raw) =>
      if i < 0 then Failed(OutOfRange) else Checked(RawStep(l, i, raw))
    case Append(i, src) =>
      if !Exists(l.strs, src) then Failed(OutOfRange)
      else if Read(l.strs, src) == "" then Running(l)
      else if !(0 <= i < |l.strs|) then Failed(OutOfRange)
      else Checked(AppendStep(l, i, Read(l.strs, src)))
    case Reserve(newsize) => Running(Packed(l, newsize))
  }

  /** Every run that is not stopped by an error keeps the space accounted for: garbage, the zero at offset 0
      and the live strings fit in the used part, which fits in the buffer. */
  ghost function Run(ops: seq<Op>): (r: Result)
    ensures r.Running? ==> Sound(r.layout)
  {
    if ops == [] then Running(Empty) else
      match Run(ops[..|ops| - 1])
      case Failed(o) => Failed(o)
      case Running(l) => StepSound(l, ops[|ops| - 1]); Step(l, ops[|ops| - 1])
  }

  lemma SetStepSound(l: Layout, i: nat, s: string)
    requires Sound(l) && SetStep(l, i, s).data <= SetStep(l, i, s).size
    ensures Sound(SetStep(l, i, s))
  {
    hide Geometry, Longer;
    LongerSound(l, i + 1);
    LongerHas(l, i);
    if s == "" {
      ErasedSound(Longer(l, i + 1), i);
    } else {
      AllocatedSound(Longer(l, i + 1), i, s);
    }
  }

  lemma LongerHas(l: Layout, i: nat)
    requires Paired(l)
    ensures i < |Longer(l, i + 1).offs| == |Longer(l, i + 1).strs|
    ensures Longer(l, i + 1).data == l.data && Longer(l, i + 1).size == l.size
    ensures i < |l.offs| ==> Longer(l, i + 1) == l
    ensures i >= |l.offs| ==> Longer(l, i + 1).offs[i] == 0 && Longer(l, i + 1).strs[i] == ""
  {
  }

  lemma RawStepSound(l: Layout, i: nat, raw: string)
    requires Sound(l) && RawStep(l, i, raw).data <= RawStep(l, i, raw).size
    ensures Sound(RawStep(l, i, raw))
  {
    SetStepSound(l, i, raw);
    if raw != "" {
      hide Longer, Geometry;
      LongerSound(l, i + 1);
      LongerHas(l, i);
      var e, a := Longer(l, i + 1), SetStep(l, i, raw);
      var t := TargetOf(e, i, |raw|);
      AllocatedSound(e, i, raw);
      TargetPlaced(e, i, raw);
      if t >= 0 {
        GeometryTruncate(a.offs, a.strs, a.data, a.garbage, a.top, t, UpToNul(raw));
      }
    }
  }

  /** The string whose place was handed out has a place and holds the characters. */
  lemma TargetPlaced(l: Layout, i: nat, w: string)
    requires Sound(l) && i < |l.offs|
    ensures var a, t := Allocated(l, i, w), TargetOf(l, i, |w|);
      t < |a.offs| == |a.strs| && (t >= 0 ==> a.offs[t] != 0 && a.strs[t] == w)
  {
    hide Geometry, Exact, Live, Pos, PackedTop;
    if LastStored(l, i) {
      RoomAtTopSound(l, i, |w|);
    } else if !FitsInPlace(l, i, |w|) {
      SoundFits(l);
      SoundFits(Dropped(l, i).(garbage := l.garbage));
    }
  }

  lemma StepSound(l: Layout, op: Op)
    requires Sound(l)
    ensures l.data >= 0 && (Step(l, op).Running? ==> Sound(Step(l, op).layout))
  {
    hide SetStep, RawStep, Sound, Geometry;
    SoundFits(l);
    if Step(l, op).Running? {
      match op
      case Assign(i, src) =>
        SetStepSound(l, i, Read(l.strs, src));
      case AssignRaw(i, raw) =>
        RawStepSound(l, i, raw);
      case Append(i, src) =>
        if Read(l.strs, src) != "" {
          AllocatedSound(l, i, l.strs[i] + Read(l.strs, src));
        }
      case Reserve(newsize) =>
        PackedSound(l, newsize);
    }
  }

  // ----- one step as an update of a map -----

  /** The right string is written: a caller can test it before the call, see `TargetIsSelf`. */
  predicate RightPlace(l: Layout, op: Op)
    requires |l.offs| == |l.strs|
  {
    match op
    case Assign(i, src) =>
      Exists(l.strs, src) && i >= 0 && Read(l.strs, src) != "" ==>
        TargetOf(Longer(l, i + 1), i, |Read(l.strs, src)|) == i
    case AssignRaw(i, raw) =>
      i >= 0 && raw != "" ==> TargetOf(Longer(l, i + 1), i, |raw|) == i
    case Append(i, src) =>
      Exists(l.strs, src) && 0 <= i < |l.strs| && Read(l.strs, src) != "" ==>
        TargetOf(l, i, |l.strs[i]| + |Read(l.strs, src)|) == i
    case Reserve(newsize) => true
  }

  /** What the operation means for a map from index to string, in which missing strings are empty. */
  function MapStep(strs: seq<string>, op: Op): seq<string> {
    match op
    case Assign(i, src) => if Exists(strs, src) && i >= 0 then Extend(strs, i + 1)[i := Read(strs, src)] else strs
    case AssignRaw(i, raw) => if i >= 0 then Extend(strs, i + 1)[i := UpToNul(raw)] else strs
    case Append(i, src) => if Exists(strs, src) && 0 <= i < |strs| then strs[i := strs[i] + Read(strs, src)] else strs
    case Reserve(newsize) => strs
  }

  /** The old string is shorter than what does not fit in its place. */
  lemma ElsewhereShorter(l: Layout, i: nat, len: nat)
    requires Sound(l) && i < |l.offs| && TargetOf(l, i, len) != i
    ensures |l.strs[i]| < len
  {
  }

  lemma SetStepIsMap(l: Layout, i: nat, s: string)
    requires Sound(l)
    ensures l.data >= 0
    ensures SetStep(l, i, s).strs == Extend(l.strs, i + 1)[i := s] <==>
      s == "" || TargetOf(Longer(l, i + 1), i, |s|) == i
  {
    hide Sound, Geometry, Longer, TargetOf, Allocated, Put, Extend;
    SoundFits(l);
    LongerSound(l, i + 1);
    LongerHas(l, i);
    LongerStrs(l, i + 1);
    if s != "" {
      AllocatedIsUpdate(Longer(l, i + 1), i, s);
    }
  }

  lemma LongerStrs(l: Layout, n: nat)
    ensures Longer(l, n).strs == Extend(l.strs, n)
  {
  }

  /** An allocation with its copy updates string `i` alone if and only if the place is that of `i`. */
  lemma AllocatedIsUpdate(l: Layout, i: nat, w: string)
    requires Sound(l) && i < |l.offs|
    ensures Allocated(l, i, w).strs == l.strs[i := w] <==> TargetOf(l, i, |w|) == i
  {
    hide Geometry, TargetOf, Allocated, Put;
    AllocatedSound(l, i, w);
    if TargetOf(l, i, |w|) != i {
      ElsewhereShorter(l, i, |w|);
    }
    PutIsUpdate(l.strs, TargetOf(l, i, |w|), i, w);
  }

  lemma PutIsUpdate(strs: seq<string>, t: int, i: nat, w: string)
    requires i < |strs| && (t != i ==> |strs[i]| < |w|)
    ensures Put(strs, t, w) == strs[i := w] <==> t == i
  {
    assert strs[i := w][i] == w;
    assert t != i ==> Put(strs, t, w)[i] == strs[i];
  }

  lemma PutAgain(strs: seq<string>, t: int, w: string, u: string)
    ensures Put(Put(strs, t, w), t, u) == Put(strs, t, u)
    ensures 0 <= t < |strs| ==> Put(strs, t, u) == strs[t := u]
  {
  }

  lemma RawStepIsMap(l: Layout, i: nat, raw: string)
    requires Sound(l)
    ensures l.data >= 0
    ensures raw == "" || TargetOf(Longer(l, i + 1), i, |raw|) == i ==>
      RawStep(l, i, raw).strs == Extend(l.strs, i + 1)[i := UpToNul(raw)]
    ensures '\0' !in raw ==> RawStep(l, i, raw).strs == SetStep(l, i, raw).strs
  {
    hide Sound, Geometry, Longer, TargetOf, Allocated, Extend, UpToNul, Put;
    SoundFits(l);
    LongerSound(l, i + 1);
    LongerHas(l, i);
    LongerStrs(l, i + 1);
    if raw != "" {
      AllocatedSound(Longer(l, i + 1), i, raw);
      PutAgain(Longer(l, i + 1).strs, TargetOf(Longer(l, i + 1), i, |raw|), raw, UpToNul(raw));
    }
  }

  lemma AppendStepIsMap(l: Layout, i: nat, s: string)
    requires Sound(l) && i < |l.offs| && s != ""
    ensures l.data >= 0
    ensures AppendStep(l, i, s).strs == l.strs[i := l.strs[i] + s] <==> TargetOf(l, i, |l.strs[i]| + |s|) == i
  {
    hide Allocated, Sound, Geometry, TargetOf;
    SoundFits(l);
    AllocatedIsUpdate(l, i, l.strs[i] + s);
  }

  /** Exactly when the copy of `len` characters to the place handed out for index `i` runs past the end of
      the buffer. */
  predicate OverrunsAt(l: Layout, i: nat, len: nat)
    requires |l.offs| == |l.strs|
  {
    TargetOf(Longer(l, i + 1), i, len) != i && PackedTop(l.strs, |l.strs|) + len + 1 > GrownSize(l, l.top + len + 1)
  }

  /** What `Set` does, in terms of the layout before. */
  lemma SetMeans(l: Layout, i: nat, s: string)
    requires Sound(l)
    ensures l.data >= 0
    ensures var a, e := SetStep(l, i, s), Longer(l, i + 1);
      && (a.data > a.size <==> s != "" && OverrunsAt(l, i, |s|))
      && (a.data > a.size ==> TargetOf(e, i, |s|) != i)
      && a.strs == (if s == "" then Extend(l.strs, i + 1)[i := ""]
                    else Put(Extend(l.strs, i + 1), TargetOf(e, i, |s|), s))
      && (a.strs[i] == s <==> s == "" || TargetOf(e, i, |s|) == i)
      && ((s == "" || TargetOf(e, i, |s|) == i) && (Tight(l) || (s != "" && Moves(e, i, |s|))) ==>
           (Tight(a) <==> s == "" || !Recopies(e, i, |s|)))
  {
    hide Sound, Geometry, Longer, TargetOf, Allocated, Recopies, Tight, Extend, Moves, Put;
    SoundFits(l);
    LongerSound(l, i + 1);
    LongerHas(l, i);
    LongerStrs(l, i + 1);
    var e := Longer(l, i + 1);
    if s == "" {
      SetStepFits(l, i, s);
    } else {
      AllocatedSound(e, i, s);
      PutAt(e.strs, TargetOf(e, i, |s|), i, s);
      LongerOverrun(l, i, s);
      if TargetOf(e, i, |s|) != i {
        ElsewhereShorter(e, i, |s|);
      }
    }
    if (s == "" || TargetOf(e, i, |s|) == i) && (Tight(l) || (s != "" && Moves(e, i, |s|))) {
      SetStepTight(l, i, s);
    }
  }

  /** What `Set` with a length does. */
  lemma RawMeans(l: Layout, i: nat, raw: string)
    requires Sound(l) && raw != ""
    ensures l.data >= 0
    ensures var a, e, u := RawStep(l, i, raw), Longer(l, i + 1), UpToNul(raw);
      && (a.data > a.size <==> OverrunsAt(l, i, |raw|))
      && (a.data > a.size ==> TargetOf(e, i, |raw|) != i)
      && a.strs == Put(Extend(l.strs, i + 1), TargetOf(e, i, |raw|), u)
      && (a.strs[i] == u <==> TargetOf(e, i, |raw|) == i || Extend(l.strs, i + 1)[i] == u)
  {
    hide Sound, Geometry, Longer, TargetOf, Allocated, Recopies, Tight, Extend, Moves, Put, OverrunsAt, UpToNul,
         SetStep;
    SoundFits(l);
    SetMeans(l, i, raw);
    LongerHas(l, i);
    LongerStrs(l, i + 1);
    var t := TargetOf(Longer(l, i + 1), i, |raw|);
    RawSameSize(l, i, raw);
    PutAgain(Extend(l.strs, i + 1), t, raw, UpToNul(raw));
    PutAt(Extend(l.strs, i + 1), t, i, UpToNul(raw));
  }

  /** ... and to whom it belongs when no zero is among the characters. */
  lemma RawMeansMore(l: Layout, i: nat, raw: string)
    requires Sound(l) && raw != ""
    ensures l.data >= 0
    ensures var a, e := RawStep(l, i, raw), Longer(l, i + 1);
      && i < |a.strs| && ('\0' !in raw ==> (a.strs[i] == raw <==> TargetOf(e, i, |raw|) == i))
      && (TargetOf(e, i, |raw|) == i && (Tight(l) || Moves(e, i, |raw|)) ==>
           (Tight(a) <==> '\0' !in raw && !Recopies(e, i, |raw|)))
  {
    hide Sound, Geometry, Longer, TargetOf, Allocated, Recopies, Tight, Extend, Moves, Put, OverrunsAt, UpToNul,
         SetStep, RawStep;
    SoundFits(l);
    RawMeans(l, i, raw);
    LongerHas(l, i);
    LongerStrs(l, i + 1);
    if '\0' !in raw {
      SetMeans(l, i, raw);
      RawInOrder(l, i, raw);
    }
    if TargetOf(Longer(l, i + 1), i, |raw|) == i && (Tight(l) || Moves(Longer(l, i + 1), i, |raw|)) {
      RawStepTight(l, i, raw);
    }
  }

  /** What `Concatenate` does. */
  lemma AppendMeans(l: Layout, i: nat, s: string)
    requires Sound(l) && i < |l.offs| && s != ""
    ensures l.data >= 0
    ensures var a, whole := AppendStep(l, i, s), l.strs[i] + s;
      && (a.data > a.size <==> OverrunsAt(l, i, |whole|))
      && (a.data > a.size ==> TargetOf(l, i, |whole|) != i)
      && a.strs == Put(l.strs, TargetOf(l, i, |whole|), whole)
      && (a.strs[i] == whole <==> TargetOf(l, i, |whole|) == i)
      && (TargetOf(l, i, |whole|) == i && (Tight(l) || Moves(l, i, |whole|)) ==>
           (Tight(a) <==> !Recopies(l, i, |whole|)))
  {
    hide Sound, Geometry, Longer, TargetOf, Allocated, Recopies, Tight, Moves, Put, OverrunsAt;
    SoundFits(l);
    var whole := l.strs[i] + s;
    LongerHas(l, i);
    LongerOverrun(l, i, whole);
    AllocatedSound(l, i, whole);
    PutAt(l.strs, TargetOf(l, i, |whole|), i, whole);
    if TargetOf(l, i, |whole|) == i && (Tight(l) || Moves(l, i, |whole|)) {
      AllocatedTight(l, i, whole);
    }
  }

  lemma PutAt(strs: seq<string>, t: int, i: nat, w: string)
    requires i < |strs|
    ensures Put(strs, t, w)[i] == if t == i then w else strs[i]
  {
  }

  lemma LongerOverrun(l: Layout, i: nat, w: string)
    requires Sound(l)
    ensures i < |Longer(l, i + 1).offs| == |Longer(l, i + 1).strs| && Longer(l, i + 1).data >= 0
    ensures var a := Allocated(Longer(l, i + 1), i, w); a.data > a.size <==> OverrunsAt(l, i, |w|)
  {
    hide Geometry, Allocated, Target, PackedTop;
    SoundFits(l);
    LongerSound(l, i + 1);
    LongerHas(l, i);
    OverrunIff(Longer(l, i + 1), i, w);
    if i >= |l.offs| {
      AppendedTarget(Longer(l, i + 1), i, |w|);
    }
  }

  lemma AppendedTarget(l: Layout, i: nat, len: nat)
    requires i < |l.offs| == |l.strs| && l.offs[i] == 0
    ensures TargetOf(l, i, len) == i
  {
  }

  /** A step that is not stopped updates the map if and only if it writes the right string. */
  lemma StepIsMap(l: Layout, op: Op)
    requires Sound(l)
    ensures l.data >= 0
    ensures Step(l, op).Running? && RightPlace(l, op) ==> Step(l, op).layout.strs == MapStep(l.strs, op)
    ensures Step(l, op).Running? && !RightPlace(l, op) && (op.AssignRaw? ==> '\0' !in op.raw) ==>
      Step(l, op).layout.strs != MapStep(l.strs, op)
  {
    hide SetStep, RawStep, AppendStep, Sound, Geometry, TargetOf, Longer, Packed, Extend, Read, UpToNul;
    SoundFits(l);
    if Step(l, op).Running? {
      match op
      case Assign(i, src) =>
        SetStepIsMap(l, i, Read(l.strs, src));
      case AssignRaw(i, raw) =>
        RawStepIsMap(l, i, raw);
        SetStepIsMap(l, i, raw);
        assert '\0' !in raw ==> UpToNul(raw) == raw;
      case Append(i, src) =>
        if Read(l.strs, src) != "" {
          AppendStepIsMap(l, i, Read(l.strs, src));
        } else if 0 <= i < |l.strs| {
          assert l.strs[i] + "" == l.strs[i];
        }
      case Reserve(newsize) =>
        PackedKeeps(l, newsize);
    }
  }

  lemma PackedKeeps(l: Layout, newsize: int)
    ensures Packed(l, newsize).strs == l.strs && Packed(l, newsize).offs == PackedOffs(l.strs, |l.strs|)
  {
  }

  /** A step that writes the right string stays in the buffer. */
  lemma RightPlaceFits(l: Layout, op: Op)
    requires Sound(l) && RightPlace(l, op)
    ensures l.data >= 0 && (Step(l, op).Failed? ==> Step(l, op).outcome == OutOfRange)
  {
    hide Sound, Geometry, Longer, TargetOf, Allocated, SetStep, Read, UpToNul;
    SoundFits(l);
    match op
    case Assign(i, src) =>
      if Exists(l.strs, src) && i >= 0 {
        SetStepFits(l, i, Read(l.strs, src));
      }
    case AssignRaw(i, raw) =>
      if i >= 0 {
        SetStepFits(l, i, raw);
        RawSameSize(l, i, raw);
      }
    case Append(i, src) =>
      if Exists(l.strs, src) && 0 <= i < |l.strs| && Read(l.strs, src) != "" {
        AllocatedSound(l, i, l.strs[i] + Read(l.strs, src));
      }
    case Reserve(newsize) =>
  }

  lemma RawSameSize(l: Layout, i: nat, raw: string)
    requires |l.offs| == |l.strs| && l.data >= 0
    ensures RawStep(l, i, raw).data == SetStep(l, i, raw).data && RawStep(l, i, raw).size == SetStep(l, i, raw).size
    ensures RawStep(l, i, raw).copied == SetStep(l, i, raw).copied
  {
  }

  lemma SetStepFits(l: Layout, i: nat, s: string)
    requires Sound(l) && (s == "" || TargetOf(Longer(l, i + 1), i, |s|) == i)
    ensures l.data >= 0 && SetStep(l, i, s).data <= SetStep(l, i, s).size
  {
    hide Geometry, Longer, TargetOf, Allocated;
    SoundFits(l);
    LongerSound(l, i + 1);
    LongerHas(l, i);
    if s == "" {
      ErasedSound(Longer(l, i + 1), i);
    } else {
      AllocatedSound(Longer(l, i + 1), i, s);
    }
  }

  // ----- one step and the space -----

  /** Bytes are lost: the buffer moves and copies the string that is being replaced, or room was made for
      characters behind a zero. */
  predicate Wasteful(l: Layout, op: Op)
    requires |l.offs| == |l.strs|
  {
    match op
    case Assign(i, src) =>
      Exists(l.strs, src) && i >= 0 && Read(l.strs, src) != "" &&
        Recopies(Longer(l, i + 1), i, |Read(l.strs, src)|)
    case AssignRaw(i, raw) =>
      i >= 0 && raw != "" && ('\0' in raw || Recopies(Longer(l, i + 1), i, |raw|))
    case Append(i, src) =>
      Exists(l.strs, src) && 0 <= i < |l.strs| && Read(l.strs, src) != "" &&
        Recopies(l, i, |l.strs[i]| + |Read(l.strs, src)|)
    case Reserve(newsize) => false
  }

  lemma SetStepTight(l: Layout, i: nat, s: string)
    requires Sound(l) && (s == "" || TargetOf(Longer(l, i + 1), i, |s|) == i)
    requires Tight(l) || (s != "" && Moves(Longer(l, i + 1), i, |s|))
    ensures l.data >= 0
    ensures Tight(SetStep(l, i, s)) <==> s == "" || !Recopies(Longer(l, i + 1), i, |s|)
  {
    hide Sound, Geometry, Longer, TargetOf, Allocated, Recopies, Tight;
    SoundFits(l);
    LongerSound(l, i + 1);
    LongerHas(l, i);
    if s == "" {
      ErasedSound(Longer(l, i + 1), i);
    } else {
      AllocatedTight(Longer(l, i + 1), i, s);
    }
  }

  /** Cutting a string short leaves bytes that nobody counts. */
  lemma CutIsLoose(a: Layout, i: nat, s: string)
    requires Sound(a) && a.size > 0 && i < |a.offs| && a.offs[i] != 0 && |s| < |a.strs[i]|
    ensures !Tight(a.(strs := a.strs[i := s]))
  {
    LiveUpdate(a.offs, a.strs, i, a.offs[i], s);
    assert a.offs[i := a.offs[i]] == a.offs;
  }

  lemma RawStepTight(l: Layout, i: nat, raw: string)
    requires Sound(l) && raw != "" && TargetOf(Longer(l, i + 1), i, |raw|) == i
    requires Tight(l) || Moves(Longer(l, i + 1), i, |raw|)
    ensures l.data >= 0
    ensures Tight(RawStep(l, i, raw)) <==> !('\0' in raw || Recopies(Longer(l, i + 1), i, |raw|))
  {
    hide Geometry, Longer, Allocated, Recopies, Tight;
    SetStepTight(l, i, raw);
    LongerSound(l, i + 1);
    LongerHas(l, i);
    var e, a := Longer(l, i + 1), SetStep(l, i, raw);
    AllocatedSound(e, i, raw);
    TargetPlaced(e, i, raw);
    if '\0' in raw {
      assert UpToNul(raw) != raw;
      CutIsLoose(a, i, UpToNul(raw));
    } else {
      assert UpToNul(raw) == raw && a.strs[i := raw] == a.strs;
    }
  }

  /** Exact accounting survives a step if and only if the step is not wasteful. */
  lemma StepTight(l: Layout, op: Op)
    requires Sound(l) && Tight(l) && RightPlace(l, op)
    ensures l.data >= 0
    ensures Step(l, op).Running? ==> (Tight(Step(l, op).layout) <==> !Wasteful(l, op))
  {
    hide SetStep, RawStep, Sound, Geometry, TargetOf, Longer, Recopies, Tight, Allocated, Extend, Read, UpToNul;
    SoundFits(l);
    if Step(l, op).Running? {
      match op
      case Assign(i, src) =>
        SetStepTight(l, i, Read(l.strs, src));
      case AssignRaw(i, raw) =>
        if raw == "" {
          SetStepTight(l, i, raw);
          RawEmpty(l, i);
        } else {
          RawStepTight(l, i, raw);
        }
      case Append(i, src) =>
        if Read(l.strs, src) != "" {
          AllocatedTight(l, i, l.strs[i] + Read(l.strs, src));
        }
      case Reserve(newsize) =>
        PackedSound(l, newsize);
    }
  }

  lemma RawEmpty(l: Layout, i: nat)
    requires Paired(l) && l.data >= 0
    ensures RawStep(l, i, "") == SetStep(l, i, "")
  {
  }

  // ----- whole runs -----

  /** The run as a sequence of updates of a map. */
  function MapRun(ops: seq<Op>): seq<string> {
    if ops == [] then [] else MapStep(MapRun(ops[..|ops| - 1]), ops[|ops| - 1])
  }

  /** Every step of the run writes the right string. */
  ghost predicate RightRun(ops: seq<Op>) {
    ops != [] ==>
      var front := ops[..|ops| - 1];
      RightRun(front) && (Run(front).Running? ==> RightPlace(Run(front).layout, ops[|ops| - 1]))
  }

  /** No step of the run loses bytes. */
  ghost predicate FrugalRun(ops: seq<Op>) {
    ops != [] ==>
      var front := ops[..|ops| - 1];
      FrugalRun(front) && (Run(front).Running? ==> !Wasteful(Run(front).layout, ops[|ops| - 1]))
  }

  /** Over any run whose steps all write the right string, the pool is a map from index to string, and only
      an index out of range can stop it. */
  lemma {:induction false} RunIsMap(ops: seq<Op>)
    requires RightRun(ops)
    ensures match Run(ops) case Running(l) => l.strs == MapRun(ops) case Failed(o) => o == OutOfRange
    decreases |ops|
  {
    hide Sound, RightPlace, Step, MapStep;
    if ops != [] {
      var front, op := ops[..|ops| - 1], ops[|ops| - 1];
      RunIsMap(front);
      if Run(front).Running? {
        StepIsMap(Run(front).layout, op);
        RightPlaceFits(Run(front).layout, op);
      }
    }
  }

  /** Over any such run that loses no bytes, the used part is exactly the garbage, the zero at offset 0 and
      the live strings, once there is a buffer. */
  lemma {:induction false} RunIsTight(ops: seq<Op>)
    requires RightRun(ops) && FrugalRun(ops)
    ensures Run(ops).Running? ==> Tight(Run(ops).layout)
    decreases |ops|
  {
    hide Sound, RightPlace, Wasteful, Step, Exact;
    if ops != [] {
      var front, op := ops[..|ops| - 1], ops[|ops| - 1];
      RunIsTight(front);
      if Run(front).Running? {
        StepTight(Run(front).layout, op);
      }
    }
  }

  // ----- runs that are right without looking at the pool -----

  /** The operation may store a string that is not empty. */
  predicate Stores(op: Op) {
    match op
    case Assign(i, src) => src.Element? || UpToNul(src.s) != ""
    case AssignRaw(i, raw) => raw != ""
    case Append(i, src) => src.Element? || UpToNul(src.s) != ""
    case Reserve(newsize) => false
  }

  /** The index last stored to. */
  function LastIndex(ops: seq<Op>): int {
    if ops == [] then 0
    else if Stores(ops[|ops| - 1]) then ops[|ops| - 1].i
    else LastIndex(ops[..|ops| - 1])
  }

  /** Strings are stored in the order of their indices; any may be erased at any time. */
  predicate Ordered(ops: seq<Op>) {
    ops != [] ==> Ordered(ops[..|ops| - 1]) && InOrder(ops[|ops| - 1], LastIndex(ops[..|ops| - 1]))
  }

  predicate InOrder(op: Op, last: int) {
    (Stores(op) ==> op.i >= last) && (op.AssignRaw? ==> '\0' !in op.raw)
  }

  /** Every place belongs to a nonempty string with an index up to `last`. */
  ghost predicate Settled(l: Layout, last: int) {
    Paired(l) && forall k :: 0 <= k < |l.offs| && l.offs[k] != 0 ==> l.strs[k] != "" && k <= last
  }

  lemma SettledTarget(l: Layout, i: nat, len: nat, last: int)
    requires Sound(l) && Settled(l, last) && i < |l.offs| && i >= last
    ensures TargetOf(l, i, len) == i
  {
    assert forall j :: i < j < |l.strs| ==> l.offs[j] == 0;
  }

  lemma SettledPacked(l: Layout, newsize: int, last: int)
    requires Sound(l) && Settled(l, last)
    ensures Settled(Packed(l, newsize), last)
  {
    forall k | 0 <= k < |l.offs| && l.strs[k] != ""
      ensures k <= last
    {
      assert l.offs[k] != 0;
    }
  }

  /** Putting a nonempty string at an index keeps it. */
  lemma SettledPut(r: Layout, a: Layout, i: nat, w: string, last: int)
    requires Settled(r, last) && i < |r.offs| && i >= last && w != ""
    requires |a.offs| == |r.offs| && a.strs == r.strs[i := w]
    requires forall k :: 0 <= k < |r.offs| && k != i ==> a.offs[k] == r.offs[k]
    ensures Settled(a, i)
  {
  }

  lemma SettledAllocated(l: Layout, i: nat, w: string, last: int)
    requires Sound(l) && Settled(l, last) && i < |l.offs| && i >= last && w != ""
    ensures l.data >= 0 && Settled(Allocated(l, i, w), i)
  {
    hide Sound, Geometry, Target, Packed, Settled;
    SoundFits(l);
    SettledTarget(l, i, |w|, last);
    if LastStored(l, i) {
      SettledPacked(l, l.top + |w| + 1, last);
      PackedKeeps(l, l.top + |w| + 1);
      SettledPut(RoomAtTop(l, |w|), Allocated(l, i, w), i, w, last);
    } else if FitsInPlace(l, i, |w|) {
      SettledPut(l, Allocated(l, i, w), i, w, last);
    } else {
      var d := Dropped(l, i);
      SettledPacked(l, d.data + |w| + 1, last);
      PackedKeeps(d, d.data + |w| + 1);
      PackedKeeps(l, d.data + |w| + 1);
      SettledSame(Packed(l, d.data + |w| + 1), Packed(d, d.data + |w| + 1), last);
      SettledSame(l, d, last);
      SettledPut(RoomAtEnd(d, |w|), Allocated(l, i, w), i, w, last);
    }
  }

  lemma SettledSame(a: Layout, b: Layout, last: int)
    requires Settled(a, last) && a.offs == b.offs && a.strs == b.strs
    ensures Settled(b, last)
  {
  }

  lemma SettledLonger(l: Layout, n: nat, last: int)
    requires Sound(l) && Settled(l, last)
    ensures Settled(Longer(l, n), last)
  {
    assert forall k :: 0 <= k < |l.offs| ==> Longer(l, n).offs[k] == l.offs[k] && Longer(l, n).strs[k] == l.strs[k];
  }

  lemma SetInOrder(l: Layout, i: nat, s: string, last: int)
    requires Sound(l) && Settled(l, last) && (s != "" ==> i >= last)
    ensures l.data >= 0 && Settled(SetStep(l, i, s), if s == "" then last else i)
    ensures s == "" || TargetOf(Longer(l, i + 1), i, |s|) == i
  {
    hide Sound, Longer, TargetOf, Allocated;
    SoundFits(l);
    LongerSound(l, i + 1);
    LongerHas(l, i);
    SettledLonger(l, i + 1, last);
    if s != "" {
      SettledTarget(Longer(l, i + 1), i, |s|, last);
      SettledAllocated(Longer(l, i + 1), i, s, last);
    }
  }

  lemma RawInOrder(l: Layout, i: nat, raw: string)
    requires Sound(l) && '\0' !in raw
    ensures l.data >= 0 && RawStep(l, i, raw) == SetStep(l, i, raw)
  {
    hide Geometry, Allocated, TargetOf, Longer;
    SoundFits(l);
    LongerSound(l, i + 1);
    LongerHas(l, i);
    if raw != "" {
      var e := Longer(l, i + 1);
      AllocatedSound(e, i, raw);
      assert UpToNul(raw) == raw;
      PutAgain(e.strs, TargetOf(e, i, |raw|), raw, raw);
    }
  }

  lemma StepInOrder(l: Layout, op: Op, last: int)
    requires Sound(l) && Settled(l, last) && InOrder(op, last)
    ensures RightPlace(l, op)
    ensures l.data >= 0
    ensures Step(l, op).Running? ==> Settled(Step(l, op).layout, if Stores(op) then op.i else last)
  {
    hide Sound, Longer, TargetOf, Settled, SetStep, RawStep, UpToNul, Allocated;
    SoundFits(l);
    match op
    case Assign(i, src) =>
      if Exists(l.strs, src) && i >= 0 {
        SetInOrder(l, i, Read(l.strs, src), last);
        SettledMore(SetStep(l, i, Read(l.strs, src)), last, i);
      }
    case AssignRaw(i, raw) =>
      if i >= 0 {
        SetInOrder(l, i, raw, last);
        RawInOrder(l, i, raw);
      }
    case Append(i, src) =>
      SettledMore(l, last, i);
      if Exists(l.strs, src) && 0 <= i < |l.strs| && Read(l.strs, src) != "" {
        var w := l.strs[i] + Read(l.strs, src);
        SettledTarget(l, i, |w|, last);
        SettledAllocated(l, i, w, last);
      }
    case Reserve(newsize) =>
      SettledPacked(l, newsize, last);
  }

  lemma SettledMore(l: Layout, last: int, i: int)
    ensures Settled(l, last) && i >= last ==> Settled(l, i)
  {
  }

  lemma {:induction false} OrderedIsSettled(ops: seq<Op>)
    requires Ordered(ops)
    ensures RightRun(ops) && (Run(ops).Running? ==> Settled(Run(ops).layout, LastIndex(ops)))
    decreases |ops|
  {
    hide Sound, RightPlace, InOrder, Step, Stores;
    if ops != [] {
      var front, op := ops[..|ops| - 1], ops[|ops| - 1];
      OrderedIsSettled(front);
      if Run(front).Running? {
        StepInOrder(Run(front).layout, op, LastIndex(front));
      }
    }
  }

  /** Storing in the order of the indices is always safe: the pool is the map, whatever the lengths. */
  lemma OrderedRunIsMap(ops: seq<Op>)
    requires Ordered(ops)
    ensures match Run(ops) case Running(l) => l.strs == MapRun(ops) case Failed(o) => o == OutOfRange
  {
    OrderedIsSettled(ops);
    RunIsMap(ops);
  }

  // ----- two runs that go wrong -----

  lemma RunSnoc(ops: seq<Op>, op: Op)
    ensures Run(ops).Failed? ==> Run(ops + [op]) == Run(ops)
    ensures Run(ops).Running? ==>
      var l := Run(ops).layout; Paired(l) && l.data >= 0 && Run(ops + [op]) == Step(l, op)
  {
    if Run(ops).Running? {
      StepSound(Run(ops).layout, op);
    }
    assert (ops + [op])[..|ops + [op]| - 1] == ops;
  }

  /** The pool after `b` was stored at index 1 and `a` at index 0, both short. */
  function TwoStrings(a: string, b: string): Layout {
    Layout([|b| + 2, 1], [a, b], 4097, |a| + |b| + 3, 0, |b| + 2, 0)
  }

  lemma OneStored(b: string)
    requires b != "" && '\0' !in b && |b| <= 100
    ensures Run([Assign(1, Text(b))]) == Running(Layout([0, 1], ["", b], 4097, |b| + 2, 0, 1, 0))
  {
    hide Run, Packed, Sound;
    var first := Assign(1, Text(b));
    assert UpToNul(b) == b;
    var e := Longer(Empty, 2);
    assert e == Layout([0, 0], ["", ""], 0, 0, 0, 0, 0);
    EmptyBuffer(e, |b| + 1);
    RunEmpty();
    RunSnoc([], first);
    assert [] + [first] == [first];
  }

  lemma TwoStored(a: string, b: string)
    requires a != "" && b != "" && '\0' !in a + b && |a| + |b| <= 100
    ensures Run([Assign(1, Text(b)), Assign(0, Text(a))]) == Running(TwoStrings(a, b))
  {
    hide Run, Packed, Sound;
    var first, second := Assign(1, Text(b)), Assign(0, Text(a));
    assert UpToNul(a) == a;
    OneStored(b);
    RunSnoc([first], second);
    assert [first] + [second] == [first, second];
  }

  lemma RunEmpty()
    ensures Run([]) == Running(Empty)
  {
  }

  lemma EmptyBuffer(l: Layout, newsize: int)
    requires l == Layout([0, 0], ["", ""], 0, 0, 0, 0, 0) && newsize <= 4096
    ensures Packed(l, newsize) == Layout([0, 0], ["", ""], 4097, 1, 0, 1, 0)
  {
    EmptyPacked(l.strs, 2);
    assert seq(2, _ => 0) == [0, 0];
  }

  lemma TwoPacked(a: string, b: string)
    requires a != "" && b != ""
    ensures PackedOffs([a, b], 2) == [1, |a| + 2] && PackedTop([a, b], 2) == |a| + 2
    ensures LastNonEmpty([a, b], 2) == 1
  {
    assert Pos([a, b], 1) == |a| + 2;
  }

  /** Making string 0 long does not change it: string 1 is rewritten instead or, if the first was longer than
      the second by two characters or more, the copy runs past the end of the new buffer. */
  lemma WrongStringRewritten(a: string, b: string, s: string)
    requires a != "" && b != "" && '\0' !in a + b && |a| + |b| <= 100 && '\0' !in s && |s| >= 5000
    ensures var ops := [Assign(1, Text(b)), Assign(0, Text(a)), Assign(0, Text(s))];
      if |a| >= |b| + 2 then Run(ops) == Failed(Overrun)
      else Run(ops).Running? && Run(ops).layout.strs == [a, s] && MapRun(ops) == [s, b]
  {
    hide Run, Packed, Sound;
    var ops := [Assign(1, Text(b)), Assign(0, Text(a))];
    var third, l := Assign(0, Text(s)), TwoStrings(a, b);
    TwoStored(a, b);
    TwoPacked(a, b);
    RunSnoc(ops, third);
    assert ops + [third] == [Assign(1, Text(b)), Assign(0, Text(a)), third];
    assert UpToNul(a) == a && UpToNul(b) == b && UpToNul(s) == s;
    LongRewrite(a, b, s);
    MapOfThree(a, b, s);
  }

  lemma LongRewrite(a: string, b: string, s: string)
    requires a != "" && b != "" && |a| + |b| <= 100 && |s| >= 5000
    ensures SetStep(TwoStrings(a, b), 0, s).strs == [a, s]
    ensures SetStep(TwoStrings(a, b), 0, s).data == |a| + |s| + 3
    ensures SetStep(TwoStrings(a, b), 0, s).size == |b| + |s| + 4
  {
    TwoPacked(a, b);
    var l := TwoStrings(a, b);
    assert Longer(l, 1) == l;
  }

  lemma MapOfThree(a: string, b: string, s: string)
    requires UpToNul(a) == a && UpToNul(b) == b && UpToNul(s) == s
    ensures MapRun([Assign(1, Text(b)), Assign(0, Text(a)), Assign(0, Text(s))]) == [s, b]
  {
    var x, y, z := Assign(1, Text(b)), Assign(0, Text(a)), Assign(0, Text(s));
    assert [x, y, z][..2] == [x, y] && [x, y][..1] == [x] && [x][..0] == [];
    assert MapRun([x]) == ["", b];
    assert MapRun([x, y]) == [a, b];
  }

  // ----- when there is a buffer -----

  /** The operation makes room for characters of its own. */
  predicate MakesRoom(op: Op) {
    op.Reserve? || (Stores(op) && (op.AssignRaw? || op.src.Text?))
  }

  /** There is no buffer, and the pointer to every string is null, exactly until the first operation that
      makes room for characters. */
  lemma {:induction false} NoBufferIff(ops: seq<Op>)
    ensures Run(ops).Running? ==> (Run(ops).layout.size == 0 <==> forall k :: 0 <= k < |ops| ==> !MakesRoom(ops[k]))
    decreases |ops|
  {
    hide Sound, Step, MakesRoom;
    if ops != [] {
      var front, op := ops[..|ops| - 1], ops[|ops| - 1];
      NoBufferIff(front);
      assert forall k :: 0 <= k < |front| ==> front[k] == ops[k];
      if Run(ops).Running? {
        StepBuffer(Run(front).layout, op);
      }
    }
  }

  /** After the empty string was stored in a new pool, string 0 exists but its pointer is null. */
  lemma EmptyStringNoBuffer()
    ensures Run([Assign(0, Text(""))]) == Running(Layout([0], [""], 0, 0, 0, 0, 0))
  {
    var op := Assign(0, Text(""));
    RunEmpty();
    RunSnoc([], op);
    assert [] + [op] == [op];
    assert Longer(Empty, 1) == Layout([0], [""], 0, 0, 0, 0, 0);
  }

  lemma StepBuffer(l: Layout, op: Op)
    requires Sound(l)
    ensures l.data >= 0
    ensures Step(l, op).Running? ==> (Step(l, op).layout.size == 0 <==> l.size == 0 && !MakesRoom(op))
  {
    SoundFits(l);
    assert l.size == 0 ==> forall k :: 0 <= k < |l.strs| ==> l.strs[k] == "";
    hide Sound, Longer, Allocated, Packed;
    if Step(l, op).Running? {
      match op
      case Assign(i, src) =>
        SetBuffer(l, i, Read(l.strs, src));
      case AssignRaw(i, raw) =>
        SetBuffer(l, i, raw);
        RawSameSize(l, i, raw);
      case Append(i, src) =>
        if Read(l.strs, src) != "" {
          AllocatedSound(l, i, l.strs[i] + Read(l.strs, src));
        }
      case Reserve(newsize) =>
        PackedSize(l, newsize);
    }
  }

  lemma PackedSize(l: Layout, newsize: int)
    requires Sound(l)
    ensures Packed(l, newsize).size > 0
  {
    SoundFits(l);
  }

  lemma SetBuffer(l: Layout, i: nat, s: string)
    requires Sound(l)
    ensures l.data >= 0 && (SetStep(l, i, s).size == 0 <==> l.size == 0 && s == "")
  {
    hide Geometry, Longer, Allocated;
    SoundFits(l);
    LongerSound(l, i + 1);
    LongerHas(l, i);
    if s != "" {
      AllocatedSound(Longer(l, i + 1), i, s);
    }
  }
}
