/** The book-keeping of StringPoolS as a machine on values: what every operation does to offsets, strings
    and counters, and what follows for whole runs. */
module StringPoolSteps {
  import opened StringPoolLayout

  const AllocateSpace1 := 4096

  /** `OutOfRange` and `BeyondEnd` stand for the two fatal error exits, `Overrun` for a copy that would
      run past the end of the buffer. */
  datatype Outcome = Ok | OutOfRange | BeyondEnd | Overrun

  function Max(a: int, b: int): int { if a < b then b else a }

  /** Offsets and strings by index, size of the buffer, the counters DataSize, GarbageSize and Top, and how
      many characters were ever copied from a buffer to a larger one. */
  datatype Layout = Layout(offs: seq<nat>, strs: seq<string>, size: int, data: int, garbage: int, top: int, copied: int)

  const Empty := Layout([], [], 0, 0, 0, 0, 0)

  ghost predicate Paired(l: Layout) { |l.offs| == |l.strs| }

  /** Without a buffer there is nothing; with one the strings are disjoint intervals in [1, data), and the
      zero at offset 0, the garbage and the live strings fit in `data`, which fits in the buffer. */
  ghost predicate Sound(l: Layout) {
    && Paired(l) && 0 <= l.size
    && (l.size == 0 ==> l.data == 0 && l.garbage == 0 && l.top == 0 &&
                        forall k :: 0 <= k < |l.offs| ==> l.offs[k] == 0 && l.strs[k] == "")
    && (l.size > 0 ==> l.data <= l.size && Geometry(l.offs, l.strs, l.data, l.garbage, l.top))
  }

  /** No byte of the used part is unaccounted for. */
  ghost predicate Tight(l: Layout) {
    l.size == 0 || Exact(l.offs, l.strs, l.data, l.garbage, l.top)
  }

  // ----- the operations -----

  function GrownSize(l: Layout, newsize: int): int {
    Max(newsize, (l.data - l.garbage) * 2 + AllocateSpace1) + 1
  }

  /** `ReserveBuf` */
  function Packed(l: Layout, newsize: int): Layout {
    var n := |l.strs|;
    Layout(PackedOffs(l.strs, n), l.strs, GrownSize(l, newsize), Pos(l.strs, n), 0, PackedTop(l.strs, n),
           l.copied + Pos(l.strs, n) - 1)
  }

  function RoomAtTop(l: Layout, len: nat): Layout {
    if l.top + len + 1 > l.size then Packed(l, l.top + len + 1) else l
  }

  /** The end of the used part has no room. */
  predicate Moved(l: Layout, len: nat) { l.data + len + 1 > l.size }

  function RoomAtEnd(l: Layout, len: nat): Layout {
    if Moved(l, len) then Packed(l, l.data + len + 1) else l
  }

  predicate LastStored(l: Layout, i: nat)
    requires i < |l.offs|
  {
    l.offs[i] != 0 && l.offs[i] == l.top
  }

  predicate FitsInPlace(l: Layout, i: nat, len: nat)
    requires i < |l.offs| == |l.strs|
  {
    l.offs[i] != 0 && |l.strs[i]| >= len
  }

  function TargetOf(l: Layout, i: nat, len: nat): int
    requires i < |l.offs| == |l.strs|
  {
    Target(l.offs, l.strs, l.top, l.size, i, len)
  }

  function AtTop(l: Layout, t: int, w: string): Layout {
    l.(data := l.top + |w| + 1, strs := Put(l.strs, t, w))
  }

  function InPlace(l: Layout, i: nat, w: string): Layout
    requires i < |l.strs|
  {
    l.(garbage := l.garbage + |l.strs[i]| - |w|, strs := l.strs[i := w])
  }

  /** The old string of index `i` counts as garbage. */
  function Dropped(l: Layout, i: nat): Layout
    requires i < |l.offs| == |l.strs|
  {
    l.(garbage := l.garbage + Slot(l.offs[i], l.strs[i]))
  }

  function AtEnd(l: Layout, i: nat, w: string): Layout
    requires i < |l.offs| == |l.strs| && l.data >= 0
  {
    l.(offs := l.offs[i := l.data], top := l.data, data := l.data + |w| + 1, strs := l.strs[i := w])
  }

  /** `Allocate` for `w` and the copy that follows: all four paths. */
  function Allocated(l: Layout, i: nat, w: string): Layout
    requires i < |l.offs| == |l.strs| && l.data >= 0
  {
    if LastStored(l, i) then AtTop(RoomAtTop(l, |w|), TargetOf(l, i, |w|), w)
    else if FitsInPlace(l, i, |w|) then InPlace(l, i, w)
    else AtEnd(RoomAtEnd(Dropped(l, i), |w|), i, w)
  }

  function Erased(l: Layout, i: nat): Layout
    requires i < |l.offs| == |l.strs|
  {
    l.(garbage := l.garbage + Slot(l.offs[i], l.strs[i]), offs := l.offs[i := 0], strs := l.strs[i := ""])
  }

  function Zeros(offs: seq<nat>, n: nat): (r: seq<nat>)
    ensures |r| == if n <= |offs| then |offs| else n
    ensures offs <= r && forall k :: |offs| <= k < |r| ==> r[k] == 0
    ensures n <= |offs| ==> r == offs
  {
    if n <= |offs| then offs else offs + seq(n - |offs|, _ => 0)
  }

  /** An index past the end adds empty strings. */
  function Longer(l: Layout, n: nat): Layout {
    l.(offs := Zeros(l.offs, n), strs := Extend(l.strs, n))
  }

  /** `Set` */
  function SetStep(l: Layout, i: nat, s: string): Layout
    requires |l.offs| == |l.strs| && l.data >= 0
  {
    if s == "" then Erased(Longer(l, i + 1), i) else Allocated(Longer(l, i + 1), i, s)
  }

  /** `Set` with a length: room is made for all characters, the string ends at the first zero. */
  function RawStep(l: Layout, i: nat, raw: string): Layout
    requires |l.offs| == |l.strs| && l.data >= 0
  {
    var a := SetStep(l, i, raw);
    if raw == "" then a
    else a.(strs := Put(a.strs, TargetOf(Longer(l, i + 1), i, |raw|), UpToNul(raw)))
  }

  /** `Concatenate` */
  function AppendStep(l: Layout, i: nat, s: string): Layout
    requires i < |l.offs| == |l.strs| && l.data >= 0
  {
    if s == "" then l else Allocated(l, i, l.strs[i] + s)
  }

  // ----- what they keep -----

  lemma SoundFits(l: Layout)
    requires Sound(l)
    ensures 1 <= Pos(l.strs, |l.strs|) <= l.data - l.garbage + 1 && 0 <= l.garbage && 0 <= l.data <= l.size
    ensures l.size > 0 ==> Pos(l.strs, |l.strs|) <= l.data
    ensures |l.offs| == |l.strs|
  {
    if l.size == 0 {
      EmptyPacked(l.strs, |l.strs|);
    } else {
      PackedFits(l.offs, l.strs);
    }
  }

  lemma PackedSound(l: Layout, newsize: int)
    requires Pos(l.strs, |l.strs|) <= GrownSize(l, newsize)
    ensures Sound(Packed(l, newsize)) && Tight(Packed(l, newsize))
  {
    GeometryPacked(l.strs);
    ExactPacked(l.strs);
  }

  /** Room at the top after packing: the place is that of the last nonempty string by index. */
  lemma RoomAtTopSound(l: Layout, i: nat, len: nat)
    requires Sound(l) && i < |l.offs| && LastStored(l, i)
    ensures var r, t := RoomAtTop(l, len), TargetOf(l, i, len);
      && Sound(r) && r.size > 0 && t < |r.offs| && r.strs == l.strs
      && (if t >= 0 then LastStored(r, t)
          else r.garbage == 0 && r.top == 1 && forall k :: 0 <= k < |r.offs| ==> r.offs[k] == 0)
      && (t == i ==> r.top + len + 1 <= r.size)
  {
    hide Geometry, Exact, Live, Pos, PackedTop, Tight;
    SoundFits(l);
    if l.top + len + 1 > l.size {
      PackedSound(l, l.top + len + 1);
      PackedTarget(l.strs);
      if TargetOf(l, i, len) == i {
        PackedTopFits(l.offs, l.strs, l.data, l.garbage, l.top, i);
      }
    }
  }

  lemma AtTopGeometry(r: Layout, t: int, w: string)
    requires Sound(r) && r.size > 0 && t < |r.offs|
    requires if t >= 0 then LastStored(r, t)
             else r.garbage == 0 && r.top == 1 && forall k :: 0 <= k < |r.offs| ==> r.offs[k] == 0
    ensures var a := AtTop(r, t, w); Paired(a) && Geometry(a.offs, a.strs, a.data, a.garbage, a.top)
    ensures t >= 0 && Tight(r) ==> Tight(AtTop(r, t, w))
  {
    if t >= 0 {
      GeometryAtTop(r.offs, r.strs, r.data, r.garbage, r.top, t, w);
      if Tight(r) {
        ExactAtTop(r.offs, r.strs, r.data, r.garbage, r.top, t, w);
      }
    } else {
      LiveZero(r.offs, r.strs);
    }
  }

  /** The end of the used part, with `g` for the garbage that is not the old string of index `i`. */
  lemma RoomAtEndGeometry(l: Layout, i: nat, len: nat)
    requires Sound(l) && i < |l.offs|
    ensures var r, g := RoomAtEnd(Dropped(l, i), len), if Moved(l, len) then 0 else l.garbage;
      && Paired(r) && |r.offs| == |l.offs| && r.strs == l.strs && 1 <= r.data && r.data + len + 1 <= r.size
      && Geometry(r.offs, r.strs, r.data, g, r.top) && 0 <= r.garbage <= g + Slot(r.offs[i], r.strs[i])
  {
    hide Geometry, Exact, Live, Pos, PackedTop, PackedOffs, Tight;
    SoundFits(l);
    var d := Dropped(l, i);
    if Moved(l, len) {
      PackedSound(d, d.data + len + 1);
    }
  }

  lemma AtEndSound(l: Layout, i: nat, w: string)
    requires Sound(l) && i < |l.offs|
    ensures Sound(AtEnd(RoomAtEnd(Dropped(l, i), |w|), i, w))
  {
    hide Geometry, Live, RoomAtEnd;
    RoomAtEndGeometry(l, i, |w|);
    var r, g := RoomAtEnd(Dropped(l, i), |w|), if Moved(l, |w|) then 0 else l.garbage;
    GeometryAppend(r.offs, r.strs, r.data, g, r.top, i, w, r.garbage);
  }

  /** The new layout is in order, except that it may not fit into the buffer when the place handed out is
      that of another string. */
  lemma AllocatedSound(l: Layout, i: nat, w: string)
    requires Sound(l) && i < |l.offs|
    ensures var a := Allocated(l, i, w); Paired(a) && Geometry(a.offs, a.strs, a.data, a.garbage, a.top) && a.size > 0
    ensures TargetOf(l, i, |w|) == i ==> Allocated(l, i, w).data <= Allocated(l, i, w).size
    ensures Allocated(l, i, w).data <= Allocated(l, i, w).size ==> Sound(Allocated(l, i, w))
    ensures Allocated(l, i, w).strs == Put(l.strs, TargetOf(l, i, |w|), w)
  {
    hide Geometry, Exact, Live, Pos, PackedTop;
    if LastStored(l, i) {
      RoomAtTopSound(l, i, |w|);
      AtTopGeometry(RoomAtTop(l, |w|), TargetOf(l, i, |w|), w);
    } else if FitsInPlace(l, i, |w|) {
      GeometryShrink(l.offs, l.strs, l.data, l.garbage, l.top, i, w);
    } else {
      AtEndSound(l, i, w);
    }
  }

  /** Exactly when the copy that follows would run past the end of the buffer: the buffer has to move for
      the string stored last, and the last nonempty string by index comes to lie too high in the new one. */
  lemma OverrunIff(l: Layout, i: nat, w: string)
    requires Sound(l) && i < |l.offs|
    ensures Allocated(l, i, w).data > Allocated(l, i, w).size <==>
      TargetOf(l, i, |w|) != i && PackedTop(l.strs, |l.strs|) + |w| + 1 > GrownSize(l, l.top + |w| + 1)
  {
    hide Geometry, Exact, Live, Pos, PackedTop;
    AllocatedSound(l, i, w);
  }

  /** Room is made by moving everything to a new buffer. */
  predicate Moves(l: Layout, i: nat, len: nat)
    requires i < |l.offs| == |l.strs|
  {
    if LastStored(l, i) then l.top + len + 1 > l.size else !FitsInPlace(l, i, len) && Moved(l, len)
  }

  /** The string that has to be moved to the end of a new buffer is copied there once more. */
  predicate Recopies(l: Layout, i: nat, len: nat)
    requires i < |l.offs| == |l.strs|
  {
    Moves(l, i, len) && !LastStored(l, i) && l.strs[i] != ""
  }

  /** Appending without counting the old string as garbage is exact only if there was none. */
  lemma AppendTight(r: Layout, i: nat, w: string)
    requires Sound(r) && i < |r.offs| && Exact(r.offs, r.strs, r.data, r.garbage, r.top) && r.data > 0
    ensures Tight(AtEnd(r, i, w)) <==> r.size == 0 || Slot(r.offs[i], r.strs[i]) == 0
  {
    hide Geometry;
    LiveUpdate(r.offs, r.strs, i, r.data, w);
    if r.size > 0 && Slot(r.offs[i], r.strs[i]) == 0 {
      ExactAppend(r.offs, r.strs, r.data, r.garbage, r.top, i, w);
    }
  }

  lemma AtEndTight(l: Layout, i: nat, w: string)
    requires Sound(l) && i < |l.offs| && !LastStored(l, i) && !FitsInPlace(l, i, |w|)
    requires Tight(l) || Moves(l, i, |w|)
    ensures Tight(AtEnd(RoomAtEnd(Dropped(l, i), |w|), i, w)) <==> !Recopies(l, i, |w|)
  {
    hide Geometry, Exact, Live, Pos, PackedTop;
    SoundFits(l);
    var d := Dropped(l, i);
    if d.data + |w| + 1 > d.size {
      PackedSound(d, d.data + |w| + 1);
      var r := RoomAtEnd(d, |w|);
      PackedSlot(l.strs, i);
      AppendTight(r, i, w);
    } else {
      ExactAppend(l.offs, l.strs, l.data, l.garbage, l.top, i, w);
    }
  }

  /** Space accounting stays exact unless a move of the buffer copies the string that is being replaced,
      and then it does not; a move that does not copy it makes it exact in any case. */
  lemma AllocatedTight(l: Layout, i: nat, w: string)
    requires Sound(l) && i < |l.offs| && TargetOf(l, i, |w|) == i && (Tight(l) || Moves(l, i, |w|))
    ensures Tight(Allocated(l, i, w)) <==> !Recopies(l, i, |w|)
  {
    hide Geometry, Exact, Live, Pos, PackedTop;
    if LastStored(l, i) {
      RoomAtTopSound(l, i, |w|);
      if l.top + |w| + 1 > l.size {
        SoundFits(l);
        PackedSound(l, l.top + |w| + 1);
      }
      AtTopGeometry(RoomAtTop(l, |w|), i, w);
    } else if FitsInPlace(l, i, |w|) {
      ExactShrink(l.offs, l.strs, l.data, l.garbage, l.top, i, w);
    } else {
      AtEndTight(l, i, w);
    }
  }

  lemma ErasedSound(l: Layout, i: nat)
    requires Sound(l) && i < |l.offs|
    ensures Sound(Erased(l, i)) && (Tight(l) ==> Tight(Erased(l, i)))
  {
    if l.offs[i] != 0 {
      GeometryErase(l.offs, l.strs, l.data, l.garbage, l.top, i);
      if Tight(l) {
        ExactErase(l.offs, l.strs, l.data, l.garbage, l.top, i);
      }
    } else {
      assert l.offs[i := 0] == l.offs && l.strs[i := ""] == l.strs;
    }
  }

  lemma LongerSound(l: Layout, n: nat)
    requires Sound(l)
    ensures Sound(Longer(l, n)) && (Tight(l) ==> Tight(Longer(l, n)))
    ensures |Longer(l, n).offs| == |Longer(l, n).strs| == Max(|l.strs|, n) && Longer(l, n).data == l.data >= 0
  {
    var m := Longer(l, n);
    assert m.offs[..|l.offs|] == l.offs;
    ExtendKeeps("", m.offs, l.strs, |l.offs|, l.data, l.garbage, l.top);
    if l.size > 0 && Tight(l) {
      ExtendExact(m.offs, l.strs, |l.offs|, l.data, l.garbage, l.top);
    }
  }
}
