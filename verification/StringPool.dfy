module StringPool {
  import opened StringPoolLayout
  import opened StringPoolSteps
  import opened StringPoolRuns
  import opened StringPoolSpace

  const AllocateSpace2 := 1024

  method MemCopy(dst: array<char>, d: nat, src: array<char>, s: nat, n: nat, ghost freed: set<array<char>>)
    requires dst !in freed && src !in freed
    requires d + n <= dst.Length && s + n <= src.Length
    requires src == dst ==> d == s || d + n <= s || s + n <= d
    modifies dst
    ensures dst[..] == old(dst[..d]) + old(src[s..s + n]) + old(dst[d + n..])
    ensures forall x :: 0 <= x < dst.Length && !(d <= x < d + n) ==> dst[x] == old(dst[x])
  {
    ghost var was, from := dst[..], src[..];
    for i := 0 to n
      invariant forall x :: 0 <= x < dst.Length && !(d <= x < d + i) ==> dst[x] == was[x]
      invariant forall x :: d <= x < d + i ==> dst[x] == from[s + x - d]
      invariant src != dst ==> src[..] == from
    {
      dst[d + i] := src[s + i];
    }
    assert dst[..] == was[..d] + from[s..s + n] + was[d + n..];
  }

  method StrLen(b: array<char>, o: nat, ghost s: string) returns (n: nat)
    requires HasStr(b[..], o, s)
    ensures n == |s|
  {
    n := 0;
    while b[o + n] != '\0'
      invariant n <= |s|
      invariant n < |s| ==> b[o + n] == s[n]
      decreases |s| - n
    {
      n := n + 1;
    }
  }

  /** Copies `n` characters that need not end in a zero and puts a zero behind them. */
  method CopyRaw(dst: array<char>, d: nat, src: array<char>, o: nat, n: nat, ghost freed: set<array<char>>)
    requires dst !in freed && src !in freed && o + n <= src.Length && d + n + 1 <= dst.Length
    requires src == dst ==> d + n + 1 <= o || o + n <= d
    modifies dst
    ensures HasStr(dst[..], d, UpToNul(old(src[o..o + n])))
    ensures forall x :: 0 <= x < dst.Length && !(d <= x < d + n + 1) ==> dst[x] == old(dst[x])
  {
    hide HasStr;
    ghost var raw := src[o..o + n];
    MemCopy(dst, d, src, o, n, freed);
    dst[d + n] := '\0';
    assert dst[d..d + n] == raw;
    RawHasStr(dst[..], d, raw);
  }

  lemma RawHasStr(b: string, d: nat, raw: string)
    requires d + |raw| < |b| && b[d..d + |raw|] == raw && b[d + |raw|] == '\0'
    ensures HasStr(b, d, UpToNul(raw))
  {
    HasStrPrefix(b, d, raw, UpToNul(raw));
  }

  lemma HasStrPrefix(b: string, d: nat, raw: string, s: string)
    requires d + |raw| < |b| && b[d..d + |raw|] == raw && b[d + |raw|] == '\0'
    requires s <= raw && '\0' !in s && (|s| < |raw| ==> raw[|s|] == '\0')
    ensures HasStr(b, d, s)
  {
    assert forall x :: 0 <= x < |raw| ==> b[d..d + |raw|][x] == raw[x];
  }

  lemma JoinHasStr(b: string, d: nat, s1: string, s2: string)
    requires d + |s1| < |b| && b[d..d + |s1|] == s1 && '\0' !in s1 && HasStr(b, d + |s1|, s2)
    ensures HasStr(b, d, s1 + s2)
  {
    var s := s1 + s2;
    forall x | 0 <= x < |s|
      ensures b[d + x] == s[x]
    {
      if x < |s1| {
        assert b[d..d + |s1|][x] == s1[x];
      } else {
        assert b[(d + |s1|) + (x - |s1|)] == s2[x - |s1|];
      }
    }
  }

  /** Copies two strings behind each other. */
  method CopyTwo(dst: array<char>, d: nat, src1: array<char>, o1: nat, n1: nat, src2: array<char>, o2: nat, n2: nat,
                 ghost s1: string, ghost s2: string, ghost freed: set<array<char>>)
    requires dst !in freed && src1 !in freed && src2 !in freed && d + n1 + n2 + 1 <= dst.Length
    requires HasStr(src1[..], o1, s1) && n1 == |s1| && HasStr(src2[..], o2, s2) && n2 == |s2|
    requires src1 == dst ==> d == o1 || o1 + n1 <= d
    requires src2 == dst ==> d + n1 + n2 + 1 <= o2 || o2 + n2 + 1 <= d
    modifies dst
    ensures HasStr(dst[..], d, s1 + s2)
    ensures forall x :: 0 <= x < dst.Length && !(d <= x < d + n1 + n2 + 1) ==> dst[x] == old(dst[x])
  {
    assert src1[o1..o1 + n1] == s1 && '\0' !in s1;
    MemCopy(dst, d, src1, o1, n1, freed);
    SameStr(old(src2[..]), src2[..], o2, s2, d, n1);
    hide HasStr;
    ghost var b := dst[..];
    assert b[d..d + n1] == s1;
    CopyStr(dst, d + n1, src2, o2, n2, s2, freed);
    assert dst[d..d + n1] == b[d..d + n1];
    JoinHasStr(dst[..], d, s1, s2);
  }

  lemma SameStr(b: string, b': string, o: nat, s: string, d: nat, n: nat)
    requires HasStr(b, o, s) && |b'| == |b| && (b' == b || o + |s| + 1 <= d || d + n <= o)
    requires b' == b || forall x :: 0 <= x < |b| && !(d <= x < d + n) ==> b'[x] == b[x]
    ensures HasStr(b', o, s)
  {
  }

  /** The same copy, seen as a string that arrives at `d`. */
  method CopyStr(dst: array<char>, d: nat, src: array<char>, o: nat, n: nat, ghost s: string,
                 ghost freed: set<array<char>>)
    requires dst !in freed && src !in freed && HasStr(src[..], o, s) && n == |s| && d + n + 1 <= dst.Length
    requires src == dst ==> d == o || d + n + 1 <= o || o + n + 1 <= d
    modifies dst
    ensures HasStr(dst[..], d, s)
    ensures forall x :: 0 <= x < dst.Length && !(d <= x < d + n + 1) ==> dst[x] == old(dst[x])
  {
    assert src[o..o + n + 1] == s + ['\0'];
    MemCopy(dst, d, src, o, n + 1, freed);
    assert forall x :: 0 <= x <= n ==> dst[..][d + x] == (s + ['\0'])[x];
    assert forall x :: 0 <= x < dst.Length && !(d <= x < d + n + 1) ==> dst[..][x] == old(dst[..])[x];
  }

  /** Copies the string at `src + o` and its terminator behind the first `d` characters. */
  method AppendStr(dst: array<char>, d: nat, src: array<char>, o: nat, ghost s: string, ghost freed: set<array<char>>)
    returns (n: nat)
    requires dst !in freed && src !in freed
    requires HasStr(src[..], o, s) && src != dst && (s != "" ==> d + |s| + 1 <= dst.Length)
    requires d <= dst.Length
    modifies dst
    ensures n == |s| && dst[..d] == old(dst[..d])
    ensures n > 0 ==> dst[..d + n + 1] == old(dst[..d]) + (s + ['\0'])
  {
    n := StrLen(src, o, s);
    if n != 0 {
      MemCopy(dst, d, src, o, n + 1, freed);
      assert src[o..o + n + 1] == s + ['\0'];
    }
  }

  /** One turn of the copying loop, in terms of the functions that describe the packed buffer. */
  lemma PackedStep(offs: seq<nat>, strs: seq<string>, i: nat)
    requires i < |strs| <= |offs|
    ensures (PackedOffs(strs, i) + offs[i..])[i := if strs[i] == "" then 0 else Pos(strs, i)]
         == PackedOffs(strs, i + 1) + offs[i + 1..]
    ensures Pos(strs, i + 1) == Pos(strs, i) + if strs[i] == "" then 0 else |strs[i]| + 1
    ensures Image(strs, i + 1) == Image(strs, i) + if strs[i] == "" then "" else strs[i] + ['\0']
    ensures PackedTop(strs, i + 1) == if strs[i] == "" then PackedTop(strs, i) else Pos(strs, i)
  {
  }

  lemma ContentAt(b: string, offs: seq<nat>, strs: seq<string>, i: nat)
    requires Content(b, offs, strs) && i < |offs|
    ensures |offs| == |strs|
    ensures if offs[i] == 0 then strs[i] == "" else HasStr(b, offs[i], strs[i])
  {
  }

  lemma ContentNoNul(b: string, offs: seq<nat>, strs: seq<string>)
    requires Content(b, offs, strs)
    ensures forall k :: 0 <= k < |strs| ==> '\0' !in strs[k]
  {
    forall k | 0 <= k < |strs|
      ensures '\0' !in strs[k]
    {
      ContentAt(b, offs, strs, k);
    }
  }

  /** The copying loop of `ReserveBuf`: every nonempty string moves behind the previous one. */
  method CopyStrings(Buffer2: array<char>, Buffer: array<char>, Offsets: array<nat>, Num: nat, ghost strs: seq<string>,
                     ghost freed: set<array<char>>)
    returns (DataSize2: nat, Top: nat, ghost count: nat)
    requires Buffer2 !in freed && Buffer !in freed
    requires Num == |strs| <= Offsets.Length && Content(Buffer[..], Offsets[..Num], strs)
    requires Buffer2 != Buffer && Buffer2 as object != Offsets && Buffer as object != Offsets
    requires Pos(strs, Num) <= Buffer2.Length && Buffer2.Length > 0 && Buffer2[0] == '\0'
    modifies Buffer2, Offsets
    ensures DataSize2 == Pos(strs, Num) && Buffer2[..DataSize2] == Image(strs, Num)
    ensures Offsets[..Num] == PackedOffs(strs, Num)
    ensures forall k :: Num <= k < Offsets.Length ==> Offsets[k] == old(Offsets[k])
    ensures Top == PackedTop(strs, Num) && count == Pos(strs, Num) - 1
  {
    hide *;
    ghost var b, offs := Buffer[..], Offsets[..];
    PosMonotone(strs, 0, Num);
    EmptyPacked(strs, 0);
    DataSize2, Top, count := 1, 1, 0;
    assert Buffer2[..1] == ['\0'];
    if Buffer.Length == 0 {
      assert b == "";
      NullContent(offs[..Num], strs);
      return;
    }
    for i := 0 to Num
      invariant Buffer[..] == b
      invariant DataSize2 == Pos(strs, i) && DataSize2 <= Buffer2.Length && Buffer2[..DataSize2] == Image(strs, i)
      invariant Top == PackedTop(strs, i) && count == DataSize2 - 1
      invariant Offsets[..] == PackedOffs(strs, i) + offs[i..]
    {
      PosMonotone(strs, i + 1, Num);
      PackedStep(offs, strs, i);
      ContentAt(b, offs[..Num], strs, i);
      assert Offsets[i] == Offsets[..][i] == offs[i];
      if Offsets[i] != 0 {
        var Strlen := AppendStr(Buffer2, DataSize2, Buffer, Offsets[i], strs[i], freed);
        if Strlen != 0 {
          Offsets[i] := DataSize2;
          Top := DataSize2;
          DataSize2 := DataSize2 + Strlen + 1;
          count := count + Strlen + 1;
        } else {
          Offsets[i] := 0;
        }
      }
    }
  }

  class StringPoolS {
    var Buffer: array<char>      // the empty array stands for the null pointer
    var OldBuffer: array?<char>
    var Offsets: array<nat>      // the empty array stands for the null pointer
    var BufferSize: int
    var OffsetsSize: int
    var DataSize: int
    var GarbageSize: int
    var Top: int
    var Num: int
    ghost var Strs: seq<string>          // the strings of the pool by index
    ghost var Freed: set<array<char>>    // buffers given back to the allocator
    ghost var Copied: int                // characters ever copied to a larger buffer, terminators included

    ghost predicate Shape()
      reads this, Buffer, Offsets
    {
      && Buffer.Length == BufferSize && Offsets.Length == OffsetsSize
      && 0 <= Num <= OffsetsSize && |Strs| == Num
      && (forall k :: Num <= k < OffsetsSize ==> Offsets[k] == 0)
      && (BufferSize > 0 ==> Buffer[0] == '\0')
      && Buffer !in Freed && Buffer != OldBuffer && OldBuffer !in Freed
      && Offsets as object != Buffer
    }

    /** Every string can be read through its offset. */
    ghost predicate Readable()
      reads this, Buffer, Offsets
    {
      Shape() && Content(Buffer[..], Offsets[..Num], Strs)
    }

    /** Offsets, strings and counters as a value. */
    ghost function Lay(): Layout
      requires 0 <= Num <= Offsets.Length
      reads this, Offsets
    {
      Layout(Offsets[..Num], Strs, BufferSize, DataSize, GarbageSize, Top, Copied)
    }

    /** ... and the book-keeping is right. */
    ghost predicate Valid()
      reads this, Buffer, Offsets
    {
      Readable() && Sound(Lay())
    }

    constructor ()
      ensures Valid() && Lay() == Empty && OldBuffer == null && Freed == {} && fresh(Buffer) && fresh(Offsets)
    {
      Buffer, OldBuffer, Offsets := new char[0], null, new nat[0];
      BufferSize, OffsetsSize, DataSize, GarbageSize, Top, Num := 0, 0, 0, 0, 0, 0;
      Strs, Freed, Copied := [], {}, 0;
    }

    /** What a caller that goes on using the pool, or arrays of its own, has to know. */
    twostate predicate Framed()
      reads this
    {
      && (Buffer == old(Buffer) || fresh(Buffer)) && (Offsets == old(Offsets) || fresh(Offsets))
      && (OldBuffer == null || OldBuffer == old(OldBuffer) || OldBuffer == old(Buffer))
      && Freed <= old(Freed) + {old(Buffer)} + (if old(OldBuffer) == null then {} else {old(OldBuffer)})
    }

    /** The buffer is the old one with its old contents, or a new one while the old one is still readable. */
    twostate predicate KeptReadable()
      reads this
    {
      && (Buffer == old(Buffer) || fresh(Buffer))
      && (OldBuffer == old(OldBuffer) || OldBuffer == old(Buffer))
      && Freed <= old(Freed) + (if old(OldBuffer) == null then {} else {old(OldBuffer)})
      && Offsets == old(Offsets) && Num == old(Num) && OffsetsSize == old(OffsetsSize)
    }

    /** What the copying loop needs to know about the pool. */
    lemma ReadyToPack(newsize: int)
      requires Readable() && (Valid() || Pos(Strs, Num) <= newsize)
      ensures Pos(Strs, Num) <= GrownSize(Lay(), newsize)
      ensures 0 <= Num == |Strs| <= Offsets.Length && Content(Buffer[..], Offsets[..Num], Strs)
      ensures forall k :: 0 <= k < |Strs| ==> '\0' !in Strs[k]
      ensures GrownSize(Lay(), newsize) == 1 + if newsize < (DataSize - GarbageSize) * 2 + AllocateSpace1
                                               then (DataSize - GarbageSize) * 2 + AllocateSpace1 else newsize
      ensures Buffer.Length == BufferSize && Offsets.Length == OffsetsSize
      ensures forall k :: Num <= k < OffsetsSize ==> Offsets[k] == 0
      ensures Buffer !in Freed && Buffer != OldBuffer && OldBuffer !in Freed && Offsets as object != Buffer
      ensures 1 <= Pos(Strs, Num)
    {
      hide Content, Sound, Pos, Image, PackedTop, PackedOffs;
      if Valid() {
        SoundFits(Lay());
      }
      ContentNoNul(Buffer[..], Offsets[..Num], Strs);
    }

    lemma PackedIsValid()
      requires 0 <= Num == |Strs| <= OffsetsSize == Offsets.Length && Buffer.Length == BufferSize
      requires Offsets[..Num] == PackedOffs(Strs, Num) && forall k :: Num <= k < OffsetsSize ==> Offsets[k] == 0
      requires DataSize == Pos(Strs, Num) <= BufferSize && GarbageSize == 0 && Top == PackedTop(Strs, Num)
      requires Buffer[..DataSize] == Image(Strs, Num) && forall k :: 0 <= k < |Strs| ==> '\0' !in Strs[k]
      requires Buffer !in Freed && Buffer != OldBuffer && OldBuffer !in Freed && Offsets as object != Buffer
      ensures Valid()
    {
      hide Content, Geometry, Pos, Image, PackedTop, PackedOffs;
      PackedContent(Buffer[..], Strs);
      GeometryPacked(Strs);
    }

    /** The last lines of `ReserveBuf`. */
    method SwitchBuffer(Buffer2: array<char>, DataSize2: int, NewTop: int, ghost count: nat)
      requires Buffer.Length == BufferSize && Buffer2.Length > 0
      modifies this
      ensures Buffer == Buffer2 && BufferSize == Buffer2.Length
      ensures DataSize == DataSize2 && GarbageSize == 0 && Top == NewTop && Copied == old(Copied) + count
      ensures unchanged(this`Offsets, this`OffsetsSize, this`Num, this`Strs)
      ensures OldBuffer == if old(BufferSize) > 0 then old(Buffer) else old(OldBuffer)
      ensures Freed == old(Freed) + if old(BufferSize) > 0 && old(OldBuffer) != null then {old(OldBuffer)} else {}
    {
      if BufferSize > 0 {
        if OldBuffer != null {
          Freed := Freed + {OldBuffer};
        }
        OldBuffer := Buffer;
      }
      Buffer, BufferSize := Buffer2, Buffer2.Length;
      DataSize, GarbageSize, Top, Copied := DataSize2, 0, NewTop, Copied + count;
    }

    method ReserveBuf(newsize: int)
      requires Readable() && (Valid() || Pos(Strs, Num) <= newsize)
      modifies this, Offsets
      ensures Valid() && Lay() == Packed(old(Lay()), newsize) && fresh(Buffer) && KeptReadable()
      ensures BufferSize == Max(newsize, old(DataSize - GarbageSize) * 2 + 4096) + 1
      ensures OldBuffer == if old(BufferSize) > 0 then old(Buffer) else old(OldBuffer)
      ensures Freed == old(Freed) + if old(BufferSize) > 0 && old(OldBuffer) != null then {old(OldBuffer)} else {}
    {
      hide Content, Geometry, Sound, Pos, Image, PackedTop, PackedOffs;
      ReadyToPack(newsize);
      var size := newsize;
      if size < (DataSize - GarbageSize) * 2 + AllocateSpace1 {
        size := (DataSize - GarbageSize) * 2 + AllocateSpace1;
      }
      var Buffer2 := new char[size + 1];
      Buffer2[0] := '\0';
      var DataSize2, NewTop, count := CopyStrings(Buffer2, Buffer, Offsets, Num, Strs, Freed);
      SwitchBuffer(Buffer2, DataSize2, NewTop, count);
      PackedIsValid();
    }

    /** A place of `len` characters and a terminator at `p` was handed out for string `t`. */
    ghost predicate Placed(t: int, p: nat, len: nat)
      reads this, Buffer, Offsets
    {
      && Shape() && BufferSize > 0
      && Hole(Buffer[..], Offsets[..Num], Strs, DataSize, GarbageSize, Top, t, p, len)
    }

    /** The string stored last gets room for `len` characters, after packing if needed. */
    method MakeRoomAtTop(i: nat, len: nat)
      requires Valid() && i < Num && LastStored(Lay(), i)
      modifies this, Offsets
      ensures Valid() && Lay() == RoomAtTop(old(Lay()), len) && KeptReadable()
      ensures Buffer != old(Buffer) <==> old(Top) + len + 1 > old(BufferSize)
    {
      hide Content, Sound, Packed;
      if Top + len + 1 > BufferSize {
        ReserveBuf(Top + len + 1);
      }
    }

    /** `Allocate` for the string stored last: it grows or shrinks where it is, after packing if needed. */
    method AllocateAtTop(i: nat, len: nat, ghost w: string) returns (p: nat, ghost t: int)
      requires Valid() && i < Num && LastStored(Lay(), i) && |w| == len
      modifies this, Offsets
      ensures KeptReadable() && Placed(t, p, len) && DataSize == p + len + 1
      ensures t == TargetOf(old(Lay()), i, len) && Lay() == AtTop(RoomAtTop(old(Lay()), len), t, w)
      ensures Buffer == old(Buffer) ==> t == i && Offsets[..Num] == old(Offsets[..Num])[i := p] && p == old(Offsets[i])
      ensures Buffer != old(Buffer) <==> old(Top) + len + 1 > old(BufferSize)
    {
      hide Content, Sound, Geometry, Hole, Packed, Target;
      t := TargetOf(Lay(), i, len);
      RoomAtTopSound(Lay(), i, len);
      TargetStays(Lay(), i, len);
      MakeRoomAtTop(i, len);
      SoundGeometry(Lay());
      HoleAtTop(Buffer[..], Offsets[..Num], Strs, DataSize, GarbageSize, Top, t, w);
      DataSize := Top + len + 1;
      Strs := Put(Strs, t, w);
      p := Top;
    }

    /** `Allocate` for a new string that fits into the place of the old one. */
    method AllocateInPlace(i: nat, len: nat, OldLen: nat, ghost w: string) returns (p: nat)
      requires Valid() && i < Num && Offsets[i] != 0 && Offsets[i] != Top && |w| == len <= OldLen == |Strs[i]|
      modifies this
      ensures KeptReadable() && Placed(i, p, len) && Buffer == old(Buffer) && p == Offsets[i]
      ensures Lay() == InPlace(old(Lay()), i, w)
    {
      hide Content, Geometry, Hole;
      HoleShrink(Buffer[..], Offsets[..Num], Strs, DataSize, GarbageSize, Top, i, w);
      GarbageSize := GarbageSize + OldLen - len;
      Strs := Put(Strs, i, w);
      p := Offsets[i];
    }

    /** The old string of index `i` becomes garbage and the end of the buffer gets room for `len` more. */
    method MakeRoomAtEnd(i: nat, len: nat, OldSlot: nat)
      requires Valid() && i < Num && OldSlot == Slot(Offsets[i], Strs[i])
      modifies this, Offsets
      ensures Readable() && Lay() == RoomAtEnd(Dropped(old(Lay()), i), len) && KeptReadable()
      ensures Buffer != old(Buffer) <==> Moved(old(Lay()), len)
      ensures Buffer == old(Buffer) ==> Offsets[..Num] == old(Offsets[..Num]) && DataSize == old(DataSize)
    {
      hide Content, Sound, Geometry, Slot, Packed;
      SoundFits(Lay());
      GarbageSize := GarbageSize + OldSlot;
      if DataSize + len + 1 > BufferSize {
        ReserveBuf(DataSize + len + 1);
      }
    }

    /** `Allocate` for a string that goes to the end of the buffer. */
    method AllocateAtEnd(i: nat, len: nat, OldSlot: nat, ghost w: string) returns (p: nat)
      requires Valid() && i < Num && OldSlot == Slot(Offsets[i], Strs[i]) && |w| == len
      modifies this, Offsets
      ensures KeptReadable() && Placed(i, p, len) && Offsets[i] == p
      ensures Buffer == old(Buffer) ==> Offsets[..Num] == old(Offsets[..Num])[i := p] && p == old(DataSize)
      ensures var r := RoomAtEnd(Dropped(old(Lay()), i), len);
        i < |r.offs| == |r.strs| && r.data >= 0 && Lay() == AtEnd(r, i, w)
      ensures Buffer != old(Buffer) <==> Moved(old(Lay()), len)
    {
      hide Content, Geometry, Hole, Slot, Sound, RoomAtEnd;
      ghost var l := Lay();
      SoundFits(l);
      RoomAtEndGeometry(l, i, len);
      MakeRoomAtEnd(i, len, OldSlot);
      ghost var offs := Offsets[..Num];
      HoleAppend(Buffer[..], offs, Strs, DataSize, if Moved(l, len) then 0 else l.garbage, Top, i, w, GarbageSize);
      Offsets[i] := DataSize;
      assert Offsets[..Num] == offs[i := Offsets[i]];
      Top := DataSize;
      DataSize := DataSize + len + 1;
      p := Top;
      Strs := Put(Strs, i, w);
    }

    /** Makes space for a string of `len` characters for index `i`; see `Target` for whose place it is.  The
        characters fit into the buffer if and only if the whole used part does. */
    method Allocate(i: nat, len: nat, ghost w: string) returns (p: nat, ghost t: int)
      requires Valid() && i < Num && |w| == len
      modifies this, Offsets
      ensures KeptReadable() && Placed(t, p, len)
      ensures old(Lay()).data >= 0 && Lay() == Allocated(old(Lay()), i, w) && t == TargetOf(old(Lay()), i, len)
      ensures 1 <= p && p + len + 1 <= DataSize && (p + len + 1 > BufferSize <==> DataSize > BufferSize)
      ensures Buffer == old(Buffer) ==> t == i && Offsets[..Num] == old(Offsets[..Num])[i := p]
      ensures Buffer == old(Buffer) ==> p == old(Offsets[i]) || p == old(DataSize)
      ensures Buffer != old(Buffer) <==> Moves(old(Lay()), i, len)
    {
      hide Content, Geometry, Hole, Sound, RoomAtEnd, Dropped, AtEnd, RoomAtTop, InPlace;
      ghost var l := Lay();
      SoundFits(l);
      AllocatedSound(l, i, w);
      t := i;
      ContentAt(Buffer[..], Offsets[..Num], Strs, i);
      if Offsets[i] != 0 {
        if Offsets[i] == Top {
          p, t := AllocateAtTop(i, len, w);
          HoleBounds(Buffer[..], Offsets[..Num], Strs, DataSize, GarbageSize, Top, t, p, len);
          return;
        }
        var OldLen := StrLen(Buffer, Offsets[i], Strs[i]);
        if OldLen >= len {
          p := AllocateInPlace(i, len, OldLen, w);
          HoleBounds(Buffer[..], Offsets[..Num], Strs, DataSize, GarbageSize, Top, t, p, len);
          return;
        }
        p := AllocateAtEnd(i, len, OldLen + 1, w);
        HoleBounds(Buffer[..], Offsets[..Num], Strs, DataSize, GarbageSize, Top, t, p, len);
        return;
      }
      p := AllocateAtEnd(i, len, 0, w);
      HoleBounds(Buffer[..], Offsets[..Num], Strs, DataSize, GarbageSize, Top, t, p, len);
    }

    /** After the characters were written at `p` the pool holds the string. */
    ghost method Commit(t: int, p: nat, len: nat, s: string, b: string)
      requires Shape() && BufferSize > 0 && DataSize <= BufferSize
      requires Hole(b, Offsets[..Num], Strs, DataSize, GarbageSize, Top, t, p, len)
      requires |b| == Buffer.Length && forall x :: 0 <= x < |b| && !(p <= x < p + len + 1) ==> Buffer[x] == b[x]
      requires HasStr(Buffer[..], p, s) && |s| <= len && (b[0] == '\0')
      modifies `Strs
      ensures Valid() && Strs == Put(old(Strs), t, s)
    {
      hide Content, Geometry, Hole, Live;
      HoleBounds(b, Offsets[..Num], Strs, DataSize, GarbageSize, Top, t, p, len);
      HoleFilled(b, Buffer[..], Offsets[..Num], Strs, DataSize, GarbageSize, Top, t, p, len, s);
      Strs := Put(Strs, t, s);
    }

    method ReserveNum(newsize: int)
      requires Valid()
      modifies this
      ensures Valid() && unchanged(this`Buffer, this`OldBuffer, this`BufferSize, this`DataSize, this`GarbageSize)
      ensures unchanged(this`Top, this`Num, this`Strs, this`Freed, this`Copied)
      ensures Offsets == old(Offsets) || fresh(Offsets)
      ensures OffsetsSize == if newsize <= old(OffsetsSize) then old(OffsetsSize)
                             else Max(newsize, old(OffsetsSize) * 2 + 1024)
      ensures Offsets[..Num] == old(Offsets[..Num])
    {
      hide Content, Geometry, Sound;
      if newsize <= OffsetsSize {
        return;
      }
      var size := newsize;
      if size < OffsetsSize * 2 + AllocateSpace2 {
        size := OffsetsSize * 2 + AllocateSpace2;
      }
      var Offsets2 := new nat[size];
      forall k | 0 <= k < size {
        Offsets2[k] := if k < OffsetsSize then Offsets[k] else 0;
      }
      assert Offsets2[..Num] == Offsets[..Num];
      assert forall k :: Num <= k < size ==> Offsets2[k] == 0;
      Offsets, OffsetsSize := Offsets2, size;
      assert Buffer[..] == old(Buffer[..]) && Offsets[..Num] == old(Offsets[..Num]);
    }

    /** The first lines of both `Set` functions: an index past the end makes the pool longer. */
    method EnsureIndex(i: nat)
      requires Valid()
      modifies this
      ensures Valid() && unchanged(this`Buffer, this`OldBuffer, this`Freed)
      ensures (Offsets == old(Offsets) || fresh(Offsets)) && i < Num && old(Num) <= Num
      ensures Offsets[..old(Num)] == old(Offsets[..Num]) && Lay() == Longer(old(Lay()), i + 1)
    {
      hide Content, Geometry, Sound, Exact;
      if i >= Num {
        if i >= OffsetsSize {
          ReserveNum(i + 1);
        }
        AddStrings(i + 1);
      }
    }

    method AddStrings(n: nat)
      requires Valid() && Num <= n <= OffsetsSize
      modifies `Num, `Strs
      ensures Valid() && Num == n && Lay() == Longer(old(Lay()), n)
      ensures Offsets[..old(Num)] == old(Offsets[..Num])
    {
      hide Content, Geometry, Sound, Exact;
      ghost var l := Lay();
      LongerSound(l, n);
      assert Offsets[..n] == Zeros(l.offs, n);
      assert Offsets[..n][..Num] == Offsets[..Num];
      ExtendKeeps(Buffer[..], Offsets[..n], Strs, Num, DataSize, GarbageSize, Top);
      Num := n;
      Strs := Extend(Strs, n);
    }

    method ReleaseOldBuffer()
      requires Valid()
      modifies `OldBuffer, `Freed
      ensures Valid() && OldBuffer == null
      ensures Freed == old(Freed) + if old(OldBuffer) == null then {} else {old(OldBuffer)}
    {
      if OldBuffer != null {
        Freed := Freed + {OldBuffer};
        OldBuffer := null;
      }
    }

    method Erase(i: nat)
      requires Valid() && i < Num
      modifies this, Offsets
      ensures Valid() && Num == old(Num) && Lay() == Erased(old(Lay()), i)
      ensures unchanged(this`Buffer, this`OldBuffer, this`Freed, this`Offsets, this`OffsetsSize)
    {
      hide Content, Geometry, Sound, Exact;
      SoundFits(Lay());
      ErasedSound(Lay(), i);
      ContentAt(Buffer[..], Offsets[..Num], Strs, i);
      if Offsets[i] != 0 {
        var n := StrLen(Buffer, Offsets[i], Strs[i]);
        ghost var offs := Offsets[..Num];
        ContentErase(Buffer[..], offs, Strs, i);
        GarbageSize := GarbageSize + n + 1;
        Offsets[i] := 0;
        assert Offsets[..Num] == offs[i := 0];
        Strs := Strs[i := ""];
      } else {
        assert Strs[i := ""] == Strs && Offsets[..Num][i := 0] == Offsets[..Num];
      }
    }

    /** The `n` characters from `sp` on may be read for index `i` while the pool changes: they are not
        in memory given back already and, if they are the pool's own, they belong to another string. */
    ghost predicate CanRead(i: int, src: array<char>, sp: nat, n: nat)
      reads this, Offsets
    {
      && src !in Freed && src != OldBuffer && src as object != Offsets
      && (src == Buffer ==> exists j :: 0 <= j < Num && j < Offsets.Length && j < |Strs| && Within(i, j, sp, n))
    }

    ghost predicate Within(i: int, j: nat, sp: nat, n: nat)
      requires j < Offsets.Length && j < |Strs|
      reads this, Offsets
    {
      j != i && Offsets[j] != 0 && Offsets[j] <= sp && sp + n <= Offsets[j] + |Strs[j]|
    }

    lemma CanReadPart(i: int, src: array<char>, sp: nat, n: nat, start: nat, len: nat)
      requires CanRead(i, src, sp, n) && start + len <= n
      ensures CanRead(i, src, sp + start, len)
    {
      if src == Buffer {
        var j :| 0 <= j < Num && j < Offsets.Length && j < |Strs| && Within(i, j, sp, n);
        assert Within(i, j, sp + start, len);
      }
    }

    /** The characters that may be read keep clear of a place handed out in the same buffer. */
    lemma ClearOfPlace(i: nat, j: nat, p: nat, len: nat, sp: nat, n: nat)
      requires Placed(i, p, len) && i < Num && j < Num && Within(i, j, sp, n)
      ensures sp + n + 1 <= p || p + len + 1 <= sp
    {
      hide Content, Geometry, ContentExcept;
      HoleApart(Buffer[..], Offsets[..Num], Strs, DataSize, GarbageSize, Top, i, p, len, j);
    }

    /** Whose place is handed out for `len` characters for index `i`, which need not exist yet. */
    ghost function TargetFor(i: nat, len: nat): int
      requires 0 <= Num == |Strs| <= Offsets.Length
      reads this, Offsets
    {
      TargetOf(Longer(Lay(), i + 1), i, len)
    }

    /** The copy to the place handed out runs past the end of the buffer. */
    ghost predicate Overruns(i: nat, len: nat)
      requires 0 <= Num == |Strs| <= Offsets.Length
      reads this, Offsets
    {
      OverrunsAt(Lay(), i, len)
    }

    ghost predicate WillMove(i: nat, len: nat)
      requires 0 <= Num == |Strs| <= Offsets.Length
      reads this, Offsets
    {
      len > 0 && Moves(Longer(Lay(), i + 1), i, len)
    }

    /** Making room copies the string that is being replaced to a new buffer. */
    ghost predicate WillRecopy(i: nat, len: nat)
      requires 0 <= Num == |Strs| <= Offsets.Length
      reads this, Offsets
    {
      Recopies(Longer(Lay(), i + 1), i, len)
    }

    /** `Allocate` while `n` characters of a source are still to be read: they are not given back and, in the
        same buffer, keep clear of the place handed out. */
    method AllocateBeside(i: nat, len: nat, ghost w: string, ghost src: array<char>, ghost sp: nat, ghost n: nat)
      returns (p: nat, ghost t: int)
      requires Valid() && i < Num && |w| == len && CanRead(i, src, sp, n)
      modifies this, Offsets
      ensures KeptReadable() && Placed(t, p, len)
      ensures old(Lay()).data >= 0 && Lay() == Allocated(old(Lay()), i, w) && t == TargetOf(old(Lay()), i, len)
      ensures 1 <= p && p + len + 1 <= DataSize && (p + len + 1 > BufferSize <==> DataSize > BufferSize)
      ensures src !in Freed && (src == Buffer ==> sp + n + 1 <= p || p + len + 1 <= sp)
      ensures Buffer == old(Buffer) ==> t == i && (p == old(Offsets[i]) || p == old(DataSize))
      ensures old(Buffer) !in Freed
    {
      hide Content, Geometry, Sound, Hole, Target, Allocated, Moves;
      ghost var j := i;
      if src == Buffer {
        j :| 0 <= j < Num && Within(i, j, sp, n);
      }
      AllocatedSound(Lay(), i, w);
      p, t := Allocate(i, len, w);
      if src == Buffer {
        ClearOfPlace(i, j, p, len, sp, n);
      }
    }

    /** After the characters were written: the pool holds them, and the old buffer is given back. */
    method Finish(ghost t: int, ghost p: nat, ghost len: nat, ghost s: string, ghost b: string)
      requires Shape() && BufferSize > 0 && DataSize <= BufferSize
      requires Hole(b, Offsets[..Num], Strs, DataSize, GarbageSize, Top, t, p, len)
      requires |b| == Buffer.Length && forall x :: 0 <= x < |b| && !(p <= x < p + len + 1) ==> Buffer[x] == b[x]
      requires HasStr(Buffer[..], p, s) && |s| <= len && b[0] == '\0'
      modifies `Strs, `OldBuffer, `Freed
      ensures Valid() && OldBuffer == null && Lay() == old(Lay()).(strs := Put(old(Strs), t, s))
      ensures Freed == old(Freed) + if old(OldBuffer) == null then {} else {old(OldBuffer)}
    {
      hide Content, Geometry, Hole, HasStr;
      Commit(t, p, len, s, b);
      ReleaseOldBuffer();
    }

    /** Room for string `i`, a copy of its characters, and the release of the old buffer. */
    method SetNonEmpty(i: nat, src: array<char>, sp: nat, Len: nat, ghost s: string) returns (r: Outcome)
      requires Valid() && i < Num && HasStr(src[..], sp, s) && CanRead(i, src, sp, |s|) && Len == |s|
      modifies this, Offsets, Buffer
      ensures Framed() && old(Lay()).data >= 0
      ensures var a := Allocated(old(Lay()), i, s);
        if a.data > a.size then r == Overrun else r == Ok && Valid() && Lay() == a && OldBuffer == null
    {
      hide Content, Geometry, Sound, ContentExcept, Hole, Target, HasStr, Allocated, CanRead;
      ghost var l := Lay();
      AllocatedSound(l, i, s);
      PutAgain(l.strs, TargetOf(l, i, Len), s, s);
      var p, t := AllocateBeside(i, Len, s, src, sp, Len);
      if p + Len + 1 > BufferSize {
        return Overrun;
      }
      ghost var b := Buffer[..];
      CopyStr(Buffer, p, src, sp, Len, s, Freed);
      Finish(t, p, Len, s, b);
      r := Ok;
    }

    /** `EnsureIndex` as the two `Set` functions use it: what may be read stays as it was. */
    method PrepareIndex(i: nat, ghost src: array?<char>, ghost sp: nat, ghost n: nat)
      requires Valid() && (n > 0 ==> src != null && CanRead(i, src, sp, n))
      modifies this
      ensures Valid() && i < Num && Lay() == Longer(old(Lay()), i + 1)
      ensures unchanged(this`Buffer, this`OldBuffer, this`Freed) && (Offsets == old(Offsets) || fresh(Offsets))
      ensures n > 0 ==> CanRead(i, src, sp, n)
    {
      hide Content, Geometry, Sound;
      ghost var j := 0;
      if n > 0 && src == Buffer {
        j :| 0 <= j < Num && Within(i, j, sp, n);
      }
      EnsureIndex(i);
      assert n > 0 && src == Buffer ==> Offsets[j] == Offsets[..old(Num)][j] && Within(i, j, sp, n);
    }

    /** Inserts the zero-terminated string `s` found at `src + sp`; a null pointer is the empty string. */
    method Set(i: int, src: array?<char>, sp: nat, ghost s: string) returns (r: Outcome)
      requires Valid()
      requires if src == null then s == "" else HasStr(src[..], sp, s) && (s != "" ==> CanRead(i, src, sp, |s|))
      modifies this, Offsets, Buffer
      ensures i < 0 ==> r == OutOfRange && unchanged(this, old(Offsets), old(Buffer))
      ensures i >= 0 ==> Framed() && (r == Ok || r == Overrun) && (r == Overrun <==> s != "" && old(Overruns(i, |s|)))
      ensures r == Ok ==> old(Lay()).data >= 0 && Valid() && Lay() == SetStep(old(Lay()), i, s)
      ensures r == Ok && s == "" ==> Strs == Extend(old(Strs), i + 1)[i := ""]
      ensures r == Ok && s != "" ==>
        Strs == Put(Extend(old(Strs), i + 1), old(TargetFor(i, |s|)), s) && OldBuffer == null
      ensures i >= 0 ==> ((r == Ok && Strs[i] == s) <==> s == "" || old(TargetFor(i, |s|)) == i)
      ensures r == Ok && (s == "" || old(TargetFor(i, |s|)) == i) && old(Tight(Lay()) || WillMove(i, |s|)) ==>
        (Tight(Lay()) <==> s == "" || old(!WillRecopy(i, |s|)))
    {
      hide Content, Geometry, Sound, Exact, HasStr, Target, OverrunsAt, Longer, Allocated, Erased, CanRead, Extend;
      if i < 0 {
        return OutOfRange;
      }
      ghost var l := Lay();
      SoundFits(l);
      SetMeans(l, i, s);
      PrepareIndex(i, src, sp, |s|);
      var Len := 0;
      if src != null {
        Len := StrLen(src, sp, s);
      }
      if Len == 0 {
        Erase(i);
        return Ok;
      }
      r := SetNonEmpty(i, src, sp, Len, s);
    }

    method SetRawNonEmpty(i: nat, src: array<char>, sp: nat, Len: nat) returns (r: Outcome)
      requires Valid() && i < Num && sp + Len <= src.Length && CanRead(i, src, sp, Len)
      modifies this, Offsets, Buffer
      ensures Framed() && old(Lay()).data >= 0
      ensures var raw := old(src[sp..sp + Len]);
        var a, t := Allocated(old(Lay()), i, raw), TargetOf(old(Lay()), i, Len);
        if a.data > a.size then r == Overrun
        else r == Ok && Valid() && Lay() == a.(strs := Put(a.strs, t, UpToNul(raw))) && OldBuffer == null
    {
      hide Content, Geometry, Sound, ContentExcept, Hole, Target, HasStr, Allocated, CanRead, UpToNul;
      ghost var raw := src[sp..sp + Len];
      var p, t := AllocateBeside(i, Len, raw, src, sp, Len);
      if p + Len + 1 > BufferSize {
        return Overrun;
      }
      ghost var b := Buffer[..];
      CopyRaw(Buffer, p, src, sp, Len, Freed);
      Finish(t, p, Len, UpToNul(raw), b);
      r := Ok;
    }

    /** Inserts `Len` characters found at `src + sp`; the pool ends the string at the first zero. */
    method SetRaw(i: int, src: array?<char>, sp: nat, Len: int) returns (r: Outcome)
      requires Valid()
      requires Len > 0 ==> src != null && sp + Len <= src.Length && CanRead(i, src, sp, Len)
      modifies this, Offsets, Buffer
      ensures i < 0 ==> r == OutOfRange && unchanged(this, old(Offsets), old(Buffer))
      ensures i >= 0 ==> Framed() && (r == Ok || r == Overrun) && (r == Overrun <==> Len > 0 && old(Overruns(i, Len)))
      ensures r == Ok ==> old(Lay()).data >= 0 && Valid()
      ensures r == Ok && Len <= 0 ==> Lay() == SetStep(old(Lay()), i, "") && Strs == Extend(old(Strs), i + 1)[i := ""]
      ensures r == Ok && Len > 0 ==> var raw := old(src[sp..sp + Len]);
        && Lay() == RawStep(old(Lay()), i, raw) && OldBuffer == null
        && Strs == Put(Extend(old(Strs), i + 1), old(TargetFor(i, Len)), UpToNul(raw))
      ensures i >= 0 && Len > 0 && '\0' !in old(src[sp..sp + Len]) ==>
        ((r == Ok && Strs[i] == old(src[sp..sp + Len])) <==> old(TargetFor(i, Len)) == i)
      ensures r == Ok && Len > 0 && old(TargetFor(i, Len)) == i && old(Tight(Lay()) || WillMove(i, Len)) ==>
        (Tight(Lay()) <==> '\0' !in old(src[sp..sp + Len]) && old(!WillRecopy(i, Len)))
    {
      hide Content, Geometry, Sound, Exact, HasStr, Target, OverrunsAt, Longer, Allocated, Erased, CanRead, Extend,
           UpToNul;
      if i < 0 {
        return OutOfRange;
      }
      ghost var l := Lay();
      SoundFits(l);
      SetMeans(l, i, "");
      PrepareIndex(i, src, sp, if Len > 0 then Len else 0);
      if Len <= 0 {
        Erase(i);
        return Ok;
      }
      ghost var raw := src[sp..sp + Len];
      RawMeans(l, i, raw);
      RawMeansMore(l, i, raw);
      r := SetRawNonEmpty(i, src, sp, Len);
    }

    /** Assigns a part of the string `s` found at `src + sp`. */
    method SetToSubstring(i: int, src: array?<char>, sp: nat, ghost s: string, start: int, len: int)
      returns (r: Outcome)
      requires Valid()
      requires if src == null then s == "" else HasStr(src[..], sp, s) && (s != "" ==> CanRead(i, src, sp, |s|))
      modifies this, Offsets, Buffer
      ensures (start + len > |s| || start < 0 || len < 0) <==> r == BeyondEnd
      ensures r == BeyondEnd || r == OutOfRange ==> unchanged(this, old(Offsets), old(Buffer))
      ensures 0 <= start <= start + len <= |s| && i < 0 ==> r == OutOfRange
      ensures 0 <= start <= start + len <= |s| && i >= 0 ==>
        && Framed() && (r == Ok || r == Overrun) && (r == Overrun <==> len > 0 && old(Overruns(i, len)))
        && (r == Ok ==> old(Lay()).data >= 0 && Valid() && Lay() == SetStep(old(Lay()), i, s[start..start + len]))
        && ((r == Ok && Strs[i] == s[start..start + len]) <==> len == 0 || old(TargetFor(i, len)) == i)
    {
      hide Sound, HasStr, CanRead, TargetFor, Overruns, UpToNul, Extend, SetStep, RawStep;
      var Len1 := 0;
      if src != null {
        Len1 := StrLen(src, sp, s);
      }
      if start + len > Len1 || start < 0 || len < 0 {
        return BeyondEnd;
      }
      if len > 0 {
        CanReadPart(i, src, sp, |s|, start, len);
        PartOfStr(src[..], sp, s, start, len);
        assert src[..][sp + start..sp + start + len] == src[sp + start..sp + start + len];
        if i >= 0 {
          RawInOrder(Lay(), i, s[start..start + len]);
        }
      } else {
        assert s[start..start + len] == "";
      }
      r := SetRaw(i, src, sp + start, len);
    }

    lemma BufferAt(i: nat)
      requires Valid() && i < Num && Offsets[i] != 0
      ensures Offsets[i] + |Strs[i]| + 1 <= DataSize
    {
      hide Content, Geometry;
      ContentAt(Buffer[..], Offsets[..Num], Strs, i);
      GeometryAt(Offsets[..Num], Strs, DataSize, GarbageSize, Top, i);
    }

    method ConcatenateNonEmpty(i: nat, len1: nat, src: array<char>, sp: nat, len2: nat, ghost s: string)
      returns (r: Outcome)
      requires Valid() && i < Num && Offsets[i] != 0
      requires HasStr(src[..], sp, s) && CanRead(i, src, sp, |s|) && len2 == |s|
      requires len1 == |Strs[i]| && HasStr(Buffer[..], Offsets[i], Strs[i]) && Offsets[i] + len1 + 1 <= DataSize
      modifies this, Offsets, Buffer
      ensures Framed() && old(Lay()).data >= 0
      ensures var a := Allocated(old(Lay()), i, old(Strs)[i] + s);
        if a.data > a.size then r == Overrun else r == Ok && Valid() && Lay() == a && OldBuffer == null
    {
      hide Content, Geometry, Sound, ContentExcept, Hole, Target, HasStr, Allocated, CanRead;
      ghost var l, first := Lay(), Strs[i];
      AllocatedSound(l, i, first + s);
      PutAgain(l.strs, TargetOf(l, i, len1 + len2), first + s, first + s);
      var Buffer1, string1 := Buffer, Offsets[i];
      var p, t := AllocateBeside(i, len1 + len2, first + s, src, sp, len2);
      if p + len1 + len2 + 1 > BufferSize {
        return Overrun;
      }
      ghost var b := Buffer[..];
      CopyTwo(Buffer, p, Buffer1, string1, len1, src, sp, len2, first, s, Freed);
      Finish(t, p, len1 + len2, first + s, b);
      r := Ok;
    }

    /** Appends the string `s` found at `src + sp` to string `i`. */
    method Concatenate(i: int, src: array?<char>, sp: nat, ghost s: string) returns (r: Outcome)
      requires Valid()
      requires if src == null then s == "" else HasStr(src[..], sp, s) && (s != "" ==> CanRead(i, src, sp, |s|))
      modifies this, Offsets, Buffer
      ensures s == "" ==> r == Ok && unchanged(this, old(Offsets), old(Buffer))
      ensures s != "" && !(0 <= i < old(Num)) ==> r == OutOfRange && unchanged(this, old(Offsets), old(Buffer))
      ensures s != "" && 0 <= i < old(Num) ==>
        Framed() && (r == Ok || r == Overrun) && (r == Overrun <==> old(Overruns(i, |Strs[i]| + |s|)))
      ensures s != "" && r == Ok ==>
        && old(Lay()).data >= 0 && Valid() && Lay() == AppendStep(old(Lay()), i, s) && OldBuffer == null
        && Strs == Put(old(Strs), old(TargetFor(i, |Strs[i]| + |s|)), old(Strs)[i] + s)
      ensures s != "" && 0 <= i < old(Num) ==>
        ((r == Ok && Strs[i] == old(Strs)[i] + s) <==> old(TargetFor(i, |Strs[i]| + |s|)) == i)
      ensures s != "" && r == Ok &&
              old(TargetFor(i, |Strs[i]| + |s|) == i && (Tight(Lay()) || WillMove(i, |Strs[i]| + |s|))) ==>
        (Tight(Lay()) <==> old(!WillRecopy(i, |Strs[i]| + |s|)))
    {
      hide Content, Geometry, Sound, Exact, HasStr, Target, OverrunsAt, Longer, Allocated, CanRead, Extend, Moves,
           Recopies;
      var len2 := 0;
      if src != null {
        len2 := StrLen(src, sp, s);
      }
      if len2 == 0 {
        return Ok;
      }
      if !(0 <= i < Num) {
        return OutOfRange;
      }
      ghost var l := Lay();
      LongerHas(l, i);
      AppendMeans(l, i, s);
      ContentAt(Buffer[..], Offsets[..Num], Strs, i);
      if Offsets[i] == 0 {
        assert "" + s == s;
        r := Set(i, src, sp, s);
        return;
      }
      BufferAt(i);
      var len1 := StrLen(Buffer, Offsets[i], Strs[i]);
      r := ConcatenateNonEmpty(i, len1, src, sp, len2, s);
    }

    /** The pointer handed out for index `i`.  It spells the string exactly when there is a buffer; without
        one all strings are empty and the pointer is null. */
    method Get(i: int) returns (r: Outcome, p: nat)
      requires Valid()
      ensures r == if 0 <= i < Num then Ok else OutOfRange
      ensures r == Ok ==> p == Offsets[i] && (HasStr(Buffer[..], p, Strs[i]) <==> BufferSize > 0)
      ensures r == Ok && BufferSize == 0 ==> Strs[i] == ""
    {
      hide Sound;
      p := 0;
      if !(0 <= i < Num) {
        return OutOfRange, 0;
      }
      ContentAt(Buffer[..], Offsets[..Num], Strs, i);
      r, p := Ok, Offsets[i];
    }
  }

  lemma PartOfStr(b: string, o: nat, s: string, start: nat, len: nat)
    requires HasStr(b, o, s) && start + len <= |s|
    ensures o + start + len <= |b| && b[o + start..o + start + len] == s[start..start + len]
    ensures '\0' !in s[start..start + len] && UpToNul(s[start..start + len]) == s[start..start + len]
  {
  }

  lemma HoleApart(b: string, offs: seq<nat>, strs: seq<string>, dataSize: int, garbage: int, top: int,
                  t: int, p: nat, len: nat, j: nat)
    requires Hole(b, offs, strs, dataSize, garbage, top, t, p, len)
    requires 0 <= t < |offs| && j < |offs| && j != t && offs[j] != 0
    ensures |offs| == |strs| && (offs[j] + |strs[j]| + 1 <= p || p + len + 1 <= offs[j])
  {
    assert Apart(offs[j], strs[j], offs[t], strs[t]);
  }

  lemma ContentErase(b: string, offs: seq<nat>, strs: seq<string>, i: nat)
    requires Content(b, offs, strs) && i < |offs|
    ensures Content(b, offs[i := 0], strs[i := ""])
  {
  }

  lemma HoleBounds(b: string, offs: seq<nat>, strs: seq<string>, dataSize: int, garbage: int, top: int,
                   t: int, p: nat, len: nat)
    requires Hole(b, offs, strs, dataSize, garbage, top, t, p, len)
    ensures 1 <= p && p + len + 1 <= dataSize
  {
  }

  lemma NullContent(offs: seq<nat>, strs: seq<string>)
    requires Content("", offs, strs)
    ensures Pos(strs, |strs|) == 1 && Image(strs, |strs|) == ['\0'] && PackedTop(strs, |strs|) == 1
    ensures PackedOffs(strs, |strs|) == offs
  {
    forall k | 0 <= k < |offs|
      ensures offs[k] == 0 && strs[k] == ""
    {
      ContentAt("", offs, strs, k);
    }
    EmptyPacked(strs, |strs|);
  }

  lemma SoundGeometry(l: Layout)
    requires Sound(l) && l.size > 0
    ensures Geometry(l.offs, l.strs, l.data, l.garbage, l.top) && 1 <= l.top
  {
  }

  lemma TargetStays(l: Layout, i: nat, len: nat)
    requires i < |l.offs| == |l.strs|
    ensures l.top + len + 1 <= l.size ==> TargetOf(l, i, len) == i
  {
  }

  // ----- whole runs -----

  /** A zero-terminated copy of the caller's text. */
  method CString(s: string) returns (a: array<char>)
    ensures fresh(a) && HasStr(a[..], 0, UpToNul(s)) && a.Length == |s| + 1 && a[..|s|] == s
  {
    a := new char[|s| + 1](k => if 0 <= k < |s| then s[k] else '\0');
    RawHasStr(a[..], 0, s);
  }

  /** The pointer an operation passes for its source. */
  method Locate(pool: StringPoolS, op: Op) returns (o: Outcome, src: array?<char>, sp: nat)
    requires pool.Valid() && Distinct(op) && (op.Assign? || op.Append?)
    ensures o == if Exists(pool.Strs, op.src) then Ok else OutOfRange
    ensures o == Ok ==> var s := Read(pool.Strs, op.src);
      if src == null then s == "" else HasStr(src[..], sp, s) && (s != "" ==> pool.CanRead(op.i, src, sp, |s|))
  {
    hide Sound, HasStr, UpToNul;
    match op.src
    case Text(s) =>
      src := CString(s);
      return Ok, src, 0;
    case Element(j) =>
      src := null;
      o, sp := pool.Get(j);
      if o == Ok {
        ContentAt(pool.Buffer[..], pool.Offsets[..pool.Num], pool.Strs, j);
        ContentNoNul(pool.Buffer[..], pool.Offsets[..pool.Num], pool.Strs);
        if pool.BufferSize > 0 {
          src := pool.Buffer;
          assert pool.Strs[j] != "" ==> pool.Within(op.i, j, sp, |pool.Strs[j]|);
        }
      }
  }

  /** What the outcome of an operation has to be, given the step of the book-keeping. */
  ghost predicate Follows(pool: StringPoolS, r: Result, o: Outcome)
    reads pool, pool.Buffer, pool.Offsets
  {
    match r
    case Running(l) => o == Ok && pool.Valid() && pool.Lay() == l
    case Failed(f) => o == f
  }

  method ApplyAssign(pool: StringPoolS, op: Op) returns (o: Outcome)
    requires pool.Valid() && Distinct(op) && op.Assign?
    modifies pool, pool.Offsets, pool.Buffer
    ensures pool.Framed() && old(pool.Lay()).data >= 0 && Follows(pool, Step(old(pool.Lay()), op), o)
  {
    hide Sound, Content, HasStr, Read, UpToNul, SetStep, OverrunsAt, Longer;
    ghost var l := pool.Lay();
    SoundFits(l);
    var a, sp;
    o, a, sp := Locate(pool, op);
    if o == Ok {
      ghost var s := Read(pool.Strs, op.src);
      if op.i >= 0 {
        SetMeans(l, op.i, s);
      }
      o := pool.Set(op.i, a, sp, s);
    }
  }

  method ApplyRaw(pool: StringPoolS, op: Op) returns (o: Outcome)
    requires pool.Valid() && op.AssignRaw?
    modifies pool, pool.Offsets, pool.Buffer
    ensures pool.Framed() && old(pool.Lay()).data >= 0 && Follows(pool, Step(old(pool.Lay()), op), o)
  {
    hide Sound, Content, HasStr, UpToNul, SetStep, RawStep, OverrunsAt, Longer;
    ghost var l := pool.Lay();
    SoundFits(l);
    var a := CString(op.raw);
    if op.i >= 0 {
      if op.raw == "" {
        SetMeans(l, op.i, "");
        RawEmpty(l, op.i);
      } else {
        RawMeans(l, op.i, op.raw);
      }
    }
    assert a[0..|op.raw|] == op.raw;
    o := pool.SetRaw(op.i, a, 0, |op.raw|);
  }

  method ApplyAppend(pool: StringPoolS, op: Op) returns (o: Outcome)
    requires pool.Valid() && Distinct(op) && op.Append?
    modifies pool, pool.Offsets, pool.Buffer
    ensures pool.Framed() && old(pool.Lay()).data >= 0 && Follows(pool, Step(old(pool.Lay()), op), o)
  {
    hide Sound, Content, HasStr, Read, UpToNul, AppendStep, OverrunsAt, Longer;
    ghost var l := pool.Lay();
    SoundFits(l);
    var a, sp;
    o, a, sp := Locate(pool, op);
    if o == Ok {
      ghost var s := Read(pool.Strs, op.src);
      if s != "" && 0 <= op.i < pool.Num {
        AppendMeans(l, op.i, s);
      }
      o := pool.Concatenate(op.i, a, sp, s);
    }
  }

  /** One operation on the pool is one step of its book-keeping. */
  method Apply(pool: StringPoolS, op: Op) returns (o: Outcome)
    requires pool.Valid() && Distinct(op)
    modifies pool, pool.Offsets, pool.Buffer
    ensures pool.Framed() && old(pool.Lay()).data >= 0 && Follows(pool, Step(old(pool.Lay()), op), o)
  {
    hide Sound, Content, Packed;
    match op
    case Assign(_, _) =>
      o := ApplyAssign(pool, op);
    case AssignRaw(_, _) =>
      o := ApplyRaw(pool, op);
    case Append(_, _) =>
      o := ApplyAppend(pool, op);
    case Reserve(newsize) =>
      SoundFits(pool.Lay());
      pool.ReserveBuf(newsize);
      o := Ok;
  }

  lemma {:induction false} FailedStays(ops: seq<Op>, n: nat)
    requires n <= |ops| && Run(ops[..n]).Failed?
    ensures Run(ops) == Run(ops[..n])
    decreases |ops|
  {
    if n < |ops| {
      assert ops[..|ops| - 1][..n] == ops[..n];
      FailedStays(ops[..|ops| - 1], n);
    } else {
      assert ops[..n] == ops;
    }
  }

  /** What is known of any run that is not stopped. */
  lemma RunMeans(ops: seq<Op>)
    ensures RightRun(ops) ==>
      match Run(ops) case Running(l) => l.strs == MapRun(ops) case Failed(o) => o == OutOfRange
    ensures RightRun(ops) && FrugalRun(ops) && Run(ops).Running? ==> Tight(Run(ops).layout)
    ensures UncutRun(ops) && Run(ops).Running? ==> TopEnds(Run(ops).layout)
    ensures NoReserve(ops) && Run(ops).Running? ==> Run(ops).layout.copied <= 5 * RequestedBy(ops)
  {
    hide Step, Run, RightRun, FrugalRun, MapRun, Tight, UncutRun, NoReserve, RequestedBy, TopEnds, Debt;
    if RightRun(ops) {
      RunIsMap(ops);
      if FrugalRun(ops) {
        RunIsTight(ops);
      }
    }
    if UncutRun(ops) {
      RunEnds(ops);
    }
    if NoReserve(ops) {
      CopiesAmortised(ops);
      DebtNotNegative();
    }
  }

  /** Any run of operations on a new pool does what `Run` says: it is stopped by the same error, or ends in
      the same layout with every string readable at its offset. */
  method RunAll(ops: seq<Op>) returns (pool: StringPoolS, o: Outcome)
    requires forall k :: 0 <= k < |ops| ==> Distinct(ops[k])
    ensures Follows(pool, Run(ops), o)
    ensures RightRun(ops) ==> o == OutOfRange || (o == Ok && pool.Strs == MapRun(ops))
    ensures RightRun(ops) && FrugalRun(ops) && o == Ok ==> pool.Valid() && Tight(pool.Lay())
    ensures UncutRun(ops) && o == Ok ==> pool.Valid() && TopEnds(pool.Lay())
    ensures NoReserve(ops) && o == Ok ==> pool.Copied <= 5 * RequestedBy(ops)
  {
    hide Step, Run, RightRun, FrugalRun, MapRun, Tight, UncutRun, NoReserve, RequestedBy, TopEnds;
    RunMeans(ops);
    pool := new StringPoolS();
    RunEmpty();
    for n := 0 to |ops|
      invariant pool.Valid() && Run(ops[..n]) == Running(pool.Lay())
      invariant fresh(pool) && fresh(pool.Buffer) && fresh(pool.Offsets)
    {
      RunSnoc(ops[..n], ops[n]);
      assert ops[..n] + [ops[n]] == ops[..n + 1];
      o := Apply(pool, ops[n]);
      if o != Ok {
        FailedStays(ops, n + 1);
        return;
      }
    }
    assert ops[..|ops|] == ops;
    o := Ok;
  }
}
