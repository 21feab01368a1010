/** MixedPool: a growing byte buffer.  Everything past the data is zero, so that growing the data area
    appends zeros. */
module MixedPool {
  import opened Bits
  import opened Wrappers

  newtype Byte = b: int | 0 <= b < 256

  const AllocateSpace := 1024

  datatype Outcome = Ok | OutOfRange

  function Zeros(n: nat): (z: seq<Byte>)
    ensures |z| == n && forall k :: 0 <= k < n ==> z[k] == 0
  {
    seq(n, _ => 0)
  }

  /** `n & -16` */
  function RoundDown16(n: int): int { AndNot(n, 15) }

  lemma RoundsUp(n: int)
    ensures n <= RoundDown16(n + 15) < n + 16 && RoundDown16(n + 15) % 16 == 0
  {
    hide AndNot, Pow2, And;
    Sixteen();
    MaskIsMod(n + 15, 4);
    Below(n + 15);
  }

  lemma Sixteen()
    ensures Pow2(4) == 16
  {
    assert Pow2(4) == 2 * Pow2(3) == 4 * Pow2(2) == 8 * Pow2(1) == 16 * Pow2(0);
  }

  lemma Below(m: int)
    ensures 0 <= m % 16 < 16 && (m - m % 16) % 16 == 0
  {
  }

  method CopyBytes(dst: array<Byte>, d: nat, src: array<Byte>, s: nat, n: nat, ghost freed: set<array<Byte>>)
    requires dst !in freed && src !in freed
    requires d + n <= dst.Length && s + n <= src.Length && (dst == src ==> s + n <= d)
    modifies dst
    ensures forall k :: 0 <= k < dst.Length ==> dst[k] == if d <= k < d + n then old(src[s + k - d]) else old(dst[k])
  {
    for i := 0 to n
      invariant forall k :: 0 <= k < dst.Length ==>
        dst[k] == if d <= k < d + i then old(src[s + k - d]) else old(dst[k])
      invariant dst == src || src[..] == old(src[..])
    {
      assert dst != src ==> src[..][s + i] == old(src[..])[s + i];
      dst[d + i] := src[s + i];
    }
  }

  class Pool {
    var buffer: array<Byte>    // the empty array stands for the null pointer
    var BufferSize: nat
    var NumEntries: nat
    var DataSize: int
    ghost var Freed: set<array<Byte>>    // buffers given back to the allocator

    ghost predicate Valid()
      reads this, buffer
    {
      && buffer.Length == BufferSize && 0 <= DataSize <= BufferSize && buffer !in Freed
      && forall k :: DataSize <= k < BufferSize ==> buffer[k] == 0
    }

    ghost function Data(): seq<Byte>
      requires Valid()
      reads this, buffer
    {
      buffer[..DataSize]
    }

    /** The buffer is kept, or replaced by a new one and given back. */
    twostate predicate Framed()
      reads this
    {
      && (buffer == old(buffer) || fresh(buffer))
      && Freed == old(Freed) + if old(BufferSize) > 0 && buffer != old(buffer) then {old(buffer)} else {}
    }

    constructor ()
      ensures Valid() && Data() == [] && NumEntries == 0 && fresh(buffer) && Freed == {}
    {
      buffer, Freed := new Byte[0], {};
      BufferSize, NumEntries, DataSize := 0, 0, 0;
    }

    /** `delete[] buffer`, of a buffer that is about to be replaced. */
    ghost method Delete()
      modifies `Freed
      ensures Freed == old(Freed) + if BufferSize > 0 then {buffer} else {}
    {
      Freed := Freed + if BufferSize > 0 then {buffer} else {};
    }

    /** Makes the buffer at least `size` bytes long; 0 discards everything. */
    method ReserveSize(size: int) returns (r: Outcome)
      requires Valid()
      modifies this
      ensures Valid() && r == (if size < 0 then OutOfRange else Ok) && Framed()
      ensures size == 0 ==> Data() == [] && NumEntries == 0 && BufferSize == 0
      ensures size != 0 ==> BufferSize == if size > old(BufferSize) then RoundDown16(size + 15) else old(BufferSize)
      ensures size != 0 ==> Data() == old(Data()) && NumEntries == old(NumEntries) && size <= BufferSize
    {
      if size <= BufferSize {
        if size <= 0 {
          if size < 0 {
            return OutOfRange;
          }
          Delete();
          buffer := new Byte[0];
          NumEntries, DataSize, BufferSize := 0, 0, 0;
        }
        return Ok;
      }
      var size' := RoundDown16(size + 15);
      RoundsUp(size);
      var buffer2 := new Byte[size'](_ => 0);
      if BufferSize > 0 {
        CopyBytes(buffer2, 0, buffer, 0, BufferSize, Freed);
        Delete();
      }
      assert buffer2[..DataSize] == buffer[..DataSize];
      buffer, BufferSize := buffer2, size';
      return Ok;
    }

    /** Setting a larger size is pushing zeros, setting a smaller one erases what lies past it. */
    method SetDataSize(size: int) returns (r: Outcome)
      requires Valid()
      modifies this, buffer
      ensures Valid() && NumEntries == old(NumEntries) && Framed()
      ensures size < 0 ==> r == OutOfRange && Data() == old(Data())
      ensures size >= 0 ==> r == Ok && |Data()| == size
      ensures 0 <= size <= |old(Data())| ==> Data() == old(Data())[..size]
      ensures size >= |old(Data())| ==> Data() == old(Data()) + Zeros(size - |old(Data())|)
      ensures BufferSize == if size <= old(BufferSize) then old(BufferSize)
                            else RoundDown16(RoundDown16(size + 1024 + 15) + 15)
    {
      hide RoundDown16, Zeros;
      if size < 0 {
        return OutOfRange;
      }
      ghost var was := Data();
      if size > BufferSize {
        RoundsUp(size + AllocateSpace);
        var _ := ReserveSize(RoundDown16(size + AllocateSpace + 15));
        assert buffer[..DataSize] == was;
      } else if size < DataSize {
        forall k | size <= k < DataSize {
          buffer[k] := 0;
        }
      }
      ghost var all := buffer[..];
      assert forall k :: 0 <= k < |was| && k < size ==> all[k] == was[k];
      DataSize := size;
      return Ok;
    }

    /** Appends `size` bytes found at `obj + from`, or zeros for a null pointer, and returns their offset.
        `obj` may lie in the pool's own data, also when the buffer moves: it is copied before the old
        buffer is given back.  A negative size, with a null pointer, takes bytes off the end without clearing
        them; the zeros behind the data survive that exactly when these bytes are zero already. */
    method Push(obj: array?<Byte>, from: nat, size: int) returns (OldOffset: int)
      requires Valid()
      requires obj !in Freed
      requires obj != null ==> 0 <= size && from + size <= obj.Length && (obj == buffer ==> from + size <= DataSize)
      modifies this, buffer
      ensures OldOffset == |old(Data())| && Framed()
      ensures NumEntries == old(NumEntries) + if size != 0 then 1 else 0
      ensures size >= 0 ==>
        Valid() && Data() == old(Data()) + if obj == null then Zeros(size) else old(obj[from..from + size])
      ensures BufferSize == if old(DataSize) + size <= old(BufferSize) then old(BufferSize)
                            else RoundDown16((old(DataSize) + size) * 2 + 1024 + 15)
      ensures size < 0 ==> buffer == old(buffer) && buffer[..] == old(buffer[..]) && DataSize == old(DataSize) + size
      ensures Valid() <==>
        size >= 0 || (0 <= old(DataSize) + size &&
                      forall k :: old(DataSize) + size <= k < old(DataSize) ==> old(buffer[k]) == 0)
    {
      OldOffset := DataSize;
      ghost var was := Data();
      ghost var added := if size < 0 then [] else if obj == null then Zeros(size) else obj[from..from + size];
      var NewOffset := DataSize + size;
      MakeRoom(obj, from, size, NewOffset);
      ghost var all := buffer[..];
      assert size >= 0 ==> all[..NewOffset] == was + added;
      if size != 0 {
        DataSize := NewOffset;
        NumEntries := NumEntries + 1;
      }
    }

    /** The bytes of a push are put behind the data, in a larger buffer if needed. */
    method MakeRoom(obj: array?<Byte>, from: nat, size: int, NewOffset: int)
      requires Valid() && NewOffset == DataSize + size
      requires obj !in Freed
      requires obj != null ==> 0 <= size && from + size <= obj.Length && (obj == buffer ==> from + size <= DataSize)
      modifies this, buffer
      ensures DataSize == old(DataSize) && NumEntries == old(NumEntries) && buffer.Length == BufferSize
      ensures Framed() && buffer !in Freed && NewOffset <= BufferSize
      ensures BufferSize == if NewOffset <= old(BufferSize) then old(BufferSize)
                            else RoundDown16(NewOffset * 2 + 1024 + 15)
      ensures size < 0 ==> buffer == old(buffer) && buffer[..] == old(buffer[..])
      ensures size >= 0 ==>
        && buffer[..DataSize] == old(Data())
        && buffer[DataSize..NewOffset] == (if obj == null then Zeros(size) else old(obj[from..from + size]))
        && forall k :: NewOffset <= k < BufferSize ==> buffer[k] == 0
    {
      hide RoundDown16;
      ghost var was := Data();
      ghost var added := if size < 0 then [] else if obj == null then Zeros(size) else obj[from..from + size];
      if NewOffset > BufferSize {
        MoveAndCopy(obj, from, size, NewOffset);
      } else if obj != null && size != 0 {
        CopyBytes(buffer, DataSize, obj, from, size, Freed);
      }
      ghost var all := buffer[..];
      assert forall k :: 0 <= k < |was| ==> all[k] == was[k];
      assert size >= 0 ==> forall k :: DataSize <= k < NewOffset ==> all[k] == added[k - DataSize];
    }

    /** The branch of `Push` that allocates more space.  The old buffer is deleted last, since the bytes to be
        pushed may lie in it. */
    method MoveAndCopy(obj: array?<Byte>, from: nat, size: nat, NewOffset: nat)
      requires Valid() && NewOffset == DataSize + size > BufferSize
      requires obj !in Freed && (obj != null ==> from + size <= obj.Length)
      modifies this
      ensures Framed() && buffer !in Freed && fresh(buffer) && buffer.Length == BufferSize >= NewOffset
      ensures BufferSize == RoundDown16(NewOffset * 2 + 1024 + 15)
      ensures DataSize == old(DataSize) && NumEntries == old(NumEntries)
      ensures forall k :: 0 <= k < DataSize ==> buffer[k] == old(buffer[k])
      ensures forall k :: DataSize <= k < NewOffset ==>
        buffer[k] == if obj == null then 0 else old(obj[from + k - DataSize])
      ensures forall k :: NewOffset <= k < BufferSize ==> buffer[k] == 0
    {
      RoundsUp(NewOffset * 2 + AllocateSpace);
      var NewSize := RoundDown16(NewOffset * 2 + AllocateSpace + 15);
      hide RoundDown16;
      var buffer2 := new Byte[NewSize](_ => 0);
      if BufferSize > 0 {
        CopyBytes(buffer2, 0, buffer, 0, BufferSize, Freed);
      }
      if obj != null && size != 0 {
        CopyBytes(buffer2, DataSize, obj, from, size, Freed);
      }
      Delete();
      buffer, BufferSize := buffer2, NewSize;
    }

    /** Appends zeros up to the next offset divisible by `a`.  A negative alignment moves the end of the data
        down to a multiple instead, without clearing what is cut off. */
    method Align(a: int)
      requires Valid() && a != 0
      modifies this
      ensures NumEntries == old(NumEntries) && Framed()
      ensures DataSize == Aligned(old(DataSize), a)
      ensures a > 0 ==> Valid() && |Data()| % a == 0 && |old(Data())| <= |Data()| < |old(Data())| + a
      ensures a > 0 ==> Data() == old(Data()) + Zeros(|Data()| - |old(Data())|)
      ensures a < 0 ==> buffer == old(buffer)
      ensures BufferSize == if DataSize <= old(BufferSize) then old(BufferSize)
                            else RoundDown16(DataSize * 2 + 1024 + 15)
      ensures Valid() <==>
        var n := Aligned(old(DataSize), a);
        a > 0 || (0 <= n && forall k :: n <= k < old(DataSize) ==> old(buffer[k]) == 0)
    {
      hide RoundDown16, Aligned;
      var NewOffset := Aligned(DataSize, a);
      Multiple(DataSize, a);
      ghost var was := Data();
      if NewOffset > BufferSize {
        var _ := ReserveSize(NewOffset * 2 + AllocateSpace);
        assert buffer[..DataSize] == was;
      }
      ghost var all := buffer[..];
      assert forall k :: 0 <= k < |was| ==> all[k] == was[k];
      DataSize := NewOffset;
    }
  }

  /** Division that rounds towards zero. */
  function Quotient(n: int, a: int): int
    requires a != 0
  {
    if n >= 0 then n / a else -(-n / a)
  }

  /** `(n + a - 1) / a * a` */
  function Aligned(n: int, a: int): int
    requires a != 0
  {
    Quotient(n + a - 1, a) * a
  }

  /** The alignment expression is the next multiple upwards, or for a negative alignment the multiple next to
      `n + a - 1` on the side of zero. */
  lemma Multiple(n: nat, a: int)
    requires a != 0
    ensures var m, b := Aligned(n, a), n + a - 1;
      && m % a == 0
      && (a > 0 ==> n <= m < n + a)
      && (a < 0 ==> m <= n && if b >= 0 then b + a < m <= b else b <= m < b - a && m <= 0)
  {
    if a > 0 {
      NextMultiple(n, a);
    } else {
      NegativeMultiple(n + a - 1, -a);
    }
  }

  lemma DivideByNegative(n: int, d: int)
    requires d > 0
    ensures n / -d == -(n / d)
  {
  }

  lemma MultipleOf(q: int, d: int)
    requires d > 0
    ensures (d * q) % d == 0 && (d * q) % -d == 0
  {
    DivUnique(d * q, d, q, 0);
  }

  lemma Signs(q: int, d: int)
    ensures -q * -d == d * q && q * -d == -(d * q) && d * -q == -(d * q)
  {
  }

  lemma Remainder(n: int, d: int)
    requires d > 0
    ensures n - d < d * (n / d) <= n
  {
  }

  lemma NegativeMultiple(b: int, d: int)
    requires d > 0
    ensures var m := Quotient(b, -d) * -d;
      m % -d == 0 && if b >= 0 then b - d < m <= b else b <= m < b + d && m <= 0
  {
    var n := if b >= 0 then b else -b;
    var q := n / d;
    DivideByNegative(n, d);
    var k := Quotient(b, -d);
    assert k == if b >= 0 then -q else q;
    MultipleOf(-k, d);
    Signs(k, d);
    Signs(q, d);
    Remainder(n, d);
    NotNegative(n, d);
    var m := k * -d;
    assert m == d * -k;
  }

  lemma NotNegative(n: int, d: int)
    requires n >= 0 && d > 0
    ensures d * (n / d) >= 0
  {
    MulMonotone(d, 0, n / d);
  }

  lemma NextMultiple(n: nat, a: nat)
    requires a > 0
    ensures var m := (n + a - 1) / a * a; n <= m < n + a && m % a == 0
  {
    var q := (n + a - 1) / a;
    assert q * a == a * q;
    DivUnique(a * q, a, q, 0);
  }

  // ----- inputs for which the zeros do not survive -----

  method PushCutsOff() returns (p: Pool)
    ensures !p.Valid()
  {
    p := new Pool();
    var one := new Byte[1](_ => 1);
    assert one[0..1] == [1];
    var _ := p.Push(one, 0, 1);
    assert p.Data() == [1] && p.buffer[0] == p.Data()[0];
    var _ := p.Push(null, 0, -1);
  }

  method AlignCutsOff() returns (p: Pool)
    ensures !p.Valid()
  {
    p := new Pool();
    var one := new Byte[1](_ => 1);
    assert one[0..1] == [1];
    var _ := p.Push(one, 0, 1);
    assert p.Data() == [1];
    assert Aligned(1, -1) == -1;
    p.Align(-1);
  }

  // ----- whole runs -----

  datatype Op =
    | PushBytes(bytes: seq<Byte>)
    | PushZeros(count: nat)
    | PushOwn(from: nat, count: nat)
    | AlignTo(a: int)
    | SetSize(size: int)
    | ReserveFor(size: int)

  /** Alignments are positive. */
  predicate Proper(op: Op) { op.AlignTo? ==> op.a > 0 }

  /** What an operation makes of the data; None for a fatal error, or for bytes of the pool that do not exist,
      which a caller does not ask for. */
  function Step(data: seq<Byte>, op: Op): Option<seq<Byte>>
    requires Proper(op)
  {
    match op
    case PushBytes(bytes) => Some(data + bytes)
    case PushZeros(n) => Some(data + Zeros(n))
    case PushOwn(from, n) => if from + n <= |data| then Some(data + data[from..from + n]) else None
    case AlignTo(a) => Multiple(|data|, a); Some(data + Zeros(Aligned(|data|, a) - |data|))
    case SetSize(n) =>
      if n < 0 then None else if n <= |data| then Some(data[..n]) else Some(data + Zeros(n - |data|))
    case ReserveFor(n) => if n < 0 then None else if n == 0 then Some([]) else Some(data)
  }

  function Fold(ops: seq<Op>): Option<seq<Byte>>
    requires forall k :: 0 <= k < |ops| ==> Proper(ops[k])
  {
    if ops == [] then Some([]) else
      match Fold(ops[..|ops| - 1])
      case None => None
      case Some(data) => Step(data, ops[|ops| - 1])
  }

  /** The operation takes nothing away. */
  predicate Keeps(data: seq<Byte>, op: Op) {
    (op.SetSize? ==> op.size >= |data|) && (op.ReserveFor? ==> op.size != 0)
  }

  ghost predicate KeepsFrom(ops: seq<Op>, m: nat)
    requires m <= |ops| && forall k :: 0 <= k < |ops| ==> Proper(ops[k])
  {
    m < |ops| ==>
      var front := ops[..|ops| - 1];
      KeepsFrom(front, m) && (Fold(front).Some? ==> Keeps(Fold(front).value, ops[|ops| - 1]))
  }

  /** As long as nothing is taken away, the data at any moment begin all later ones: offsets stay good. */
  lemma {:induction false} EarlierIsPrefix(ops: seq<Op>, m: nat)
    requires m <= |ops| && (forall k :: 0 <= k < |ops| ==> Proper(ops[k])) && KeepsFrom(ops, m) && Fold(ops).Some?
    ensures Fold(ops[..m]).Some? && Fold(ops[..m]).value <= Fold(ops).value
    decreases |ops|
  {
    if m < |ops| {
      var front := ops[..|ops| - 1];
      assert front[..m] == ops[..m];
      EarlierIsPrefix(front, m);
    } else {
      assert ops[..m] == ops;
    }
  }

  /** Bytes pushed are found at the offset that `Push` returned. */
  lemma PushedStays(ops: seq<Op>, m: nat)
    requires m < |ops| && ops[m].PushBytes? && (forall k :: 0 <= k < |ops| ==> Proper(ops[k]))
    requires KeepsFrom(ops, m + 1) && Fold(ops).Some?
    ensures Fold(ops[..m]).Some?
    ensures var o, b := |Fold(ops[..m]).value|, ops[m].bytes;
      o + |b| <= |Fold(ops).value| && Fold(ops).value[o..o + |b|] == b
  {
    hide Fold, KeepsFrom;
    EarlierIsPrefix(ops, m + 1);
    FoldNext(ops, m);
    var d, b := Fold(ops[..m]).value, ops[m].bytes;
    assert (d + b)[|d|..|d| + |b|] == b;
    assert d + b <= Fold(ops).value;
  }

  lemma FoldNext(ops: seq<Op>, m: nat)
    requires m < |ops| && forall k :: 0 <= k < |ops| ==> Proper(ops[k])
    ensures Fold(ops[..m + 1]) == match Fold(ops[..m]) case None => None case Some(data) => Step(data, ops[m])
  {
    assert ops[..m + 1][..m] == ops[..m];
  }

  lemma PartOfPrefix(s: seq<Byte>, n: nat, from: nat, count: nat)
    requires from + count <= n <= |s|
    ensures s[..n][from..from + count] == s[from..from + count]
  {
  }

  /** One operation of a caller that knows the size of the data. */
  method Apply(p: Pool, op: Op) returns (o: Outcome)
    requires p.Valid() && Proper(op)
    modifies p, p.buffer
    ensures p.buffer == old(p.buffer) || fresh(p.buffer)
    ensures match Step(old(p.Data()), op)
      case None => o == OutOfRange
      case Some(data) => o == Ok && p.Valid() && p.Data() == data
  {
    hide Aligned, RoundDown16;
    o := Ok;
    match op
    case PushBytes(bytes) =>
      var a := new Byte[|bytes|](i requires 0 <= i < |bytes| => bytes[i]);
      assert a[0..|bytes|] == bytes;
      var _ := p.Push(a, 0, |bytes|);
    case PushZeros(n) =>
      var _ := p.Push(null, 0, n);
    case PushOwn(from, n) =>
      if from + n > p.DataSize {
        return OutOfRange;
      }
      PartOfPrefix(p.buffer[..], p.DataSize, from, n);
      assert p.buffer[..][from..from + n] == p.buffer[from..from + n];
      var _ := p.Push(p.buffer, from, n);
    case AlignTo(a) =>
      p.Align(a);
    case SetSize(n) =>
      o := p.SetDataSize(n);
    case ReserveFor(n) =>
      o := p.ReserveSize(n);
  }

  lemma {:induction false} NoneStays(ops: seq<Op>, n: nat)
    requires n <= |ops| && (forall k :: 0 <= k < |ops| ==> Proper(ops[k])) && Fold(ops[..n]).None?
    ensures Fold(ops).None?
    decreases |ops|
  {
    if n < |ops| {
      assert ops[..|ops| - 1][..n] == ops[..n];
      NoneStays(ops[..|ops| - 1], n);
    } else {
      assert ops[..n] == ops;
    }
  }

  /** Any run of operations on a new pool ends with the data of `Fold` and zeros behind them, or stops at the
      same error. */
  method Run(ops: seq<Op>) returns (p: Pool, o: Outcome)
    requires forall k :: 0 <= k < |ops| ==> Proper(ops[k])
    ensures match Fold(ops)
      case None => o == OutOfRange
      case Some(data) => o == Ok && p.Valid() && p.Data() == data
  {
    hide Step;
    p := new Pool();
    for n := 0 to |ops|
      invariant p.Valid() && fresh(p) && fresh(p.buffer) && Fold(ops[..n]) == Some(p.Data())
    {
      assert ops[..n + 1][..n] == ops[..n] && ops[..n + 1][n] == ops[n];
      o := Apply(p, ops[n]);
      if o != Ok {
        NoneStays(ops, n + 1);
        return;
      }
    }
    assert ops[..|ops|] == ops;
    o := Ok;
  }
}
