/** DynamicQueue: a ring buffer that grows by more than doubling and unwraps itself when it does. */
module DynamicQueue {
  import opened Bits
  import opened Wrappers

  const AllocateSpace := 1024

  /** `memcpy` between different blocks. */
  method CopyBlock<T>(dst: array<T>, d: nat, src: array<T>, s: nat, n: nat, ghost freed: set<array<T>>)
    requires dst !in freed && src !in freed && dst != src && d + n <= dst.Length && s + n <= src.Length
    modifies dst
    ensures forall k :: 0 <= k < dst.Length ==> dst[k] == if d <= k < d + n then src[s + k - d] else old(dst[k])
  {
    for i := 0 to n
      invariant forall k :: 0 <= k < dst.Length ==> dst[k] == if d <= k < d + i then src[s + k - d] else old(dst[k])
    {
      dst[d + i] := src[s + i];
    }
  }

  /** Slot of the `i`-th entry from the tail. */
  function Slot(tail: nat, i: nat, maxNum: nat): int {
    if tail + i >= maxNum then tail + i - maxNum else tail + i
  }

  class Queue<T(0)> {
    const elementSize: nat      // sizeof(TX)
    var Buffer: array<T>        // the empty array stands for the null pointer
    var OldBuffer: array?<T>    // kept until the new entry was copied
    var head: nat
    var tail: nat
    var MaxNum: nat
    var NumEntries: nat
    ghost var Contents: seq<T>  // the entries, oldest first
    ghost var puts: nat         // entries ever put
    ghost var copied: nat       // elements ever copied by reallocation
    ghost var Freed: set<array<T>>    // buffers given back to the allocator

    ghost predicate Valid()
      reads this, Buffer
    {
      && elementSize >= 1
      && Buffer !in Freed && OldBuffer != Buffer && OldBuffer !in Freed
      && Buffer.Length == MaxNum && NumEntries == |Contents| <= MaxNum
      && (MaxNum == 0 ==> head == 0 && tail == 0)
      && (MaxNum > 0 ==> tail < MaxNum && head == Slot(tail, NumEntries, MaxNum))
      && forall i :: 0 <= i < NumEntries ==> Buffer[Slot(tail, i, MaxNum)] == Contents[i]
    }

    /** What the growth by more than doubling pays for. */
    ghost predicate Amortised()
      reads this
    {
      copied <= MaxNum && copied <= 2 * puts && NumEntries <= puts
    }

    constructor (size: nat)
      requires size >= 1
      ensures Valid() && Contents == [] && Amortised() && puts == 0 && copied == 0 && elementSize == size
      ensures fresh(Buffer) && OldBuffer == null && Freed == {}
    {
      elementSize := size;
      Buffer, OldBuffer, Freed := new T[0], null, {};
      head, tail, MaxNum, NumEntries := 0, 0, 0, 0;
      Contents, puts, copied := [], 0, 0;
    }

    /** Copies the entries, oldest first, whether they are in one block, wrapped, or fill the buffer. */
    method Unwrap(Buffer2: array<T>)
      requires Valid() && MaxNum > 0 && Buffer2 != Buffer && Buffer2 !in Freed && Buffer2.Length > MaxNum
      modifies Buffer2
      ensures Buffer2[..NumEntries] == Contents
    {
      if tail < head {
        CopyBlock(Buffer2, 0, Buffer, tail, NumEntries, Freed);
      } else if NumEntries != 0 {
        CopyBlock(Buffer2, 0, Buffer, tail, MaxNum - tail, Freed);
        if head != 0 {
          CopyBlock(Buffer2, MaxNum - tail, Buffer, 0, head, Freed);
        }
      }
      assert forall i :: 0 <= i < NumEntries ==> Buffer2[i] == Buffer[Slot(tail, i, MaxNum)];
    }

    /** The queue keeps its contents whether its entries are in one block, wrapped, or fill the buffer.  The
        old buffer is left to the caller, which deletes it. */
    method ReAllocate(num: nat)
      requires Valid() && num > MaxNum
      modifies this
      ensures Valid() && Contents == old(Contents) && MaxNum == num && fresh(Buffer)
      ensures puts == old(puts) && copied == old(copied) + |Contents|
      ensures OldBuffer == if old(MaxNum) > 0 then old(Buffer) else null
      ensures Freed == old(Freed) + if old(OldBuffer) == null then {} else {old(OldBuffer)}
    {
      if OldBuffer != null {
        Freed := Freed + {OldBuffer};
      }
      var Buffer2 := new T[num];
      OldBuffer := null;
      if MaxNum > 0 {
        Unwrap(Buffer2);
        tail, head := 0, NumEntries;
        OldBuffer := Buffer;
      }
      Buffer, MaxNum := Buffer2, num;
      copied := copied + NumEntries;
    }

    method DeleteOldBuffer()
      requires Valid()
      modifies `OldBuffer, `Freed
      ensures Valid() && OldBuffer == null
      ensures Freed == old(Freed) + if old(OldBuffer) == null then {} else {old(OldBuffer)}
    {
      if OldBuffer != null {
        Freed := Freed + {OldBuffer};
        OldBuffer := null;
      }
    }

    /** False stands for the fatal error exit on a negative number. */
    method Reserve(num: int) returns (ok: bool)
      requires Valid() && OldBuffer == null
      modifies this
      ensures Valid() && OldBuffer == null && ok == (num >= 0) && (Buffer == old(Buffer) || fresh(Buffer))
      ensures Contents == if num == 0 then [] else old(Contents)
      ensures num > 0 ==> MaxNum == if num > old(MaxNum) then num else old(MaxNum)
      ensures num == 0 ==> MaxNum == 0
    {
      if num <= MaxNum {
        if num <= 0 {
          if num < 0 {
            return false;
          }
          if MaxNum > 0 {
            Freed := Freed + {Buffer};
          }
          Buffer := new T[0];
          MaxNum, NumEntries, head, tail := 0, 0, 0, 0;
          Contents := [];
        }
        return true;
      }
      ReAllocate(num);
      DeleteOldBuffer();
      return true;
    }

    /** A full buffer is replaced by one of more than twice its size. */
    method Grow()
      requires Valid() && NumEntries == MaxNum && OldBuffer == null
      modifies this
      ensures Valid() && Contents == old(Contents) && fresh(Buffer) && NumEntries < MaxNum
      ensures MaxNum == old(MaxNum) * 2 + (1024 + elementSize - 1) / elementSize
      ensures puts == old(puts) && copied == old(copied) + |Contents|
      ensures old(Amortised()) ==> copied <= MaxNum && copied <= 2 * puts && NumEntries <= puts
      ensures Freed == old(Freed) && (OldBuffer == null || OldBuffer == old(Buffer))
    {
      var NewSize := MaxNum * 2 + (AllocateSpace + elementSize - 1) / elementSize;
      AtLeastOne(elementSize);
      hide Slot;
      ReAllocate(NewSize);
    }

    /** The object at `src[k]` goes to the end.  It may be an entry of the queue itself: the old buffer is
        given back only after the copy. */
    method Put(src: array<T>, k: nat)
      requires Valid() && OldBuffer == null && k < src.Length && src !in Freed
      modifies this, Buffer
      ensures Valid() && OldBuffer == null && Contents == old(Contents) + [old(src[k])]
      ensures Buffer == old(Buffer) || fresh(Buffer)
      ensures puts == old(puts) + 1 && Freed <= old(Freed) + {old(Buffer)}
      ensures copied == old(copied) + if old(NumEntries == MaxNum) then |old(Contents)| else 0
      ensures old(Amortised()) ==> Amortised()
    {
      hide Slot;
      if NumEntries >= MaxNum {
        Grow();
      }
      Insert(src, k);
      DeleteOldBuffer();
    }

    /** The object goes to the vacant slot behind the entries. */
    method Insert(src: array<T>, k: nat)
      requires Valid() && NumEntries < MaxNum && k < src.Length && src !in Freed
      modifies Buffer, `head, `NumEntries, `Contents, `puts
      ensures Valid() && Contents == old(Contents) + [old(src[k])] && puts == old(puts) + 1
    {
      hide Slot;
      SlotInjective(tail, NumEntries, MaxNum);
      Contents := Contents + [src[k]];
      Buffer[head] := src[k];
      head := head + 1;
      if head >= MaxNum {
        head := 0;
      }
      NumEntries := NumEntries + 1;
      puts := puts + 1;
    }

    /** Takes out the oldest entry; None stands for the fatal error exit on an empty queue. */
    method Get() returns (r: Option<T>)
      requires Valid()
      modifies this
      ensures Valid() && Buffer == old(Buffer) && puts == old(puts) && copied == old(copied)
      ensures OldBuffer == old(OldBuffer) && Freed == old(Freed)
      ensures if old(Contents) == [] then r == None && Contents == []
              else r == Some(old(Contents)[0]) && Contents == old(Contents)[1..]
      ensures old(Amortised()) ==> Amortised()
    {
      if NumEntries <= 0 {
        return None;
      }
      var p := tail;
      assert Slot(tail, 0, MaxNum) == tail;
      ghost var was := tail;
      tail := tail + 1;
      if tail >= MaxNum {
        tail := 0;
      }
      NumEntries := NumEntries - 1;
      Contents := Contents[1..];
      assert forall i :: 0 <= i < NumEntries ==> Slot(tail, i, MaxNum) == Slot(was, i + 1, MaxNum);
      r := Some(Buffer[p]);
    }

    /** The slot of entry `i` from the tail, a reference to it; None stands for the fatal error exit. */
    method At(i: int) returns (r: Option<nat>)
      requires Valid()
      ensures r.Some? <==> 0 <= i < |Contents|
      ensures r.Some? ==> r.value < Buffer.Length && Buffer[r.value] == Contents[i]
    {
      if !(0 <= i < NumEntries) {
        return None;
      }
      var j := i + tail;
      if j >= MaxNum {
        j := j - MaxNum;
      }
      assert j == Slot(tail, i, MaxNum);
      r := Some(j);
    }
  }

  /** The slot of a vacant position is in the buffer, is that of no entry, and the next slot follows it. */
  lemma SlotInjective(tail: nat, n: nat, maxNum: nat)
    requires tail < maxNum && n < maxNum
    ensures forall i :: 0 <= i <= n ==> 0 <= Slot(tail, i, maxNum) < maxNum
    ensures forall i :: 0 <= i < n ==> Slot(tail, i, maxNum) != Slot(tail, n, maxNum)
    ensures Slot(tail, n + 1, maxNum) == if Slot(tail, n, maxNum) + 1 >= maxNum then 0 else Slot(tail, n, maxNum) + 1
  {
  }

  lemma AtLeastOne(size: nat)
    requires size >= 1
    ensures (AllocateSpace + size - 1) / size >= 1
  {
    var q := (AllocateSpace + size - 1) / size;
    assert AllocateSpace + size - 1 < size * q + size;
    if q < 1 {
      MulMonotone(size, q, 0);
    }
  }

  // ----- whole runs -----

  /** Put a new object, put a copy of the entry at a position, or take the oldest out. */
  datatype Op<T> = PutOp(value: T) | CopyOp(i: int) | GetOp

  /** The first-in first-out specification: what is left after the operations and what they delivered, None
      for an error. */
  function Fifo<T>(ops: seq<Op<T>>): (seq<T>, seq<Option<T>>) {
    if ops == [] then ([], []) else
      var (rest, out) := Fifo(ops[..|ops| - 1]);
      match ops[|ops| - 1]
      case PutOp(x) => (rest + [x], out)
      case CopyOp(i) => if 0 <= i < |rest| then (rest + [rest[i]], out) else (rest, out + [None])
      case GetOp => if rest == [] then (rest, out + [None]) else (rest[1..], out + [Some(rest[0])])
  }

  /** Everything ever put in, in order. */
  function Inserted<T>(ops: seq<Op<T>>): seq<T> {
    if ops == [] then [] else
      var front := ops[..|ops| - 1];
      match ops[|ops| - 1]
      case PutOp(x) => Inserted(front) + [x]
      case CopyOp(i) => if 0 <= i < |Fifo(front).0| then Inserted(front) + [Fifo(front).0[i]] else Inserted(front)
      case GetOp => Inserted(front)
  }

  /** In a run what comes out, followed by what is left, is what went in, in order. */
  lemma {:induction false} FirstInFirstOut<T>(ops: seq<Op<T>>)
    ensures var (rest, out) := Fifo(ops); Values(out) + rest == Inserted(ops)
    decreases |ops|
  {
    hide Values;
    if ops == [] {
      NoValues<T>();
    } else {
      FirstInFirstOut(ops[..|ops| - 1]);
      var (rest, out) := Fifo(ops[..|ops| - 1]);
      match ops[|ops| - 1]
      case PutOp(x) =>
        assert (Values(out) + rest) + [x] == Values(out) + (rest + [x]);
      case CopyOp(i) =>
        if 0 <= i < |rest| {
          assert (Values(out) + rest) + [rest[i]] == Values(out) + (rest + [rest[i]]);
        } else {
          ValuesSnoc(out, None);
        }
      case GetOp =>
        if rest == [] {
          ValuesSnoc(out, None);
        } else {
          ValuesSnoc(out, Some(rest[0]));
          assert rest == [rest[0]] + rest[1..];
          assert Values(out) + rest == (Values(out) + [rest[0]]) + rest[1..];
        }
    }
  }

  function Values<T>(out: seq<Option<T>>): seq<T> {
    if out == [] then [] else
      Values(out[..|out| - 1]) + match out[|out| - 1] case None => [] case Some(x) => [x]
  }

  lemma NoValues<T>()
    ensures Values<T>([]) == []
  {
  }

  lemma ValuesSnoc<T>(out: seq<Option<T>>, o: Option<T>)
    ensures Values(out + [o]) == Values(out) + match o case None => [] case Some(x) => [x]
  {
    assert (out + [o])[..|out|] == out;
  }

  method Apply<T(0)>(q: Queue<T>, op: Op<T>) returns (out: seq<Option<T>>)
    requires q.Valid() && q.Amortised() && q.OldBuffer == null
    modifies q, q.Buffer
    ensures q.Valid() && q.Amortised() && q.OldBuffer == null && (q.Buffer == old(q.Buffer) || fresh(q.Buffer))
    ensures var rest := old(q.Contents);
      match op
      case PutOp(x) => q.Contents == rest + [x] && out == [] && q.puts == old(q.puts) + 1
      case CopyOp(i) =>
        if 0 <= i < |rest| then q.Contents == rest + [rest[i]] && out == [] && q.puts == old(q.puts) + 1
        else q.Contents == rest && out == [None] && q.puts == old(q.puts)
      case GetOp =>
        && out == [if rest == [] then None else Some(rest[0])] && q.puts == old(q.puts)
        && q.Contents == if rest == [] then rest else rest[1..]
  {
    out := [];
    match op
    case PutOp(x) =>
      var a := new T[1](_ => x);
      q.Put(a, 0);
    case CopyOp(i) =>
      var r := q.At(i);
      match r {
        case Some(j) => q.Put(q.Buffer, j);
        case None => out := [None];
      }
    case GetOp =>
      var r := q.Get();
      out := [r];
  }

  /** Any run from an empty queue behaves as specified and copies at most two elements for every one put. */
  method Run<T(0)>(ops: seq<Op<T>>, size: nat) returns (out: seq<Option<T>>, q: Queue<T>)
    requires size >= 1
    ensures q.Valid() && (q.Contents, out) == Fifo(ops)
    ensures q.puts == |Inserted(ops)| && q.copied <= 2 * |Inserted(ops)|
  {
    q := new Queue<T>(size);
    out := [];
    for i := 0 to |ops|
      invariant q.Valid() && q.Amortised() && q.OldBuffer == null && fresh(q) && fresh(q.Buffer)
      invariant (q.Contents, out) == Fifo(ops[..i]) && q.puts == |Inserted(ops[..i])|
    {
      assert ops[..i + 1][..i] == ops[..i] && ops[..i + 1][i] == ops[i];
      var o := Apply(q, ops[i]);
      assert out + [] == out;
      out := out + o;
    }
    assert ops[..|ops|] == ops;
  }
}
