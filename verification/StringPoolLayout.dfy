/** StringPoolS: every string of the pool lives in one character buffer and is found through a
    table of offsets; offset 0 marks the empty string.  This module is about layouts as values. */
module StringPoolLayout {

  /** The characters of `b` from `o` on, up to a zero character, spell `s`. */
  ghost predicate HasStr(b: string, o: nat, s: string) {
    && o + |s| < |b|
    && (forall k :: 0 <= k < |s| ==> b[o + k] == s[k])
    && b[o + |s|] == '\0'
    && '\0' !in s
  }

  lemma HasStrUnique(b: string, o: nat, s: string, s': string)
    requires HasStr(b, o, s) && HasStr(b, o, s')
    ensures s == s'
  {
    assert forall k :: o <= k < o + |s| ==> b[k] == s[k - o] != '\0';
    assert forall k :: o <= k < o + |s'| ==> b[k] == s'[k - o] != '\0';
  }

  /** What a scan from the start of `s` sees: `s` up to its first zero character. */
  function UpToNul(s: string): (r: string)
    ensures |r| <= |s| && r == s[..|r|] && '\0' !in r
    ensures |r| < |s| ==> s[|r|] == '\0'
    ensures '\0' !in s ==> r == s
  {
    if s == "" || s[0] == '\0' then "" else
      var r := [s[0]] + UpToNul(s[1..]);
      assert r == s[..|r|];
      r
  }

  /** Bytes taken by a string, its terminator included. */
  function Slot(o: nat, s: string): nat {
    if o == 0 then 0 else |s| + 1
  }

  /** Bytes taken by all the strings that have a place in the buffer. */
  function Live(offs: seq<nat>, strs: seq<string>): nat
    requires |offs| == |strs|
  {
    if |offs| == 0 then 0
    else Live(offs[..|offs| - 1], strs[..|offs| - 1]) + Slot(offs[|offs| - 1], strs[|offs| - 1])
  }

  lemma {:induction false} LiveUpdate(offs: seq<nat>, strs: seq<string>, i: nat, o: nat, s: string)
    requires |offs| == |strs| && i < |offs|
    ensures Live(offs[i := o], strs[i := s]) == Live(offs, strs) - Slot(offs[i], strs[i]) + Slot(o, s)
    decreases |offs|
  {
    var n := |offs| - 1;
    if i == n {
      assert offs[i := o][..n] == offs[..n] && strs[i := s][..n] == strs[..n];
    } else {
      LiveUpdate(offs[..n], strs[..n], i, o, s);
      assert offs[i := o][..n] == offs[..n][i := o] && strs[i := s][..n] == strs[..n][i := s];
    }
  }

  lemma {:induction false} LiveZero(offs: seq<nat>, strs: seq<string>)
    requires |offs| == |strs| && forall k :: 0 <= k < |offs| ==> offs[k] == 0
    ensures Live(offs, strs) == 0
    decreases |offs|
  {
    if |offs| > 0 {
      LiveZero(offs[..|offs| - 1], strs[..|offs| - 1]);
    }
  }

  // ----- packing: where the compacting loop puts every string -----

  /** First free position after the first `n` strings were copied behind the zero at offset 0. */
  function Pos(strs: seq<string>, n: nat): (p: nat)
    requires n <= |strs|
    ensures p >= 1
  {
    if n == 0 then 1
    else Pos(strs, n - 1) + if strs[n - 1] == "" then 0 else |strs[n - 1]| + 1
  }

  /** The characters in front of that position. */
  function Image(strs: seq<string>, n: nat): (b: string)
    requires n <= |strs|
    ensures |b| == Pos(strs, n)
  {
    if n == 0 then ['\0']
    else Image(strs, n - 1) + if strs[n - 1] == "" then "" else strs[n - 1] + ['\0']
  }

  function PackedOffs(strs: seq<string>, n: nat): (o: seq<nat>)
    requires n <= |strs|
    ensures |o| == n
    ensures forall k {:trigger o[k]} :: 0 <= k < n ==> o[k] == if strs[k] == "" then 0 else Pos(strs, k)
  {
    seq(n, k requires 0 <= k < n => if strs[k] == "" then 0 else Pos(strs, k))
  }

  function LastNonEmpty(strs: seq<string>, n: nat): (t: int)
    requires n <= |strs|
    ensures -1 <= t < n
    ensures t >= 0 ==> strs[t] != ""
    ensures forall k :: t < k < n ==> strs[k] == ""
  {
    if n == 0 then -1
    else if strs[n - 1] != "" then n - 1
    else LastNonEmpty(strs, n - 1)
  }

  function PackedTop(strs: seq<string>, n: nat): nat
    requires n <= |strs|
  {
    var t := LastNonEmpty(strs, n);
    if t < 0 then 1 else Pos(strs, t)
  }

  lemma {:induction false} PosMonotone(strs: seq<string>, m: nat, n: nat)
    requires m <= n <= |strs|
    ensures Pos(strs, m) <= Pos(strs, n)
    ensures m < n && strs[m] != "" ==> Pos(strs, m) + |strs[m]| + 1 <= Pos(strs, n)
    decreases n - m
  {
    if m < n {
      PosMonotone(strs, m, n - 1);
    }
  }

  lemma {:induction false} ImagePrefix(strs: seq<string>, m: nat, n: nat)
    requires m <= n <= |strs|
    ensures Pos(strs, m) <= Pos(strs, n) && Image(strs, n)[..Pos(strs, m)] == Image(strs, m)
    decreases n - m
  {
    if m < n {
      ImagePrefix(strs, m, n - 1);
    }
  }

  /** Every copied string can be read back at its new offset. */
  lemma ImageHasStr(strs: seq<string>, k: nat, n: nat)
    requires k < n <= |strs| && strs[k] != "" && '\0' !in strs[k]
    ensures HasStr(Image(strs, n), Pos(strs, k), strs[k])
  {
    ImagePrefix(strs, k + 1, n);
    var b, o := Image(strs, n), Pos(strs, k);
    assert b[..Pos(strs, k + 1)] == Image(strs, k) + (strs[k] + ['\0']);
    forall x | 0 <= x <= |strs[k]|
      ensures b[o + x] == (strs[k] + ['\0'])[x]
    {
      assert b[o + x] == b[..Pos(strs, k + 1)][o + x];
    }
  }

  lemma {:induction false} PackedLive(strs: seq<string>, n: nat)
    requires n <= |strs|
    ensures Live(PackedOffs(strs, n), strs[..n]) + 1 == Pos(strs, n)
  {
    if n > 0 {
      PackedLive(strs, n - 1);
      assert PackedOffs(strs, n)[..n - 1] == PackedOffs(strs, n - 1);
      assert strs[..n][..n - 1] == strs[..n - 1];
    } else {
      assert PackedOffs(strs, n) == [];
    }
  }

  /** Compaction never needs more room than the live strings had before. */
  lemma {:induction false} PackedFits(offs: seq<nat>, strs: seq<string>)
    requires |offs| == |strs|
    requires forall k :: 0 <= k < |offs| && offs[k] == 0 ==> strs[k] == ""
    ensures Pos(strs, |strs|) <= 1 + Live(offs, strs)
    decreases |offs|
  {
    var n := |offs|;
    if n > 0 {
      PackedFits(offs[..n - 1], strs[..n - 1]);
      PosPrefix(strs, n - 1, n - 1);
    }
  }

  lemma {:induction false} PosPrefix(strs: seq<string>, m: nat, n: nat)
    requires n <= m <= |strs|
    ensures Pos(strs[..m], n) == Pos(strs, n)
  {
    if n > 0 {
      PosPrefix(strs, m, n - 1);
    }
  }

  // ----- the layout invariant -----

  ghost predicate Apart(o: nat, s: string, o': nat, s': string) {
    o + |s| + 1 <= o' || o' + |s'| + 1 <= o
  }

  ghost predicate Disjoint(offs: seq<nat>, strs: seq<string>)
    requires |offs| == |strs|
  {
    forall i, j :: 0 <= i < |offs| && 0 <= j < |offs| && i != j && offs[i] != 0 && offs[j] != 0
      ==> Apart(offs[i], strs[i], offs[j], strs[j])
  }

  /** Slots are disjoint, lie in [1, dataSize), none starts beyond `top`, and the space is
      accounted for: garbage, the zero at offset 0 and the live strings fit in `dataSize`. */
  ghost predicate Geometry(offs: seq<nat>, strs: seq<string>, dataSize: int, garbage: int, top: int) {
    && |offs| == |strs|
    && (forall k :: 0 <= k < |offs| && offs[k] == 0 ==> strs[k] == "")
    && (forall k :: 0 <= k < |offs| && offs[k] != 0 ==> offs[k] <= top && offs[k] + |strs[k]| + 1 <= dataSize)
    && Disjoint(offs, strs)
    && 0 <= garbage && 1 <= top <= dataSize
    && garbage + 1 + Live(offs, strs) <= dataSize
    && (forall k :: 0 <= k < |offs| && offs[k] != 0 && offs[k] == top ==> garbage + Live(offs, strs) - |strs[k]| <= top)
  }

  lemma GeometryErase(offs: seq<nat>, strs: seq<string>, dataSize: int, garbage: int, top: int, i: nat)
    requires Geometry(offs, strs, dataSize, garbage, top) && i < |offs| && offs[i] != 0
    ensures Geometry(offs[i := 0], strs[i := ""], dataSize, garbage + |strs[i]| + 1, top)
  {
    LiveUpdate(offs, strs, i, 0, "");
  }

  lemma GeometryShrink(offs: seq<nat>, strs: seq<string>, dataSize: int, garbage: int, top: int, i: nat, w: string)
    requires Geometry(offs, strs, dataSize, garbage, top) && i < |offs|
    requires offs[i] != 0 && offs[i] != top && |w| <= |strs[i]|
    ensures Geometry(offs, strs[i := w], dataSize, garbage + |strs[i]| - |w|, top)
  {
    LiveUpdate(offs, strs, i, offs[i], w);
    assert offs[i := offs[i]] == offs;
  }

  /** A string that turns out shorter than the room made for it leaves uncounted garbage. */
  lemma GeometryTruncate(offs: seq<nat>, strs: seq<string>, dataSize: int, garbage: int, top: int, i: nat, w: string)
    requires Geometry(offs, strs, dataSize, garbage, top) && i < |offs| && offs[i] != 0 && |w| <= |strs[i]|
    ensures Geometry(offs, strs[i := w], dataSize, garbage, top)
  {
    LiveUpdate(offs, strs, i, offs[i], w);
    assert offs[i := offs[i]] == offs;
  }

  lemma GeometryAtTop(offs: seq<nat>, strs: seq<string>, dataSize: int, garbage: int, top: int, t: nat, w: string)
    requires Geometry(offs, strs, dataSize, garbage, top) && t < |offs| && offs[t] != 0 && offs[t] == top
    ensures Geometry(offs, strs[t := w], top + |w| + 1, garbage, top)
  {
    LiveUpdate(offs, strs, t, offs[t], w);
    assert offs[t := offs[t]] == offs;
    forall k | 0 <= k < |offs| && k != t && offs[k] != 0
      ensures offs[k] + |strs[k]| + 1 <= top
    {
      assert Apart(offs[k], strs[k], offs[t], strs[t]);
    }
  }

  lemma GeometryAppend(offs: seq<nat>, strs: seq<string>, dataSize: int, garbage: int, top: int, i: nat, w: string,
                       garbage': int)
    requires Geometry(offs, strs, dataSize, garbage, top) && i < |offs|
    requires 0 <= garbage' <= garbage + Slot(offs[i], strs[i])
    ensures Geometry(offs[i := dataSize], strs[i := w], dataSize + |w| + 1, garbage', dataSize)
  {
    LiveUpdate(offs, strs, i, dataSize, w);
  }

  lemma PackedBounds(strs: seq<string>, k: nat, n: nat)
    requires k < n <= |strs| && strs[k] != ""
    ensures Pos(strs, k) <= PackedTop(strs, n)
    ensures Pos(strs, k) + |strs[k]| + 1 <= Pos(strs, n)
    ensures Pos(strs, k) == PackedTop(strs, n) ==> k == LastNonEmpty(strs, n)
  {
    PosMonotone(strs, k, LastNonEmpty(strs, n));
    PosMonotone(strs, k, n);
  }

  lemma PackedDisjoint(strs: seq<string>, n: nat)
    requires n == |strs|
    ensures Disjoint(PackedOffs(strs, n), strs)
  {
    var offs := PackedOffs(strs, n);
    forall i, j | 0 <= i < n && 0 <= j < n && i != j && offs[i] != 0 && offs[j] != 0
      ensures Apart(offs[i], strs[i], offs[j], strs[j])
    {
      if i < j { PosMonotone(strs, i, j); } else { PosMonotone(strs, j, i); }
    }
  }

  lemma PackedTopRoom(strs: seq<string>, n: nat)
    requires n <= |strs|
    ensures 1 <= PackedTop(strs, n) <= Pos(strs, n)
    ensures var t := LastNonEmpty(strs, n); t >= 0 ==> Pos(strs, n) == PackedTop(strs, n) + |strs[t]| + 1
  {
    var t := LastNonEmpty(strs, n);
    if t >= 0 {
      PosAfterLast(strs, t, n);
    }
  }

  lemma GeometryPacked(strs: seq<string>)
    ensures Geometry(PackedOffs(strs, |strs|), strs, Pos(strs, |strs|), 0, PackedTop(strs, |strs|))
  {
    var n := |strs|;
    var offs := PackedOffs(strs, n);
    PackedLive(strs, n);
    assert strs[..n] == strs;
    PackedDisjoint(strs, n);
    PackedTopRoom(strs, n);
    forall k | 0 <= k < n && offs[k] != 0
      ensures offs[k] <= PackedTop(strs, n) && offs[k] + |strs[k]| + 1 <= Pos(strs, n)
      ensures offs[k] == PackedTop(strs, n) ==> Live(offs, strs) - |strs[k]| <= PackedTop(strs, n)
    {
      PackedBounds(strs, k, n);
    }
  }

  lemma {:induction false} PosAfterLast(strs: seq<string>, t: nat, n: nat)
    requires t < n <= |strs| && strs[t] != "" && forall k :: t < k < n ==> strs[k] == ""
    ensures Pos(strs, n) == Pos(strs, t) + |strs[t]| + 1
  {
    if t + 1 < n {
      PosAfterLast(strs, t, n - 1);
    }
  }

  // ----- contents -----

  ghost predicate ContentExcept(b: string, offs: seq<nat>, strs: seq<string>, t: int) {
    && |offs| == |strs|
    && forall k :: 0 <= k < |offs| && k != t && offs[k] != 0 ==> HasStr(b, offs[k], strs[k])
  }

  ghost predicate Content(b: string, offs: seq<nat>, strs: seq<string>) {
    && ContentExcept(b, offs, strs, -1)
    && forall k :: 0 <= k < |offs| && offs[k] == 0 ==> strs[k] == ""
  }

  /** Buffer and offsets determine the strings. */
  lemma ContentUnique(b: string, offs: seq<nat>, strs: seq<string>, strs': seq<string>)
    requires Content(b, offs, strs) && Content(b, offs, strs')
    ensures strs == strs'
  {
    hide HasStr;
    forall k | 0 <= k < |offs|
      ensures strs[k] == strs'[k]
    {
      if offs[k] != 0 {
        HasStrUnique(b, offs[k], strs[k], strs'[k]);
      }
    }
  }

  /** Writing inside the slot of string `t` leaves every other string readable. */
  lemma WriteInSlot(b: string, b': string, offs: seq<nat>, strs: seq<string>, t: int, p: nat, n: nat)
    requires |b'| == |b| && forall x :: 0 <= x < |b| && !(p <= x < p + n) ==> b'[x] == b[x]
    requires ContentExcept(b, offs, strs, t)
    requires forall k :: 0 <= k < |offs| && k != t && offs[k] != 0 ==>
      offs[k] + |strs[k]| + 1 <= p || p + n <= offs[k]
    ensures ContentExcept(b', offs, strs, t)
  {
    forall k | 0 <= k < |offs| && k != t && offs[k] != 0
      ensures HasStr(b', offs[k], strs[k])
    {
      assert HasStr(b, offs[k], strs[k]);
    }
  }

  /** After compaction all strings can be read at their packed offsets. */
  lemma PackedContent(b: string, strs: seq<string>)
    requires |b| >= Pos(strs, |strs|) && b[..Pos(strs, |strs|)] == Image(strs, |strs|)
    requires forall k :: 0 <= k < |strs| ==> '\0' !in strs[k]
    ensures Content(b, PackedOffs(strs, |strs|), strs) && |b| > 0 && b[0] == '\0'
  {
    var n := |strs|;
    ImagePrefix(strs, 0, n);
    assert b[0] == b[..Pos(strs, n)][..1][0];
    forall k | 0 <= k < n && strs[k] != ""
      ensures HasStr(b, Pos(strs, k), strs[k])
    {
      ImageHasStr(strs, k, n);
      HasStrLonger(Image(strs, n), b, Pos(strs, k), strs[k]);
    }
  }

  lemma HasStrLonger(b: string, b': string, o: nat, s: string)
    requires HasStr(b, o, s) && b <= b'
    ensures HasStr(b', o, s)
  {
  }

  // ----- growing the table of offsets -----

  function Extend(strs: seq<string>, n: nat): (r: seq<string>)
    ensures |r| == if n <= |strs| then |strs| else n
    ensures strs <= r && forall k :: |strs| <= k < |r| ==> r[k] == ""
    ensures n <= |strs| ==> r == strs
  {
    if n <= |strs| then strs else strs + seq(n - |strs|, _ => "")
  }

  lemma {:induction false} LiveExtend(offs: seq<nat>, strs: seq<string>, n: nat)
    requires |strs| == n <= |offs| && forall k :: n <= k < |offs| ==> offs[k] == 0
    ensures Live(offs, Extend(strs, |offs|)) == Live(offs[..n], strs)
    decreases |offs|
  {
    var m := |offs|;
    if m > n {
      LiveExtend(offs[..m - 1], strs, n);
      assert Extend(strs, m)[..m - 1] == Extend(strs, m - 1);
      assert offs[..m - 1][..n] == offs[..n];
    } else {
      assert offs[..n] == offs;
    }
  }

  lemma ExtendKeeps(b: string, offs: seq<nat>, strs: seq<string>, n: nat, dataSize: int, garbage: int, top: int)
    requires |strs| == n <= |offs| && forall k :: n <= k < |offs| ==> offs[k] == 0
    ensures Content(b, offs[..n], strs) ==> Content(b, offs, Extend(strs, |offs|))
    ensures Geometry(offs[..n], strs, dataSize, garbage, top) ==>
      Geometry(offs, Extend(strs, |offs|), dataSize, garbage, top)
  {
    LiveExtend(offs, strs, n);
    var strs' := Extend(strs, |offs|);
    assert forall k :: 0 <= k < n ==> offs[..n][k] == offs[k] && strs'[k] == strs[k];
    assert forall k :: 0 <= k < |offs| && offs[k] != 0 ==> k < n;
    if Geometry(offs[..n], strs, dataSize, garbage, top) {
      forall i, j | 0 <= i < |offs| && 0 <= j < |offs| && i != j && offs[i] != 0 && offs[j] != 0
        ensures Apart(offs[i], strs'[i], offs[j], strs'[j])
      {
        assert Apart(offs[..n][i], strs[i], offs[..n][j], strs[j]);
      }
    }
  }

  lemma ExtendExact(offs: seq<nat>, strs: seq<string>, n: nat, dataSize: int, garbage: int, top: int)
    requires |strs| == n <= |offs| && forall k :: n <= k < |offs| ==> offs[k] == 0
    requires Exact(offs[..n], strs, dataSize, garbage, top)
    ensures Exact(offs, Extend(strs, |offs|), dataSize, garbage, top)
  {
    LiveExtend(offs, strs, n);
    assert forall k :: 0 <= k < n ==> offs[..n][k] == offs[k];
  }

  // ----- which string an allocation makes room for -----

  function Put(strs: seq<string>, t: int, s: string): (r: seq<string>)
    ensures |r| == |strs|
  {
    if 0 <= t < |strs| then strs[t := s] else strs
  }

  /** The string whose place `Allocate(i, len)` hands out.  When the string stored last has to grow
      past the end of the buffer, the buffer is packed in index order and the place handed out is
      that of the last nonempty string by index, whichever string that is. */
  function Target(offs: seq<nat>, strs: seq<string>, top: int, bufferSize: int, i: nat, len: nat): int
    requires i < |offs| == |strs|
  {
    if offs[i] != 0 && offs[i] == top && top + len + 1 > bufferSize then LastNonEmpty(strs, |strs|) else i
  }

  /** A caller can tell in advance: the right place is handed out unless the last-stored string must
      outgrow the buffer while it is empty or some higher index holds a nonempty string. */
  lemma TargetIsSelf(offs: seq<nat>, strs: seq<string>, top: int, bufferSize: int, i: nat, len: nat)
    requires i < |offs| == |strs|
    ensures Target(offs, strs, top, bufferSize, i, len) == i <==>
      (offs[i] != 0 && offs[i] == top && top + len + 1 > bufferSize ==>
        strs[i] != "" && forall j :: i < j < |strs| ==> strs[j] == "")
  {
  }

  lemma PackedTarget(strs: seq<string>)
    ensures var n, t := |strs|, LastNonEmpty(strs, |strs|);
      if t >= 0 then PackedOffs(strs, n)[t] == PackedTop(strs, n) >= 1
      else PackedTop(strs, n) == 1 && Pos(strs, n) == 1 && forall k :: 0 <= k < n ==> PackedOffs(strs, n)[k] == 0
  {
    var n, t := |strs|, LastNonEmpty(strs, |strs|);
    if t < 0 {
      EmptyPacked(strs, n);
      forall k | 0 <= k < n
        ensures PackedOffs(strs, n)[k] == 0
      {
      }
    }
  }

  lemma {:induction false} EmptyPacked(strs: seq<string>, n: nat)
    requires n <= |strs| && forall k :: 0 <= k < n ==> strs[k] == ""
    ensures PackedOffs(strs, n) == seq(n, _ => 0)
    ensures Pos(strs, n) == 1 && Image(strs, n) == ['\0'] && PackedTop(strs, n) == 1
  {
    if n > 0 {
      EmptyPacked(strs, n - 1);
    }
  }

  /** Packing moves the string at `top` down, so the room asked for at its old place is enough. */
  lemma PackedTopFits(offs: seq<nat>, strs: seq<string>, dataSize: int, garbage: int, top: int, i: nat)
    requires Geometry(offs, strs, dataSize, garbage, top) && i < |offs| && offs[i] != 0 && offs[i] == top
    requires LastNonEmpty(strs, |strs|) == i
    ensures PackedTop(strs, |strs|) <= top
  {
    PackedFits(offs, strs);
    PackedTopRoom(strs, |strs|);
  }

  lemma PackedSlot(strs: seq<string>, i: nat)
    requires i < |strs|
    ensures Slot(PackedOffs(strs, |strs|)[i], strs[i]) == if strs[i] == "" then 0 else |strs[i]| + 1
    ensures 1 <= Pos(strs, |strs|)
  {
  }

  lemma GeometryAt(offs: seq<nat>, strs: seq<string>, dataSize: int, garbage: int, top: int, i: nat)
    requires Geometry(offs, strs, dataSize, garbage, top) && i < |offs| && offs[i] != 0
    ensures |offs| == |strs| && 1 <= top <= dataSize && 0 <= garbage
    ensures offs[i] + |strs[i]| + 1 <= dataSize
  {
  }

  // ----- a place handed out, not yet written -----

  /** Everything is in order except the characters of string `t`, which go to `p`. */
  ghost predicate Hole(b: string, offs: seq<nat>, strs: seq<string>, dataSize: int, garbage: int, top: int,
                       t: int, p: nat, len: nat) {
    && ContentExcept(b, offs, strs, t)
    && Geometry(offs, strs, dataSize, garbage, top)
    && 1 <= p && p + len + 1 <= dataSize
    && (if t >= 0 then t < |offs| && offs[t] == p && |strs[t]| == len else forall k :: 0 <= k < |offs| ==> offs[k] == 0)
  }

  lemma HoleAtTop(b: string, offs: seq<nat>, strs: seq<string>, dataSize: int, garbage: int, top: int, t: int,
                  w: string)
    requires Geometry(offs, strs, dataSize, garbage, top) && Content(b, offs, strs) && t < |offs|
    requires if t >= 0 then offs[t] == top else garbage == 0 && top == 1 && forall k :: 0 <= k < |offs| ==> offs[k] == 0
    ensures Hole(b, offs, Put(strs, t, w), top + |w| + 1, garbage, top, t, top, |w|)
  {
    if t >= 0 {
      GeometryAtTop(offs, strs, dataSize, garbage, top, t, w);
    } else {
      LiveZero(offs, strs);
    }
  }

  lemma HoleShrink(b: string, offs: seq<nat>, strs: seq<string>, dataSize: int, garbage: int, top: int, i: nat,
                   w: string)
    requires Geometry(offs, strs, dataSize, garbage, top) && Content(b, offs, strs)
    requires i < |offs| && offs[i] != 0 && offs[i] != top && |w| <= |strs[i]|
    ensures Hole(b, offs, Put(strs, i, w), dataSize, garbage + |strs[i]| - |w|, top, i, offs[i], |w|)
  {
    GeometryShrink(offs, strs, dataSize, garbage, top, i, w);
  }

  lemma HoleAppend(b: string, offs: seq<nat>, strs: seq<string>, dataSize: int, garbage: int, top: int, i: nat,
                   w: string, garbage': int)
    requires Geometry(offs, strs, dataSize, garbage, top) && Content(b, offs, strs) && i < |offs|
    requires 0 <= garbage' <= garbage + Slot(offs[i], strs[i])
    ensures Hole(b, offs[i := dataSize], Put(strs, i, w), dataSize + |w| + 1, garbage', dataSize, i, dataSize, |w|)
  {
    GeometryAppend(offs, strs, dataSize, garbage, top, i, w, garbage');
  }

  /** No byte below `dataSize` is unaccounted for. */
  ghost predicate Exact(offs: seq<nat>, strs: seq<string>, dataSize: int, garbage: int, top: int) {
    && |offs| == |strs|
    && garbage + 1 + Live(offs, strs) == dataSize
    && (forall k :: 0 <= k < |offs| && offs[k] != 0 && offs[k] == top ==> dataSize == top + |strs[k]| + 1)
  }

  lemma ExactPacked(strs: seq<string>)
    ensures Exact(PackedOffs(strs, |strs|), strs, Pos(strs, |strs|), 0, PackedTop(strs, |strs|))
  {
    var n := |strs|;
    PackedLive(strs, n);
    assert strs[..n] == strs;
    PackedTopRoom(strs, n);
    forall k | 0 <= k < n && strs[k] != "" && Pos(strs, k) == PackedTop(strs, n)
      ensures k == LastNonEmpty(strs, n)
    {
      PackedBounds(strs, k, n);
    }
  }

  lemma ExactAtTop(offs: seq<nat>, strs: seq<string>, dataSize: int, garbage: int, top: int, t: nat, w: string)
    requires Geometry(offs, strs, dataSize, garbage, top) && t < |offs| && offs[t] != 0 && offs[t] == top
    requires Exact(offs, strs, dataSize, garbage, top)
    ensures Exact(offs, Put(strs, t, w), top + |w| + 1, garbage, top)
  {
    LiveUpdate(offs, strs, t, offs[t], w);
    assert offs[t := offs[t]] == offs;
    forall k | 0 <= k < |offs| && k != t && offs[k] != 0
      ensures offs[k] != top
    {
      assert Apart(offs[k], strs[k], offs[t], strs[t]);
    }
  }

  lemma ExactErase(offs: seq<nat>, strs: seq<string>, dataSize: int, garbage: int, top: int, i: nat)
    requires Exact(offs, strs, dataSize, garbage, top) && i < |offs| && offs[i] != 0
    ensures Exact(offs[i := 0], strs[i := ""], dataSize, garbage + |strs[i]| + 1, top)
  {
    LiveUpdate(offs, strs, i, 0, "");
  }

  lemma ExactShrink(offs: seq<nat>, strs: seq<string>, dataSize: int, garbage: int, top: int, i: nat, w: string)
    requires Exact(offs, strs, dataSize, garbage, top) && i < |offs| && offs[i] != 0 && offs[i] != top
    ensures Exact(offs, Put(strs, i, w), dataSize, garbage + |strs[i]| - |w|, top)
  {
    LiveUpdate(offs, strs, i, offs[i], w);
    assert offs[i := offs[i]] == offs;
  }

  lemma ExactAppend(offs: seq<nat>, strs: seq<string>, dataSize: int, garbage: int, top: int, i: nat, w: string)
    requires Geometry(offs, strs, dataSize, garbage, top) && Exact(offs, strs, dataSize, garbage, top) && i < |offs|
    ensures Exact(offs[i := dataSize], Put(strs, i, w), dataSize + |w| + 1, garbage + Slot(offs[i], strs[i]), dataSize)
  {
    LiveUpdate(offs, strs, i, dataSize, w);
  }

  /** Filling the hole with a string that fits makes everything right again. */
  lemma HoleFilled(b: string, b': string, offs: seq<nat>, strs: seq<string>, dataSize: int, garbage: int, top: int,
                   t: int, p: nat, len: nat, s: string)
    requires Hole(b, offs, strs, dataSize, garbage, top, t, p, len)
    requires |b'| == |b| && p + len + 1 <= |b| && forall x :: 0 <= x < |b| && !(p <= x < p + len + 1) ==> b'[x] == b[x]
    requires HasStr(b', p, s) && |s| <= len
    ensures Content(b', offs, Put(strs, t, s)) && Geometry(offs, Put(strs, t, s), dataSize, garbage, top)
    ensures b'[0] == b[0]
  {
    forall k | 0 <= k < |offs| && k != t && offs[k] != 0
      ensures offs[k] + |strs[k]| + 1 <= p || p + len + 1 <= offs[k]
    {
      assert Apart(offs[k], strs[k], offs[t], strs[t]);
    }
    WriteInSlot(b, b', offs, strs, t, p, len + 1);
    if t >= 0 {
      GeometryTruncate(offs, strs, dataSize, garbage, top, t, s);
    }
  }
}
