/** The parser for textual lists of cpus such as "2,4-127,128-143".  A signed overflow, which C leaves
    undefined, is an outcome of its own. */
module CpuListText {
  import opened Wrappers

  const INT_MAX := 0x7FFF_FFFF

  // ----- digits and numbers -----

  /** The digit a character stands for, letters a to f and A to F included. */
  function DigitOf(c: char): (d: Option<nat>)
    ensures d.Some? ==> d.value < 16
  {
    if '0' <= c <= '9' then Some((c - '0') as nat)
    else if 'a' <= c <= 'f' then Some(10 + (c - 'a') as nat)
    else if 'A' <= c <= 'F' then Some(10 + (c - 'A') as nat)
    else None
  }

  /** The characters that are digits, in both cases, and no others. */
  lemma DigitOfIs(c: char)
    ensures forall d :: 0 <= d < 16 && (c == "0123456789abcdef"[d] || c == "0123456789ABCDEF"[d]) ==>
      DigitOf(c) == Some(d)
    ensures DigitOf(c).Some? ==>
      c == "0123456789abcdef"[DigitOf(c).value] || c == "0123456789ABCDEF"[DigitOf(c).value]
  {
  }

  predicate IsDigit(c: char, base: nat) {
    DigitOf(c).Some? && DigitOf(c).value < base
  }

  /** Length of the longest prefix of digits. */
  function Run(t: string, base: nat): (n: nat)
    ensures n <= |t| && forall k :: 0 <= k < n ==> IsDigit(t[k], base)
    ensures n < |t| ==> !IsDigit(t[n], base)
  {
    if t == "" || !IsDigit(t[0], base) then 0 else 1 + Run(t[1..], base)
  }

  /** One more digit behind a number. */
  function Extend(v: nat, base: nat, c: char): nat {
    v * base + if DigitOf(c).Some? then DigitOf(c).value else 0
  }

  function Value(t: string, base: nat): nat {
    if t == "" then 0 else Extend(Value(t[..|t| - 1], base), base, t[|t| - 1])
  }

  lemma ExtendGrows(v: nat, base: nat, c: char)
    requires base >= 1
    ensures v <= Extend(v, base, c)
  {
    assert v * (base - 1) >= 0;
  }

  lemma {:induction false} ValueMonotone(t: string, base: nat, i: nat)
    requires i <= |t| && base >= 1
    ensures Value(t[..i], base) <= Value(t, base)
    decreases |t|
  {
    hide Extend;
    if i < |t| {
      var n := |t| - 1;
      ValueMonotone(t[..n], base, i);
      assert t[..n][..i] == t[..i];
      ExtendGrows(Value(t[..n], base), base, t[n]);
    } else {
      assert t[..i] == t;
    }
  }

  datatype Parsed = NoNumber | Overflow | Number(value: nat, length: nat)

  /** What parsing a number at the start of `t` comes to. */
  function NumberAt(t: string, base: nat): Parsed {
    var n := Run(t, base);
    if n == 0 then NoNumber
    else if Value(t[..n], base) > INT_MAX then Overflow
    else Number(Value(t[..n], base), n)
  }

  // ----- items and lists -----

  datatype Outcome = Done | BadFormat | Undefined

  datatype Bounds = Bad | Undef | Bounds(first: nat, last: nat)

  /** One item: a number or a range; whatever follows the number is ignored. */
  function ItemAt(t: string): Bounds {
    match NumberAt(t, 10)
    case NoNumber => Bad
    case Overflow => Undef
    case Number(first, n) =>
      if n < |t| && t[n] == '-' then
        match NumberAt(t[n + 1..], 10)
        case NoNumber => Bad
        case Overflow => Undef
        case Number(last, _) => Bounds(first, last)
      else Bounds(first, first)
  }

  function FindComma(t: string): (q: nat)
    ensures q <= |t| && (q < |t| ==> t[q] == ',')
    ensures forall k :: 0 <= k < q ==> t[k] != ','
  {
    if t == "" || t[0] == ',' then 0 else 1 + FindComma(t[1..])
  }

  /** The cpus the mask has room for, of a range. */
  function Covered(first: int, last: int): set<int> {
    set v | 0 <= v < 32 && InRange(v, first, last)
  }

  predicate InRange(v: int, first: int, last: int) { first <= v <= last }

  /** What the parser makes of `t`, starting from the cpus in `s`. */
  function ListAt(t: string, s: set<int>): (Outcome, set<int>)
    decreases |t|
  {
    if t == "" || t[0] == '\n' then (Done, s) else
      var q := FindComma(t);
      match ItemAt(t[..q])
      case Bad => (BadFormat, s)
      case Undef => (Undefined, s)
      case Bounds(first, last) =>
        if first <= last && last == INT_MAX then (Undefined, s)
        else ListAt(if q < |t| then t[q + 1..] else "", s + Covered(first, last))
  }

  /** One item and what the parser does after it. */
  lemma ListUnfolds(t: string, s: set<int>, q: nat)
    requires t != "" && t[0] != '\n' && q == FindComma(t)
    ensures match ItemAt(t[..q])
      case Bad => ListAt(t, s) == (BadFormat, s)
      case Undef => ListAt(t, s) == (Undefined, s)
      case Bounds(first, last) =>
        ListAt(t, s) == if first <= last && last == INT_MAX then (Undefined, s)
                        else ListAt(if q < |t| then t[q + 1..] else "", s + Covered(first, last))
  {
  }

  lemma ListEnds(t: string, s: set<int>)
    requires t == "" || t[0] == '\n'
    ensures ListAt(t, s) == (Done, s)
  {
  }

  // ----- printing -----

  datatype Item = Single(cpu: nat) | Range(lo: nat, hi: nat)

  function DigitChar(d: nat): char
    requires d < 10
  {
    '0' + d as char
  }

  function Decimal(n: nat): string {
    if n < 10 then [DigitChar(n)] else Decimal(n / 10) + [DigitChar(n % 10)]
  }

  function PrintItem(i: Item): string {
    match i
    case Single(n) => Decimal(n)
    case Range(lo, hi) => Decimal(lo) + "-" + Decimal(hi)
  }

  function PrintList(items: seq<Item>): string {
    if items == [] then ""
    else if |items| == 1 then PrintItem(items[0])
    else PrintItem(items[0]) + "," + PrintList(items[1..])
  }

  function First(i: Item): nat { if i.Single? then i.cpu else i.lo }

  function Last(i: Item): nat { if i.Single? then i.cpu else i.hi }

  /** The numbers fit in an int, and so does the count past the last of a range that is not empty. */
  predicate Fits(i: Item) {
    First(i) <= INT_MAX && Last(i) <= INT_MAX && !(First(i) <= Last(i) && Last(i) == INT_MAX)
  }

  function CoveredBy(items: seq<Item>): set<int> {
    if items == [] then {} else Covered(First(items[0]), Last(items[0])) + CoveredBy(items[1..])
  }

  // ----- reading what was printed -----

  /** Numbers fit into an int, and the counter of a range that is not empty does not run past the largest. */
  lemma FitsIs(i: Item)
    ensures Fits(i) <==> First(i) < 2147483648 && Last(i) < 2147483648 && (Last(i) == 2147483647 ==> First(i) > Last(i))
  {
  }

  /** The list in the comment of the parser. */
  lemma PrintExample()
    ensures PrintList([Single(2), Range(4, 127), Range(128, 143)]) == "2,4-127,128-143"
  {
    Decimals();
    var i, j, k := Single(2), Range(4, 127), Range(128, 143);
    assert [i, j, k][1..] == [j, k] && [j, k][1..] == [k];
    assert PrintList([k]) == "128-143" && PrintList([j, k]) == "4-127" + "," + "128-143";
  }

  lemma Decimals()
    ensures Decimal(2) == "2" && Decimal(4) == "4" && Decimal(127) == "127"
    ensures Decimal(128) == "128" && Decimal(143) == "143"
  {
    assert Decimal(12) == Decimal(1) + [DigitChar(2)] && Decimal(14) == Decimal(1) + [DigitChar(4)];
    assert Decimal(127) == Decimal(12) + [DigitChar(7)] && Decimal(128) == Decimal(12) + [DigitChar(8)];
    assert Decimal(143) == Decimal(14) + [DigitChar(3)];
  }

  ghost predicate Digits(t: string) {
    forall k :: 0 <= k < |t| ==> '0' <= t[k] <= '9'
  }

  lemma DigitOfChar(d: nat)
    requires d < 10
    ensures IsDigit(DigitChar(d), 10) && DigitOf(DigitChar(d)) == Some(d) && '0' <= DigitChar(d) <= '9'
  {
  }

  lemma {:induction false} DecimalReads(n: nat)
    ensures Digits(Decimal(n)) && |Decimal(n)| > 0
    ensures (forall k :: 0 <= k < |Decimal(n)| ==> IsDigit(Decimal(n)[k], 10)) && Value(Decimal(n), 10) == n
  {
    var t := Decimal(n);
    if n < 10 {
      DigitOfChar(n);
      assert t[..0] == "";
    } else {
      DecimalReads(n / 10);
      DigitOfChar(n % 10);
      assert t[..|t| - 1] == Decimal(n / 10);
    }
  }

  lemma {:induction false} RunStops(d: string, x: string)
    requires Digits(d) && (x == "" || !IsDigit(x[0], 10))
    ensures Run(d + x, 10) == |d|
  {
    if d != "" {
      assert (d + x)[1..] == d[1..] + x;
      RunStops(d[1..], x);
    } else {
      assert d + x == x;
    }
  }

  lemma NumberReads(n: nat, x: string)
    requires x == "" || !IsDigit(x[0], 10)
    ensures NumberAt(Decimal(n) + x, 10) == if n > INT_MAX then Overflow else Number(n, |Decimal(n)|)
  {
    DecimalReads(n);
    RunStops(Decimal(n), x);
    assert (Decimal(n) + x)[..|Decimal(n)|] == Decimal(n);
  }

  /** Items may be followed by the end of the text or by a newline. */
  ghost predicate Tail(u: string) { u == "" || u == "\n" }

  lemma ItemReads(i: Item, u: string)
    requires Tail(u)
    ensures ItemAt(PrintItem(i) + u) ==
      if First(i) > INT_MAX || Last(i) > INT_MAX then Undef else Bounds(First(i), Last(i))
  {
    hide NumberAt, Decimal;
    match i
    case Single(n) =>
      NumberReads(n, u);
    case Range(lo, hi) =>
      var x := "-" + Decimal(hi) + u;
      assert PrintItem(i) + u == Decimal(lo) + x;
      NumberReads(lo, x);
      assert (Decimal(lo) + x)[|Decimal(lo)| + 1..] == Decimal(hi) + u;
      NumberReads(hi, u);
  }

  lemma ItemText(i: Item)
    ensures |PrintItem(i)| > 0 && PrintItem(i)[0] != '\n'
    ensures forall k :: 0 <= k < |PrintItem(i)| ==> PrintItem(i)[k] != ','
  {
    DecimalReads(First(i));
    DecimalReads(Last(i));
  }

  lemma {:induction false} CommaFound(a: string, b: string)
    requires forall k :: 0 <= k < |a| ==> a[k] != ','
    ensures FindComma(a + b) == |a| + FindComma(b)
  {
    if a != "" {
      assert (a + b)[1..] == a[1..] + b;
      CommaFound(a[1..], b);
    } else {
      assert a + b == b;
    }
  }

  /** An item with a comma and more behind it: the parser takes the item and goes on behind the comma. */
  lemma ListStep(i: Item, more: string, s: set<int>)
    ensures ListAt(PrintItem(i) + ("," + more), s) ==
      if Fits(i) then ListAt(more, s + Covered(First(i), Last(i))) else (Undefined, s)
  {
    var head := PrintItem(i);
    var t := head + ("," + more);
    ItemText(i);
    CommaFound(head, "," + more);
    assert t[..|head|] == head + "" && t[|head| + 1..] == more;
    ItemReads(i, "");
    assert t[0] == head[0];
    hide PrintItem, ItemAt, Covered, ListAt, FindComma, First, Last;
    ListUnfolds(t, s, |head|);
  }

  /** The last item. */
  lemma ListEnd(i: Item, u: string, s: set<int>)
    requires Tail(u)
    ensures ListAt(PrintItem(i) + u, s) == if Fits(i) then (Done, s + Covered(First(i), Last(i))) else (Undefined, s)
  {
    var head := PrintItem(i);
    var t := head + u;
    ItemText(i);
    CommaFound(head, u);
    assert t[..|t|] == t && FindComma(u) == |u|;
    ItemReads(i, u);
    assert t[0] == head[0];
    hide PrintItem, ItemAt, Covered, ListAt, FindComma, First, Last;
    ListUnfolds(t, s, |t|);
    ListEnds("", s + Covered(First(i), Last(i)));
  }

  ghost predicate AllFit(items: seq<Item>) {
    forall k :: 0 <= k < |items| ==> Fits(items[k])
  }

  lemma AllFitFrom(items: seq<Item>)
    requires items != []
    ensures AllFit(items) <==> Fits(items[0]) && AllFit(items[1..])
  {
    assert forall k :: 1 <= k < |items| ==> items[k] == items[1..][k - 1];
  }

  lemma CoveredByStep(items: seq<Item>, s: set<int>)
    requires items != []
    ensures (s + Covered(First(items[0]), Last(items[0]))) + CoveredBy(items[1..]) == s + CoveredBy(items)
  {
  }

  lemma PrintStep(items: seq<Item>, u: string)
    requires items != []
    ensures |items| == 1 ==> PrintList(items) + u == PrintItem(items[0]) + u
    ensures |items| > 1 ==> PrintList(items) + u == PrintItem(items[0]) + ("," + (PrintList(items[1..]) + u))
  {
    hide PrintItem, PrintList;
    PrintFirst(items);
    if |items| > 1 {
      Joined(PrintItem(items[0]), PrintList(items[1..]), u);
    }
  }

  lemma PrintFirst(items: seq<Item>)
    requires items != []
    ensures |items| == 1 ==> PrintList(items) == PrintItem(items[0])
    ensures |items| > 1 ==> PrintList(items) == PrintItem(items[0]) + "," + PrintList(items[1..])
  {
    hide PrintItem;
  }

  lemma Joined(a: string, b: string, u: string)
    ensures (a + "," + b) + u == a + ("," + (b + u))
  {
  }

  /** Parsing undoes printing: the mask covers what the items cover, exactly when all items fit. */
  lemma {:induction false} ParseUndoesPrint(items: seq<Item>, u: string, s: set<int>)
    requires Tail(u)
    ensures var (o, r) := ListAt(PrintList(items) + u, s);
      if AllFit(items) then o == Done && r == s + CoveredBy(items) else o == Undefined
    decreases |items|
  {
    if items == [] {
      assert PrintList(items) + u == u;
      assert AllFit(items) && s + CoveredBy(items) == s;
    } else {
      var i, rest := items[0], items[1..];
      AllFitFrom(items);
      CoveredByStep(items, s);
      PrintStep(items, u);
      assert rest == [] ==> AllFit(rest) && CoveredBy(rest) == {};
      hide ListAt, PrintItem, Covered, Fits, AllFit, PrintList, CoveredBy;
      if rest == [] {
        ListEnd(i, u, s);
      } else {
        ListStep(i, PrintList(rest) + u, s);
        ParseUndoesPrint(rest, u, s + Covered(First(i), Last(i)));
      }
    }
  }

  /** Whatever stands behind the comma after a printed list, the cpus of the list are kept: a badly
      formatted rest does not undo them. */
  lemma {:induction false} ListContinues(items: seq<Item>, more: string, s: set<int>)
    requires items != [] && AllFit(items)
    ensures ListAt(PrintList(items) + ("," + more), s) == ListAt(more, s + CoveredBy(items))
    decreases |items|
  {
    var i, rest := items[0], items[1..];
    AllFitFrom(items);
    CoveredByStep(items, s);
    PrintStep(items, "," + more);
    assert rest == [] ==> CoveredBy(rest) == {};
    hide ListAt, PrintItem, Covered, Fits, AllFit, PrintList, CoveredBy;
    if rest == [] {
      var s1 := s + Covered(First(i), Last(i));
      assert s1 + {} == s1;
      ListStep(i, more, s);
    } else {
      ListStep(i, PrintList(rest) + ("," + more), s);
      ListContinues(rest, more, s + Covered(First(i), Last(i)));
    }
  }

  lemma {:induction false} CoveredByIs(items: seq<Item>, v: int)
    ensures v in CoveredBy(items) <==>
      0 <= v < 32 && exists k :: 0 <= k < |items| && First(items[k]) <= v <= Last(items[k])
  {
    if items != [] {
      CoveredByIs(items[1..], v);
      assert forall k :: 0 <= k < |items| - 1 ==> items[1..][k] == items[k + 1];
      if 0 <= v < 32 && exists k :: 0 <= k < |items| && First(items[k]) <= v <= Last(items[k]) {
        var k :| 0 <= k < |items| && First(items[k]) <= v <= Last(items[k]);
        assert k == 0 || items[1..][k - 1] == items[k];
      }
    }
  }
}

module CpuList {
  import opened CpuListText
  import Bits

  // ----- the mask -----

  function Shl1(a: bv32): bv32 { a << 1 }

  /** `1U << v` */
  function Bit(v: nat): bv32 {
    if v == 0 then 1 else Shl1(Bit(v - 1))
  }

  function Or(a: bv32, b: bv32): bv32 { a | b }

  function And(a: bv32, b: bv32): bv32 { a & b }

  predicate Meets(a: bv32, b: bv32) { And(a, b) != 0 }

  lemma OrKeeps(a: bv32, b: bv32, c: bv32)
    requires And(b, c) == 0
    ensures And(Or(a, b), c) == And(a, c)
  {
  }

  lemma OrSets(a: bv32, c: bv32)
    ensures And(Or(a, c), c) == c
  {
  }

  lemma ShiftsApart(a: bv32, b: bv32)
    requires And(a, b) == 0
    ensures And(Shl1(a), Shl1(b)) == 0 && And(Shl1(b), Shl1(a)) == 0
  {
  }

  lemma OneApart(a: bv32)
    ensures And(1, Shl1(a)) == 0 && And(Shl1(a), 1) == 0
  {
  }

  lemma {:induction false} BitsApart(v: nat, w: nat)
    requires v < w
    ensures And(Bit(v), Bit(w)) == 0 && And(Bit(w), Bit(v)) == 0
  {
    hide And, Shl1;
    if v > 0 {
      BitsApart(v - 1, w - 1);
      ShiftsApart(Bit(v - 1), Bit(w - 1));
    } else {
      OneApart(Bit(w - 1));
    }
  }

  function Shl4(a: bv32): bv32 { a << 4 }

  lemma FourShifts(a: bv32)
    ensures Shl4(a) == Shl1(Shl1(Shl1(Shl1(a))))
  {
  }

  lemma FourOn(v: nat)
    ensures Bit(v + 4) == Shl4(Bit(v))
  {
    hide Shl1, Shl4;
    FourShifts(Bit(v));
    assert Bit(v + 1) == Shl1(Bit(v)) && Bit(v + 2) == Shl1(Bit(v + 1)) && Bit(v + 3) == Shl1(Bit(v + 2));
  }

  lemma TopBit()
    ensures Bit(31) != 0
  {
    FourOn(0);
    FourOn(4);
    FourOn(8);
    FourOn(12);
    FourOn(16);
    FourOn(20);
    FourOn(24);
    assert Bit(28) == 0x1000_0000;
    assert Bit(29) == 0x2000_0000;
    assert Bit(30) == 0x4000_0000;
  }

  lemma {:induction false} ZeroStays(v: nat, w: nat)
    requires v <= w && Bit(v) == 0
    ensures Bit(w) == 0
    decreases w
  {
    if v < w {
      ZeroStays(v, w - 1);
    }
  }

  lemma BitNotZero(v: nat)
    requires v < 32
    ensures Bit(v) != 0
  {
    TopBit();
    hide Bit;
    if Bit(v) == 0 {
      ZeroStays(v, 31);
    }
  }

  lemma Next(v: nat, w: bv32, w': bv32, n: nat)
    requires v > 0 && Bit(v - 1) == w && Bits.Pow2(v - 1) == n && Shl1(w) == w' && w' as int == 2 * n
    ensures Bit(v) == w' && Bits.Pow2(v) == 2 * n && Bit(v) as int == Bits.Pow2(v)
  {
  }

  lemma BitValues0()
    ensures forall v :: 0 <= v < 8 ==> Bit(v) as int == Bits.Pow2(v)
    ensures Bit(7) == 0x80 && Bits.Pow2(7) == 0x80
  {
    assert Bit(0) == 1 && Bits.Pow2(0) == 1;
    Next(1, 0x1, 0x2, 0x1);
    Next(2, 0x2, 0x4, 0x2);
    Next(3, 0x4, 0x8, 0x4);
    Next(4, 0x8, 0x10, 0x8);
    Next(5, 0x10, 0x20, 0x10);
    Next(6, 0x20, 0x40, 0x20);
    Next(7, 0x40, 0x80, 0x40);
  }

  lemma BitValues8()
    requires Bit(7) == 0x80 && Bits.Pow2(7) == 0x80
    ensures forall v :: 8 <= v < 16 ==> Bit(v) as int == Bits.Pow2(v)
    ensures Bit(15) == 0x8000 && Bits.Pow2(15) == 0x8000
  {
    hide Bit, Bits.Pow2;
    Next(8, 0x80, 0x100, 0x80);
    Next(9, 0x100, 0x200, 0x100);
    Next(10, 0x200, 0x400, 0x200);
    Next(11, 0x400, 0x800, 0x400);
    Next(12, 0x800, 0x1000, 0x800);
    Next(13, 0x1000, 0x2000, 0x1000);
    Next(14, 0x2000, 0x4000, 0x2000);
    Next(15, 0x4000, 0x8000, 0x4000);
  }

  lemma BitValues16()
    requires Bit(15) == 0x8000 && Bits.Pow2(15) == 0x8000
    ensures forall v :: 16 <= v < 24 ==> Bit(v) as int == Bits.Pow2(v)
    ensures Bit(23) == 0x80_0000 && Bits.Pow2(23) == 0x80_0000
  {
    hide Bit, Bits.Pow2;
    Next(16, 0x8000, 0x1_0000, 0x8000);
    Next(17, 0x1_0000, 0x2_0000, 0x1_0000);
    Next(18, 0x2_0000, 0x4_0000, 0x2_0000);
    Next(19, 0x4_0000, 0x8_0000, 0x4_0000);
    Next(20, 0x8_0000, 0x10_0000, 0x8_0000);
    Next(21, 0x10_0000, 0x20_0000, 0x10_0000);
    Next(22, 0x20_0000, 0x40_0000, 0x20_0000);
    Next(23, 0x40_0000, 0x80_0000, 0x40_0000);
  }

  lemma BitValues24()
    requires Bit(23) == 0x80_0000 && Bits.Pow2(23) == 0x80_0000
    ensures forall v :: 24 <= v < 32 ==> Bit(v) as int == Bits.Pow2(v)
    ensures Bit(31) == 0x8000_0000 && Bits.Pow2(31) == 0x8000_0000
  {
    hide Bit, Bits.Pow2;
    Next(24, 0x80_0000, 0x100_0000, 0x80_0000);
    Next(25, 0x100_0000, 0x200_0000, 0x100_0000);
    Next(26, 0x200_0000, 0x400_0000, 0x200_0000);
    Next(27, 0x400_0000, 0x800_0000, 0x400_0000);
    Next(28, 0x800_0000, 0x1000_0000, 0x800_0000);
    Next(29, 0x1000_0000, 0x2000_0000, 0x1000_0000);
    Next(30, 0x2000_0000, 0x4000_0000, 0x2000_0000);
    Next(31, 0x4000_0000, 0x8000_0000, 0x4000_0000);
  }

  /** Every bit has the value of its power of two. */
  lemma BitValues(v: nat)
    requires v < 32
    ensures Bit(v) as int == Bits.Pow2(v)
  {
    hide Bit, Bits.Pow2;
    BitValues0();
    BitValues8();
    BitValues16();
    BitValues24();
  }

  ghost predicate Represents(mask: bv32, s: set<int>) {
    forall v :: 0 <= v < 32 ==> (Meets(mask, Bit(v)) <==> v in s)
  }

  lemma SetBit(mask: bv32, s: set<int>, index: nat)
    requires index < 32 && Represents(mask, s)
    ensures Represents(Or(mask, Bit(index)), s + {index})
  {
    hide And, Or, Bit;
    forall v | 0 <= v < 32
      ensures Meets(Or(mask, Bit(index)), Bit(v)) <==> v in s + {index}
    {
      if v == index {
        OrSets(mask, Bit(v));
        BitNotZero(v);
      } else {
        if v < index {
          BitsApart(v, index);
        } else {
          BitsApart(index, v);
        }
        OrKeeps(mask, Bit(index), Bit(v));
      }
    }
  }

  lemma EmptyMask()
    ensures Represents(0, {})
  {
    forall v | 0 <= v < 32
      ensures !Meets(0, Bit(v))
    {
      ZeroMeets(Bit(v));
    }
  }

  lemma ZeroMeets(a: bv32)
    ensures And(0, a) == 0
  {
  }

  class List {
    var mask: bv32

    constructor ()
      ensures mask == 0 && Represents(mask, {})
    {
      mask := 0;
      EmptyMask();
    }

    method Set(index: int, ghost s: set<int>)
      requires Represents(mask, s)
      modifies this
      ensures Represents(mask, if 0 <= index < 32 then s + {index} else s)
    {
      hide Represents, Or, Bit;
      if 0 <= index < 32 {
        SetBit(mask, s, index);
        mask := Or(mask, Bit(index));
      }
    }
  }

  // ----- the parser -----

  /** Parses digits from `input` on, not further than `limit`. */
  method ParseNumber(line: string, input: nat, limit: nat, base: nat) returns (r: Parsed)
    requires input <= limit <= |line| && 1 <= base <= 16
    ensures r == NumberAt(line[input..limit], base)
  {
    hide Extend, Run, Value, NumberAt, IsDigit;
    ghost var t := line[input..limit];
    assert t[0..] == t;
    ValueStep(t, base, 0);
    var p := input;
    var val := 0;
    while p < limit
      invariant input <= p <= limit && val <= INT_MAX
      invariant Run(t, base) == (p - input) + Run(t[p - input..], base)
      invariant val == Value(t[..p - input], base)
    {
      ghost var i := p - input;
      assert t[i] == line[p];
      RunStep(t, base, i);
      ValueStep(t, base, i);
      if !DigitOf(line[p]).Some? {
        break;
      }
      var d := DigitOf(line[p]).value;
      if d >= base {
        break;
      }
      ExtendIs(val, base, line[p]);
      val := val * base + d;
      if val > INT_MAX {
        ghost var n := Run(t, base);
        ValueMonotone(t[..n], base, i + 1);
        assert t[..n][..i + 1] == t[..i + 1];
        NumberIs(t, base);
        return Overflow;
      }
      p := p + 1;
    }
    if p == limit {
      RunStep(t, base, |t|);
    }
    NumberIs(t, base);
    if p == input {
      return NoNumber;
    }
    return Number(val, p - input);
  }

  lemma RunStep(t: string, base: nat, i: nat)
    requires i <= |t|
    ensures i == |t| ==> Run(t[i..], base) == 0
    ensures i < |t| ==> (Run(t[i..], base) ==
      if DigitOf(t[i]).Some? && DigitOf(t[i]).value < base then 1 + Run(t[i + 1..], base) else 0)
  {
    if i < |t| {
      assert t[i..][1..] == t[i + 1..];
    }
  }

  lemma ValueStep(t: string, base: nat, i: nat)
    requires i <= |t|
    ensures i == 0 ==> Value(t[..i], base) == 0
    ensures i < |t| ==> Value(t[..i + 1], base) == Extend(Value(t[..i], base), base, t[i])
  {
    if i < |t| {
      assert t[..i + 1][..i] == t[..i];
    }
  }

  lemma NumberIs(t: string, base: nat)
    ensures var n := Run(t, base);
      NumberAt(t, base) == if n == 0 then NoNumber
                           else if Value(t[..n], base) > INT_MAX then Overflow else Number(Value(t[..n], base), n)
  {
  }

  lemma ExtendIs(v: nat, base: nat, c: char)
    requires DigitOf(c).Some?
    ensures Extend(v, base, c) == v * base + DigitOf(c).value
  {
  }

  /** `memchr` for a comma, or the end. */
  method Comma(line: string, p: nat) returns (q: nat)
    requires p <= |line|
    ensures p <= q <= |line| && q == p + FindComma(line[p..])
  {
    q := p;
    while q < |line| && line[q] != ','
      invariant p <= q <= |line|
      invariant p + FindComma(line[p..]) == q + FindComma(line[q..])
    {
      assert line[q..][1..] == line[q + 1..];
      q := q + 1;
    }
  }

  /** The bits of one item; false when the counter would overflow. */
  method SetRange(list: List, first: nat, last: nat, ghost s: set<int>) returns (ok: bool)
    requires first <= INT_MAX && last <= INT_MAX && Represents(list.mask, s)
    modifies list
    ensures ok <==> !(first <= last && last == INT_MAX)
    ensures ok ==> Represents(list.mask, s + Covered(first, last))
  {
    hide Represents;
    var val := first;
    ghost var r := s;
    while val <= last
      invariant first <= val && (val <= last + 1 || val == first)
      invariant r == s + Covered(first, val - 1) && Represents(list.mask, r)
      invariant first <= last && last == INT_MAX ==> val <= INT_MAX
    {
      list.Set(val, r);
      r := if val < 32 then r + {val} else r;
      assert r == s + Covered(first, val);
      if val == INT_MAX {
        return false;
      }
      val := val + 1;
    }
    assert r == s + Covered(first, last);
    return true;
  }

  /** One item of the list, up to `q`. */
  method ParseItem(line: string, p: nat, q: nat) returns (b: Bounds)
    requires p <= q <= |line|
    ensures b == ItemAt(line[p..q])
    ensures b.Bounds? ==> b.first <= INT_MAX && b.last <= INT_MAX
  {
    hide NumberAt;
    ghost var t := line[p..q];
    NumberShape(t);
    var first := ParseNumber(line, p, q, 10);
    if first.NoNumber? {
      return Bad;
    }
    if first.Overflow? {
      return Undef;
    }
    var m := p + first.length;
    if m < q && line[m] == '-' {
      var last := ParseNumber(line, m + 1, q, 10);
      assert t[m - p + 1..] == line[m + 1..q];
      NumberShape(line[m + 1..q]);
      return if last.NoNumber? then Bad else if last.Overflow? then Undef else Bounds(first.value, last.value);
    }
    return Bounds(first.value, first.value);
  }

  /** Reads a list of cpus into the mask.  After bad format the mask keeps what came before it. */
  method Parse(list: List, line: string, ghost s: set<int>) returns (o: Outcome)
    requires Represents(list.mask, s)
    modifies list
    ensures o == ListAt(line, s).0
    ensures o != Undefined ==> Represents(list.mask, ListAt(line, s).1)
  {
    hide Represents, ItemAt, ListAt, FindComma, Covered;
    var p, end := 0, |line|;
    ghost var r := s;
    assert line[0..] == line;
    while p < end && line[p] != '\n'
      invariant p <= end && Represents(list.mask, r)
      invariant ListAt(line[p..], r) == ListAt(line, s)
      decreases end - p
    {
      var q := Comma(line, p);
      TailOf(line, p, q);
      ListUnfolds(line[p..], r, q - p);
      var item := ParseItem(line, p, q);
      match item {
        case Bad =>
          return BadFormat;
        case Undef =>
          return Undefined;
        case Bounds(first, last) =>
          var ok := SetRange(list, first, last, r);
          if !ok {
            return Undefined;
          }
          r := r + Covered(first, last);
      }
      p := q;
      if p < end {
        p := p + 1;
      }
    }
    ListEnds(line[p..], r);
    return Done;
  }

  lemma TailOf(line: string, p: nat, q: nat)
    requires p < |line| && p <= q <= |line|
    ensures |line[p..]| == |line| - p && line[p..][0] == line[p] && line[p..][..q - p] == line[p..q]
    ensures if q < |line| then line[p..][q - p + 1..] == line[q + 1..] else line[q..] == ""
  {
  }

  lemma NumberShape(t: string)
    ensures NumberAt(t, 10).Number? ==> 0 < NumberAt(t, 10).length <= |t| && NumberAt(t, 10).value <= INT_MAX
  {
  }

  /** A printed list, with or without a newline behind it, read into an empty mask: if all items fit,
      bit v is set exactly when some item covers v. */
  method ReadPrinted(items: seq<Item>, newline: bool) returns (list: List, o: Outcome)
    ensures o == Done <==> AllFit(items)
    ensures o == Done ==> forall v :: 0 <= v < 32 ==>
      (Meets(list.mask, Bit(v)) <==> exists k :: 0 <= k < |items| && First(items[k]) <= v <= Last(items[k]))
  {
    list := new List();
    hide Meets, Bit, ListAt, AllFit;
    var u := if newline then "\n" else "";
    ParseUndoesPrint(items, u, {});
    o := Parse(list, PrintList(items) + u, {});
    assert {} + CoveredBy(items) == CoveredBy(items);
    forall v | 0 <= v < 32
      ensures v in CoveredBy(items) <==> exists k :: 0 <= k < |items| && First(items[k]) <= v <= Last(items[k])
    {
      CoveredByIs(items, v);
    }
  }
}
