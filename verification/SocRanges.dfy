/** The device window of the kernel: the walk of `/soc/ranges` that maps it at
    boot and the walk that converts a bus address into it. */
module SocRanges {
  import opened Wrappers
  import opened Bits
  import opened PageTable

  const WRAP: int := 0x1_0000_0000_0000_0000
  const KERNEL_BASE: int := 0xffff_0000_0000_0000
  const DEVICE_MEMORY: int := 0xffff_2000_0000_0000
  const FIRST_PAGE: int := 0x2_0000_0000
  const ROOM: int := 0xe000_0000_0000

  /** Which numbers of an entry have two cells. */
  datatype Widths = Widths(soc: bool, arm: bool, size: bool)

  datatype Range = Range(soc: nat, arm: nat, size: nat)

  function Width(wide: bool): nat
  {
    if wide then 8 else 4
  }

  /** A big-endian number. */
  function BigEndian(s: seq<Byte>): nat
    decreases |s|
  {
    if |s| == 0 then 0 else BigEndian(s[..|s| - 1]) * 256 + s[|s| - 1]
  }

  function EntrySize(w: Widths): (n: nat)
    ensures n > 0
  {
    Width(w.soc) + Width(w.arm) + Width(w.size)
  }

  function EntryAt(data: seq<Byte>, i: nat, w: Widths): Range
    requires i + EntrySize(w) <= |data|
  {
    var j := i + Width(w.soc);
    var k := j + Width(w.arm);
    Range(BigEndian(data[i..j]), BigEndian(data[j..k]), BigEndian(data[k..k + Width(w.size)]))
  }

  /** The first byte counts most. */
  lemma {:induction false} BigEndianHead(s: seq<Byte>)
    requires |s| > 0
    ensures BigEndian(s) == s[0] * Power256(|s| - 1) + BigEndian(s[1..])
    decreases |s|
  {
    var n := |s| - 1;
    if n > 0 {
      BigEndianHead(s[..n]);
      assert s[..n][1..] == s[1..][..n - 1];
      assert s[0] * Power256(n) == s[0] * Power256(n - 1) * 256;
    }
  }

  function Power256(n: nat): (p: nat)
    ensures p > 0
  {
    if n == 0 then 1 else 256 * Power256(n - 1)
  }

  /** A number in n big-endian bytes. */
  function Cells(v: nat, n: nat): (s: seq<Byte>)
    ensures |s| == n
  {
    if n == 0 then [] else Cells(v / 256, n - 1) + [v % 256]
  }

  lemma {:induction false} CellsRoundTrip(v: nat, n: nat)
    requires v < Power256(n)
    ensures BigEndian(Cells(v, n)) == v
    decreases n
  {
    if n > 0 {
      assert v / 256 < Power256(n - 1);
      CellsRoundTrip(v / 256, n - 1);
      assert Cells(v, n)[..n - 1] == Cells(v / 256, n - 1);
    }
  }

  /** The numbers of a range fit the widths of the property. */
  ghost predicate FitsCells(r: Range, w: Widths)
  {
    r.soc < Power256(Width(w.soc)) && r.arm < Power256(Width(w.arm)) && r.size < Power256(Width(w.size))
  }

  /** The property as a device tree holds it: child address, parent address and size of
      each range. */
  function RangesBytes(rs: seq<Range>, w: Widths): seq<Byte>
  {
    if |rs| == 0 then []
    else Cells(rs[0].soc, Width(w.soc)) + (Cells(rs[0].arm, Width(w.arm)) + (Cells(rs[0].size, Width(w.size)) + RangesBytes(rs[1..], w)))
  }

  lemma Slice(data: seq<Byte>, i: nat, a: seq<Byte>, b: seq<Byte>)
    requires i <= |data| && data[i..] == a + b
    ensures i + |a| <= |data| && data[i..i + |a|] == a && data[i + |a|..] == b
  {
    assert |data[i..]| == |a| + |b|;
    assert data[i..i + |a|] == data[i..][..|a|];
    assert data[i + |a|..] == data[i..][|a|..];
  }

  lemma EntryRoundTrip(data: seq<Byte>, i: nat, r: Range, rest: seq<Byte>, w: Widths)
    requires FitsCells(r, w) && i <= |data|
    requires data[i..] == Cells(r.soc, Width(w.soc)) + (Cells(r.arm, Width(w.arm)) + (Cells(r.size, Width(w.size)) + rest))
    ensures i + EntrySize(w) <= |data| && EntryAt(data, i, w) == r && data[i + EntrySize(w)..] == rest
  {
    hide Cells, BigEndian, Width, EntryAt, FitsCells;
    var a, b, c := Cells(r.soc, Width(w.soc)), Cells(r.arm, Width(w.arm)), Cells(r.size, Width(w.size));
    Slice(data, i, a, b + (c + rest));
    Slice(data, i + |a|, b, c + rest);
    Slice(data, i + |a| + |b|, c, rest);
    EntryIs(data, i, r, w);
  }

  lemma EntryIs(data: seq<Byte>, i: nat, r: Range, w: Widths)
    requires FitsCells(r, w) && i + EntrySize(w) <= |data|
    requires var j, k := i + Width(w.soc), i + Width(w.soc) + Width(w.arm);
             && data[i..j] == Cells(r.soc, Width(w.soc)) && data[j..k] == Cells(r.arm, Width(w.arm))
             && data[k..k + Width(w.size)] == Cells(r.size, Width(w.size))
    ensures EntryAt(data, i, w) == r
  {
    hide Cells, BigEndian, Width;
    CellsRoundTrip(r.soc, Width(w.soc));
    CellsRoundTrip(r.arm, Width(w.arm));
    CellsRoundTrip(r.size, Width(w.size));
  }

  /** Reading a written property gives exactly its ranges, and nothing is left over. */
  lemma {:induction false} RangesRoundTrip(data: seq<Byte>, i: nat, rs: seq<Range>, w: Widths)
    requires i <= |data| && data[i..] == RangesBytes(rs, w) && forall k :: 0 <= k < |rs| ==> FitsCells(rs[k], w)
    ensures Parse(data, i, w) == (rs, true)
    decreases |rs|
  {
    hide Cells, EntryAt, EntrySize, FitsCells, Width;
    if |rs| > 0 {
      EntryRoundTrip(data, i, rs[0], RangesBytes(rs[1..], w), w);
      RangesRoundTrip(data, i + EntrySize(w), rs[1..], w);
      assert [rs[0]] + rs[1..] == rs;
    }
  }

  /** The complete entries from byte `i` on, and whether nothing is left over. */
  function Parse(data: seq<Byte>, i: nat, w: Widths): (seq<Range>, bool)
    requires i <= |data|
    decreases |data| - i
  {
    if i == |data| then ([], true)
    else if i + EntrySize(w) > |data| then ([], false)
    else
      var (rest, done) := Parse(data, i + EntrySize(w), w);
      ([EntryAt(data, i, w)] + rest, done)
  }

  method GetVariableInt(data: seq<Byte>, index: nat, wide: bool) returns (ok: bool, next: nat, value: nat)
    requires index <= |data|
    ensures ok <==> index + Width(wide) <= |data|
    ensures ok ==> next == index + Width(wide) && value == BigEndian(data[index..next])
    ensures !ok ==> next == index && value == 0
  {
    var n := if wide then 8 else 4;
    if index + n > |data| {
      return false, index, 0;
    }
    next, value := index, 0;
    while next < index + n
      invariant index <= next <= index + n
      invariant value == BigEndian(data[index..next])
    {
      assert data[index..next + 1][..next - index] == data[index..next];
      value := value * 256 + data[next];
      next := next + 1;
    }
    ok := true;
  }

  /** One entry of the walk. */
  method NextEntry(data: seq<Byte>, index: nat, w: Widths) returns (ok: bool, next: nat, r: Range)
    requires index < |data|
    ensures ok <==> index + EntrySize(w) <= |data|
    ensures ok ==> next == index + EntrySize(w) && r == EntryAt(data, index, w)
  {
    hide BigEndian;
    r, next := Range(0, 0, 0), index;
    var soc, arm, size;
    ok, next, soc := GetVariableInt(data, next, w.soc);
    if !ok {
      return;
    }
    ok, next, arm := GetVariableInt(data, next, w.arm);
    if !ok {
      return;
    }
    ok, next, size := GetVariableInt(data, next, w.size);
    if !ok {
      return;
    }
    r := Range(soc, arm, size);
  }

  // ----- offsets -----

  /** Bytes of the window taken by the first `n` ranges. */
  function Offset(ranges: seq<Range>, n: nat): nat
    requires n <= |ranges|
  {
    if n == 0 then 0 else Offset(ranges, n - 1) + ranges[n - 1].size
  }

  /** The addresses of one map_range call, as 64-bit words. */
  function VaStart(offset: int): (va: nat)
    ensures va < WRAP
  {
    (DEVICE_MEMORY + offset) % WRAP
  }

  function VaEnd(offset: int, size: int): (va: nat)
    ensures va < WRAP
  {
    (VaStart(offset) + size - 4096) % WRAP
  }

  predicate Checked(offset: int, size: int)
  {
    CheckVa(Kernel, VaStart(offset)) && CheckVa(Kernel, VaEnd(offset, size))
  }

  /** No map_range call of the first `n` is refused. */
  ghost predicate Accepted(ranges: seq<Range>, n: nat)
    requires n <= |ranges|
  {
    forall i :: 0 <= i < n ==> Checked(Offset(ranges, i), ranges[i].size)
  }

  /** The sizes of the first `n` ranges do not reach around the address space. */
  ghost predicate Sane(ranges: seq<Range>, n: nat)
    requires n <= |ranges|
  {
    forall i :: 0 <= i < n ==> ranges[i].size < 0x1_0000_0000_0000
  }

  predicate HasRoom(offset: nat, size: nat)
  {
    offset < ROOM && offset + size <= ROOM && size % 4096 == 0
  }

  /** Page-multiple sizes that fit between the window and the top. */
  ghost predicate Fits(ranges: seq<Range>, n: nat)
    requires n <= |ranges|
  {
    forall i :: 0 <= i < n ==> HasRoom(Offset(ranges, i), ranges[i].size)
  }

  lemma CheckedIffRoom(offset: nat, size: nat)
    requires offset % 4096 == 0 && offset <= ROOM && size < 0x1_0000_0000_0000
    ensures Checked(offset, size) <==> HasRoom(offset, size)
    ensures HasRoom(offset, size) ==>
              && PageOf(Kernel, VaStart(offset)) == FIRST_PAGE + offset / 4096
              && PageOf(Kernel, VaEnd(offset, size)) == FIRST_PAGE + offset / 4096 + size / 4096 - 1
  {
    if offset < ROOM {
      assert VaStart(offset) == DEVICE_MEMORY + offset;
    }
  }

  lemma NextPage(offset: nat, size: nat)
    requires offset % 4096 == 0 && HasRoom(offset, size)
    ensures (offset + size) % 4096 == 0 && (offset + size) / 4096 == offset / 4096 + size / 4096
    ensures offset + size <= ROOM && FIRST_PAGE + (offset + size) / 4096 <= PAGES
  {
  }

  lemma {:induction false} OffsetsFit(ranges: seq<Range>, n: nat)
    requires n <= |ranges| && Fits(ranges, n)
    ensures Offset(ranges, n) % 4096 == 0 && Offset(ranges, n) <= ROOM
  {
    hide Offset, HasRoom;
    if n > 0 {
      OffsetsFit(ranges, n - 1);
      NextOffset(ranges, n - 1);
      NextPage(Offset(ranges, n - 1), ranges[n - 1].size);
    } else {
      NoOffset(ranges);
    }
  }

  /** Boot accepts a list of sane ranges exactly when it is page-multiple and
      leaves room. */
  lemma {:induction false} AcceptedIffFits(ranges: seq<Range>, n: nat)
    requires n <= |ranges| && Sane(ranges, n)
    ensures Accepted(ranges, n) <==> Fits(ranges, n)
  {
    hide Checked, Offset, HasRoom;
    if n > 0 {
      AcceptedIffFits(ranges, n - 1);
      if Fits(ranges, n - 1) {
        OffsetsFit(ranges, n - 1);
        CheckedIffRoom(Offset(ranges, n - 1), ranges[n - 1].size);
      }
    }
  }

  lemma {:induction false} OffsetMonotone(ranges: seq<Range>, i: nat, j: nat)
    requires i <= j <= |ranges|
    ensures Offset(ranges, i) <= Offset(ranges, j)
  {
    if i < j {
      OffsetMonotone(ranges, i, j - 1);
    }
  }

  // ----- the mapping made at boot -----

  /** The page where range `n` starts. */
  function First(ranges: seq<Range>, n: nat): (p: nat)
    requires n <= |ranges|
    ensures p >= FIRST_PAGE
  {
    FIRST_PAGE + Offset(ranges, n) / 4096
  }

  lemma NextFirst(ranges: seq<Range>, n: nat)
    requires n < |ranges| && Fits(ranges, n + 1)
    ensures First(ranges, n + 1) == First(ranges, n) + ranges[n].size / 4096 <= PAGES
  {
    hide HasRoom, Offset;
    assert Fits(ranges, n);
    OffsetsFit(ranges, n);
    NextOffset(ranges, n);
    NextPage(Offset(ranges, n), ranges[n].size);
  }

  /** What the first `n` ranges put at a page of the kernel window. */
  ghost function View(ranges: seq<Range>, n: nat, attr: Attr, was: Option<(int, Attr)>, p: int): Option<(int, Attr)>
    requires n <= |ranges|
  {
    if n == 0 then was else
    var r, first := ranges[n - 1], First(ranges, n - 1);
    if first <= p < first + r.size / 4096 then Some(((r.arm / 4096 + (p - first)) % PAGES, attr))
    else View(ranges, n - 1, attr, was, p)
  }

  ghost predicate Vacant(t: seq<Entry>)
    requires WellFormedTable(t, 3)
  {
    forall p: nat :: FIRST_PAGE <= p < PAGES ==> LookupTable(t, 3, p) == None
  }

  ghost predicate DeviceView(ranges: seq<Range>, n: nat, attr: Attr, t: seq<Entry>, r: seq<Entry>)
    requires n <= |ranges|
  {
    && WellFormedTable(t, 3)
    && WellFormedTable(r, 3)
    && forall p: nat :: p < PAGES ==> LookupTable(r, 3, p) == View(ranges, n, attr, LookupTable(t, 3, p), p)
  }

  lemma {:induction false} ViewAbove(ranges: seq<Range>, n: nat, attr: Attr, was: Option<(int, Attr)>, p: int)
    requires n <= |ranges| && Fits(ranges, n) && p >= First(ranges, n)
    ensures View(ranges, n, attr, was, p) == was
  {
    hide First, HasRoom, Offset;
    if n > 0 {
      NextFirst(ranges, n - 1);
      ViewAbove(ranges, n - 1, attr, was, p);
    }
  }

  /** One more map_range call extends the view by one range. */
  lemma ViewStep(ranges: seq<Range>, n: nat, attr: Attr, t: seq<Entry>, cur: seq<Entry>, r: seq<Entry>)
    requires n < |ranges| && Fits(ranges, n + 1) && DeviceView(ranges, n, attr, t, cur) && Vacant(t)
    requires TableMapped(Kernel, cur, r, 3, 0, First(ranges, n), First(ranges, n) + ranges[n].size / 4096 - 1, ranges[n].arm / 4096, attr)
    ensures DeviceView(ranges, n + 1, attr, t, r)
  {
    hide LookupTable, CutTable, WellFormedTable, Size, First, HasRoom, Offset;
    var lo := First(ranges, n);
    var hi := lo + ranges[n].size / 4096 - 1;
    WindowSize();
    forall p: nat | p < PAGES
      ensures LookupTable(r, 3, p) == View(ranges, n + 1, attr, LookupTable(t, 3, p), p)
    {
      if CutTable(Kernel, cur, 3, lo, hi, p) && lo <= p <= hi {
        CutHasPage(cur, lo, hi, p);
        ViewAbove(ranges, n, attr, LookupTable(t, 3, p), p);
        assert false;
      }
    }
  }

  lemma CutHasPage(t: seq<Entry>, lo: int, hi: int, p: nat)
    requires WellFormedTable(t, 3) && CutTable(Kernel, t, 3, lo, hi, p)
    ensures LookupTable(t, 3, p).Some?
  {
    hide LookupTable, CutTable, WellFormedTable;
    TableCutBounds(Kernel, t, 3, lo, hi, p);
  }

  lemma WindowSize()
    ensures Size(4) == PAGES
  {
  }

  lemma StartView(ranges: seq<Range>, attr: Attr, t: seq<Entry>)
    requires WellFormedTable(t, 3)
    ensures DeviceView(ranges, 0, attr, t, t) && Accepted(ranges, 0) && Offset(ranges, 0) == 0
  {
    hide LookupTable, WellFormedTable;
  }

  /** Offsets may be taken modulo 2^64 at every step. */
  lemma SameWords(offset: nat, size: nat)
    ensures VaStart(offset % WRAP) == VaStart(offset) >= 0
    ensures VaEnd(offset % WRAP, size) == VaEnd(offset, size) >= 0
    ensures (offset % WRAP + size) % WRAP == (offset + size) % WRAP
  {
    var q := offset / WRAP;
    assert offset == WRAP * q + offset % WRAP;
    Around(DEVICE_MEMORY + offset % WRAP, q);
    Around(offset % WRAP + size, q);
  }

  lemma Around(u: int, q: int)
    ensures (WRAP * q + u) % WRAP == u % WRAP
  {
    var a := u / WRAP;
    assert WRAP * q + u == WRAP * (q + a) + u % WRAP;
  }

  lemma AcceptStep(ranges: seq<Range>, n: nat)
    requires n < |ranges| && Accepted(ranges, n)
    ensures Accepted(ranges, n + 1) <==> Checked(Offset(ranges, n), ranges[n].size)
    ensures !Accepted(ranges, n + 1) ==> !Accepted(ranges, |ranges|)
  {
    hide Checked, Offset;
  }

  lemma BootStep(ranges: seq<Range>, n: nat, attr: Attr, t: seq<Entry>, cur: seq<Entry>, r: seq<Entry>, lo: nat, hi: nat)
    requires n < |ranges| && WellFormedTable(t, 3) && Accepted(ranges, n + 1)
    requires Sane(ranges, n) && Vacant(t) ==> DeviceView(ranges, n, attr, t, cur)
    requires var o := Offset(ranges, n);
             && Checked(o, ranges[n].size)
             && lo == PageOf(Kernel, VaStart(o)) && hi == PageOf(Kernel, VaEnd(o, ranges[n].size))
             && TableMapped(Kernel, cur, r, 3, 0, lo, hi, ranges[n].arm / 4096, attr)
    ensures WellFormedTable(r, 3)
    ensures Sane(ranges, n + 1) && Vacant(t) ==> DeviceView(ranges, n + 1, attr, t, r)
  {
    hide Checked, VaStart, VaEnd, PageOf, DeviceView, Vacant, LookupTable, TableMapped, WellFormedTable, Offset, HasRoom;
    Formed(Kernel, cur, r, 3, 0, lo, hi, ranges[n].arm / 4096, attr);
    if Sane(ranges, n + 1) && Vacant(t) {
      assert Sane(ranges, n);
      AcceptedIffFits(ranges, n + 1);
      assert Fits(ranges, n);
      OffsetsFit(ranges, n);
      CheckedIffRoom(Offset(ranges, n), ranges[n].size);
      ViewStep(ranges, n, attr, t, cur, r);
    }
  }

  /** setup_device_mapping: `ok` is false where the boot code stops. */
  method SetupDeviceMapping(t: seq<Entry>, data: seq<Byte>, w: Widths, attr: Attr) returns (ok: bool, r: seq<Entry>)
    requires WellFormedTable(t, 3)
    ensures ok <==> Parse(data, 0, w).1 && Accepted(Parse(data, 0, w).0, |Parse(data, 0, w).0|)
    ensures var ranges := Parse(data, 0, w).0;
            ok && Sane(ranges, |ranges|) && Vacant(t) ==> DeviceView(ranges, |ranges|, attr, t, r)
  {
    hide PageOf, DeviceView, Vacant, Sane, Accepted, EntryAt, TableMapped, WellFormedTable, LookupTable, Offset;
    ghost var (ranges, complete) := Parse(data, 0, w);
    var index, offset := 0, 0;
    ghost var n: nat := 0;
    r := t;
    StartView(ranges, attr, t);
    while index < |data|
      invariant index <= |data| && n <= |ranges|
      invariant Parse(data, index, w) == (ranges[n..], complete)
      invariant offset == Offset(ranges, n) % WRAP
      invariant WellFormedTable(r, 3)
      invariant Accepted(ranges, n)
      invariant Sane(ranges, n) && Vacant(t) ==> DeviceView(ranges, n, attr, t, r)
    {
      var range;
      ok, index, range := NextEntry(data, index, w);
      if !ok {
        return;
      }
      assert range == ranges[n..][0] == ranges[n];
      var vaStart := (DEVICE_MEMORY + offset) % WRAP;
      var vaEnd := (vaStart + range.size - 4096) % WRAP;
      SameWords(Offset(ranges, n), range.size);
      ghost var cur := r;
      ok, r := MapRange(Kernel, r, vaStart, vaEnd, range.arm, attr);
      AcceptStep(ranges, n);
      if !ok {
        return;
      }
      NextOffset(ranges, n);
      BootStep(ranges, n, attr, t, cur, r, PageOf(Kernel, vaStart), PageOf(Kernel, vaEnd));
      offset := (offset + range.size) % WRAP;
      n := n + 1;
      assert ranges[n - 1..][1..] == ranges[n..];
    }
    ok := true;
  }

  // ----- the conversion -----

  /** The test of the conversion: the end of the range is a 64-bit word. */
  predicate Found(r: Range, s: nat)
  {
    r.soc <= s < (r.soc + r.size) % WRAP
  }

  predicate Holds(r: Range, s: nat)
  {
    r.soc <= s < r.soc + r.size
  }

  function Convert(ranges: seq<Range>, i: nat, s: nat): Option<int>
    requires i <= |ranges|
    decreases |ranges| - i
  {
    if i == |ranges| then None
    else if Found(ranges[i], s) then Some((DEVICE_MEMORY + Offset(ranges, i) + (s - ranges[i].soc)) % WRAP)
    else Convert(ranges, i + 1, s)
  }

  /** convert_soc_address: None where the kernel stops. */
  method ConvertSocAddress(data: seq<Byte>, w: Widths, s: nat) returns (va: Option<int>)
    ensures va == Convert(Parse(data, 0, w).0, 0, s)
  {
    hide EntryAt, Offset, Found;
    ghost var (ranges, complete) := Parse(data, 0, w);
    var index, offset := 0, 0;
    ghost var n: nat := 0;
    assert Offset(ranges, 0) == 0 by { NoOffset(ranges); }
    while index < |data|
      invariant index <= |data| && n <= |ranges|
      invariant Parse(data, index, w) == (ranges[n..], complete)
      invariant offset == Offset(ranges, n) % WRAP
      invariant Convert(ranges, 0, s) == Convert(ranges, n, s)
    {
      var ok, range;
      ok, index, range := NextEntry(data, index, w);
      if !ok {
        return None;
      }
      assert range == ranges[n..][0] == ranges[n];
      if Found(range, s) {
        FoundHolds(range, s);
        SameWord(Offset(ranges, n), s - range.soc);
        return Some((DEVICE_MEMORY + offset + (s - range.soc)) % WRAP);
      }
      NextOffset(ranges, n);
      SameWords(Offset(ranges, n), range.size);
      offset := (offset + range.size) % WRAP;
      n := n + 1;
      assert ranges[n - 1..][1..] == ranges[n..];
    }
    va := None;
  }

  lemma NoOffset(ranges: seq<Range>)
    ensures Offset(ranges, 0) == 0
  {
  }

  lemma NextOffset(ranges: seq<Range>, n: nat)
    requires n < |ranges|
    ensures Offset(ranges, n + 1) == Offset(ranges, n) + ranges[n].size
  {
  }

  lemma SameWord(offset: nat, x: nat)
    ensures (DEVICE_MEMORY + offset % WRAP + x) % WRAP == (DEVICE_MEMORY + offset + x) % WRAP
  {
    var q := offset / WRAP;
    assert offset == WRAP * q + offset % WRAP;
    Around(DEVICE_MEMORY + offset % WRAP + x, q);
  }

  lemma FoundHolds(r: Range, s: nat)
    requires Found(r, s)
    ensures r.soc <= s
  {
  }

  /** The conversion sees a range in full, unless the range reaches 2^64. */
  lemma FoundIffHolds(r: Range)
    requires r.soc < WRAP && r.size < WRAP
    ensures (forall s: nat :: s < WRAP ==> (Found(r, s) <==> Holds(r, s))) <==> r.soc + r.size < WRAP || r.size == 0
    ensures forall s: nat :: Found(r, s) ==> Holds(r, s)
  {
    if r.soc + r.size >= WRAP && r.size > 0 {
      assert Holds(r, r.soc) && !Found(r, r.soc);
    }
  }

  // ----- the two walks agree -----

  /** What an access to a kernel address reaches. */
  ghost function Translate(t: seq<Entry>, va: nat): Option<int>
    requires WellFormedTable(t, 3) && va >= KERNEL_BASE
  {
    var page := LookupTable(t, 3, PageOf(Kernel, va));
    if page.None? then None else Some(page.value.0 * 4096 + va % 4096)
  }

  ghost predicate FirstHolding(ranges: seq<Range>, i: nat, s: nat)
  {
    i < |ranges| && Holds(ranges[i], s) && forall j :: 0 <= j < i ==> !Holds(ranges[j], s)
  }

  lemma {:induction false} ConvertsTo(ranges: seq<Range>, k: nat, i: nat, s: nat)
    requires k <= i && FirstHolding(ranges, i, s) && ranges[i].soc + ranges[i].size < WRAP
    requires forall j :: 0 <= j < |ranges| ==> ranges[j].size < WRAP
    ensures Convert(ranges, k, s) == Some((DEVICE_MEMORY + Offset(ranges, i) + (s - ranges[i].soc)) % WRAP)
    decreases i - k
  {
    hide Offset;
    if k < i {
      ConvertsTo(ranges, k + 1, i, s);
    }
  }

  /** The view at an address inside range `i`. */
  lemma {:induction false} ViewInside(ranges: seq<Range>, n: nat, i: nat, attr: Attr, was: Option<(int, Attr)>, k: nat)
    requires i < n <= |ranges| && Fits(ranges, n) && k < ranges[i].size / 4096
    ensures View(ranges, n, attr, was, First(ranges, i) + k) == Some(((ranges[i].arm / 4096 + k) % PAGES, attr))
    decreases n
  {
    hide First, HasRoom, Offset;
    if n > i + 1 {
      ViewInside(ranges, n - 1, i, attr, was, k);
      NextFirst(ranges, i);
      FirstMonotone(ranges, i + 1, n - 1);
    }
  }

  lemma FirstMonotone(ranges: seq<Range>, i: nat, j: nat)
    requires i <= j <= |ranges|
    ensures First(ranges, i) <= First(ranges, j)
  {
    hide Offset;
    OffsetMonotone(ranges, i, j);
  }

  lemma PageAndOffset(a: nat, x: nat)
    ensures ((a + x / 4096) % PAGES) * 4096 + x % 4096 == (a * 4096 + x) % 0x1_0000_0000_0000
  {
    var k := a + x / 4096;
    var q := k / PAGES;
    assert k == PAGES * q + k % PAGES;
    assert a * 4096 + x == 0x1_0000_0000_0000 * q + ((k % PAGES) * 4096 + x % 4096);
    Under48((k % PAGES) * 4096 + x % 4096, q);
  }

  lemma Under48(u: nat, q: nat)
    requires u < 0x1_0000_0000_0000
    ensures (0x1_0000_0000_0000 * q + u) % 0x1_0000_0000_0000 == u
  {
  }

  lemma AddressInWindow(offset: nat, x: nat)
    requires offset % 4096 == 0 && offset + x < ROOM
    ensures var va := DEVICE_MEMORY + offset + x;
            && va % WRAP == va && va >= KERNEL_BASE
            && PageOf(Kernel, va) == FIRST_PAGE + offset / 4096 + x / 4096 < PAGES
            && va % 4096 == x % 4096
  {
  }

  /** For every bus address of a range, the address that the conversion hands
      out is translated by the table built at boot to the address that the
      first range holding it promises (its first page, when that is not
      page-aligned, and the 48 bits that an entry keeps). */
  lemma DeviceAddressTranslates(ranges: seq<Range>, attr: Attr, t: seq<Entry>, r: seq<Entry>, i: nat, s: nat)
    requires Sane(ranges, |ranges|) && Accepted(ranges, |ranges|) && DeviceView(ranges, |ranges|, attr, t, r)
    requires FirstHolding(ranges, i, s) && ranges[i].soc + ranges[i].size < WRAP
    ensures var a, x := ranges[i].arm, s - ranges[i].soc;
            var va := DEVICE_MEMORY + Offset(ranges, i) + x;
            && Convert(ranges, 0, s) == Some(va)
            && Translate(r, va) == Some((a - a % 4096 + x) % 0x1_0000_0000_0000)
            && (a % 4096 == 0 && a + x < 0x1_0000_0000_0000 ==> Translate(r, va) == Some(a + x))
  {
    hide Offset, LookupTable, WellFormedTable, View, Convert, PageOf, Accepted;
    var a: nat, x: nat := ranges[i].arm, s - ranges[i].soc;
    AcceptedIffFits(ranges, |ranges|);
    assert Fits(ranges, i) && HasRoom(Offset(ranges, i), ranges[i].size);
    OffsetsFit(ranges, i);
    ConvertsTo(ranges, 0, i, s);
    AddressInWindow(Offset(ranges, i), x);
    var va := DEVICE_MEMORY + Offset(ranges, i) + x;
    var p := PageOf(Kernel, va);
    ViewInside(ranges, |ranges|, i, attr, LookupTable(t, 3, p), x / 4096);
    PageAndOffset(a / 4096, x);
  }

  /** Distinct bus addresses never share a virtual address. */
  lemma ConversionIsInjective(ranges: seq<Range>, s1: nat, s2: nat)
    requires Sane(ranges, |ranges|) && Accepted(ranges, |ranges|)
    requires forall j :: 0 <= j < |ranges| ==> ranges[j].soc < WRAP
    requires Convert(ranges, 0, s1).Some? && Convert(ranges, 0, s1) == Convert(ranges, 0, s2)
    ensures s1 == s2
  {
    hide Offset, Accepted, Sane, Convert;
    AcceptedIffFits(ranges, |ranges|);
    var i := Position(ranges, 0, s1);
    var j := Position(ranges, 0, s2);
    if i < j {
      NextOffset(ranges, i);
      OffsetMonotone(ranges, i + 1, j);
    } else if j < i {
      NextOffset(ranges, j);
      OffsetMonotone(ranges, j + 1, i);
    }
  }

  lemma {:induction false} Position(ranges: seq<Range>, k: nat, s: nat) returns (i: nat)
    requires k <= |ranges| && Convert(ranges, k, s).Some? && Fits(ranges, |ranges|)
    requires forall j :: 0 <= j < |ranges| ==> ranges[j].soc < WRAP
    ensures i < |ranges| && Holds(ranges[i], s) && Offset(ranges, i) + ranges[i].size <= ROOM
    ensures Convert(ranges, k, s) == Some(DEVICE_MEMORY + Offset(ranges, i) + (s - ranges[i].soc))
    decreases |ranges| - k
  {
    hide Offset;
    if Found(ranges[k], s) {
      i := k;
      FoundIffHolds(ranges[k]);
    } else {
      i := Position(ranges, k + 1, s);
    }
  }

  /** Sizes of one cell are always sane. */
  lemma {:induction false} OneCellSizesAreSane(data: seq<Byte>, i: nat, w: Widths)
    requires i <= |data| && !w.size
    ensures Sane(Parse(data, i, w).0, |Parse(data, i, w).0|)
    decreases |data| - i
  {
    hide BigEndian;
    if i + EntrySize(w) <= |data| {
      OneCellSizesAreSane(data, i + EntrySize(w), w);
      var k := i + Width(w.soc) + Width(w.arm);
      FourBytes(data[k..k + 4]);
    }
  }

  lemma FourBytes(s: seq<Byte>)
    requires |s| == 4
    ensures BigEndian(s) < 0x1_0000_0000
  {
    var a := s[..3];
    var b := a[..2];
    var c := b[..1];
    assert c[..0] == [];
    assert BigEndian(c) == c[0];
    assert BigEndian(b) == BigEndian(c) * 256 + b[1];
    assert BigEndian(a) == BigEndian(b) * 256 + a[2];
  }

  // ----- sizes that reach around -----

  /** A 64-bit word as a signed displacement. */
  function Signed(x: int): int
  {
    if x < 0x8000_0000_0000_0000 then x else x - WRAP
  }

  /** Displacements from the device window that stay in the kernel's half. */
  predicate InKernel(x: int)
  {
    -0x2000_0000_0000 <= x < ROOM
  }

  /** For all 64-bit offsets and sizes: boot accepts a range exactly when offset
      and size are page-multiples and, read as signed displacements, its first and
      last page stay in the kernel's half. */
  lemma CheckedExactly(offset: nat, size: nat)
    requires offset < WRAP && size < WRAP
    ensures Checked(offset, size) <==>
              && offset % 4096 == 0 && size % 4096 == 0
              && InKernel(Signed(offset)) && InKernel(Signed(offset) + Signed(size) - 4096)
  {
    if Checked(offset, size) {
      StartsAt(offset);
      EndsAt(offset, size);
    } else if offset % 4096 == 0 && InKernel(Signed(offset)) {
      StartsAt(offset);
      EndsAt(offset, size);
    }
  }

  lemma StartsAt(offset: nat)
    requires offset < WRAP
    ensures CheckVa(Kernel, VaStart(offset)) <==> offset % 4096 == 0 && InKernel(Signed(offset))
    ensures InKernel(Signed(offset)) ==> VaStart(offset) == DEVICE_MEMORY + Signed(offset)
  {
    var x := DEVICE_MEMORY + offset;
    assert VaStart(offset) == if x < WRAP then x else x - WRAP;
  }

  lemma EndsAt(offset: nat, size: nat)
    requires offset < WRAP && size < WRAP && offset % 4096 == 0 && InKernel(Signed(offset))
    ensures CheckVa(Kernel, VaEnd(offset, size)) <==> size % 4096 == 0 && InKernel(Signed(offset) + Signed(size) - 4096)
    ensures InKernel(Signed(offset) + Signed(size) - 4096) ==>
              VaEnd(offset, size) == DEVICE_MEMORY + Signed(offset) + Signed(size) - 4096
  {
    StartsAt(offset);
    var x := DEVICE_MEMORY + Signed(offset) + size - 4096;
    assert VaEnd(offset, size) == if x < WRAP then x else x - WRAP;
  }

  /** An accepted range names no page at all exactly when its size is zero or, as
      a signed displacement, negative; at offsets inside the window that is: zero
      or at least 2^48. */
  lemma EmptyExactly(offset: nat, size: nat)
    requires offset < WRAP && size < WRAP && Checked(offset, size)
    ensures VaEnd(offset, size) < VaStart(offset) <==> Signed(size) <= 0
    ensures offset < ROOM ==> (Signed(size) <= 0 <==> size == 0 || size >= 0x1_0000_0000_0000)
  {
    CheckedExactly(offset, size);
    StartsAt(offset);
    EndsAt(offset, size);
  }

  /** Every page of range `n` translates as the range promises. */
  ghost predicate OwnPagesMapped(ranges: seq<Range>, n: nat, attr: Attr, r: seq<Entry>)
    requires n < |ranges| && WellFormedTable(r, 3)
  {
    var first := First(ranges, n);
    forall p: nat :: first <= p < first + ranges[n].size / 4096 && p < PAGES ==>
      LookupTable(r, 3, p) == Some(((ranges[n].arm / 4096 + (p - first)) % PAGES, attr))
  }

  /** Behind ranges of ordinary size, the call for an accepted non-empty range
      maps its pages if and only if its size is below 2^48; otherwise it leaves
      every translation as it was, and the range's first page unmapped. */
  lemma MappedIffSane(ranges: seq<Range>, n: nat, attr: Attr, t: seq<Entry>, cur: seq<Entry>, r: seq<Entry>, lo: nat, hi: nat)
    requires n < |ranges| && Sane(ranges, n) && Accepted(ranges, n + 1) && 0 < ranges[n].size < WRAP
    requires DeviceView(ranges, n, attr, t, cur) && Vacant(t)
    requires var o := Offset(ranges, n);
             && lo == PageOf(Kernel, VaStart(o)) && Base(Kernel) <= VaEnd(o, ranges[n].size)
             && hi == PageOf(Kernel, VaEnd(o, ranges[n].size))
             && TableMapped(Kernel, cur, r, 3, 0, lo, hi, ranges[n].arm / 4096, attr)
    ensures OwnPagesMapped(ranges, n, attr, r) <==> ranges[n].size < 0x1_0000_0000_0000
    ensures ranges[n].size >= 0x1_0000_0000_0000 ==>
              First(ranges, n) < PAGES && LookupTable(r, 3, First(ranges, n)) == None
              && forall p: nat :: p < PAGES ==> LookupTable(r, 3, p) == LookupTable(cur, 3, p)
  {
    hide VaStart, VaEnd, PageOf, DeviceView, Vacant, LookupTable, TableMapped, WellFormedTable, Offset, HasRoom, Checked, View;
    AcceptedIffFits(ranges, n);
    OffsetsFit(ranges, n);
    AcceptStep(ranges, n);
    var o, size := Offset(ranges, n), ranges[n].size;
    Formed(Kernel, cur, r, 3, 0, lo, hi, ranges[n].arm / 4096, attr);
    if size < 0x1_0000_0000_0000 {
      CheckedIffRoom(o, size);
      AcceptedIffFits(ranges, n + 1);
      ViewStep(ranges, n, attr, t, cur, r);
      OwnView(ranges, n, attr, t, r);
    } else {
      EmptyCall(o, size, lo, hi);
      NothingMapped(ranges, n, attr, t, cur, r, lo, hi);
    }
  }

  /** A call with a huge size ends before it starts. */
  lemma EmptyCall(o: nat, size: nat, lo: nat, hi: nat)
    requires o <= ROOM && 0x1_0000_0000_0000 <= size < WRAP && Checked(o, size)
    requires lo == PageOf(Kernel, VaStart(o)) && Base(Kernel) <= VaEnd(o, size) && hi == PageOf(Kernel, VaEnd(o, size))
    ensures o < ROOM && hi < lo && lo == FIRST_PAGE + o / 4096 < PAGES && size / 4096 > 0
  {
    CheckedExactly(o, size);
    StartsAt(o);
    EndsAt(o, size);
  }

  lemma OwnView(ranges: seq<Range>, n: nat, attr: Attr, t: seq<Entry>, r: seq<Entry>)
    requires n < |ranges| && Fits(ranges, n + 1) && DeviceView(ranges, n + 1, attr, t, r)
    ensures OwnPagesMapped(ranges, n, attr, r)
  {
    hide LookupTable, WellFormedTable, First, HasRoom, Offset, View;
    var first := First(ranges, n);
    forall p: nat | first <= p < first + ranges[n].size / 4096 && p < PAGES
      ensures LookupTable(r, 3, p) == Some(((ranges[n].arm / 4096 + (p - first)) % PAGES, attr))
    {
      ViewInside(ranges, n + 1, n, attr, LookupTable(t, 3, p), p - first);
    }
  }

  lemma NothingMapped(ranges: seq<Range>, n: nat, attr: Attr, t: seq<Entry>, cur: seq<Entry>, r: seq<Entry>, lo: nat, hi: nat)
    requires n < |ranges| && Fits(ranges, n) && DeviceView(ranges, n, attr, t, cur) && Vacant(t)
    requires hi < lo == First(ranges, n) < PAGES && ranges[n].size / 4096 > 0
    requires TableMapped(Kernel, cur, r, 3, 0, lo, hi, ranges[n].arm / 4096, attr)
    ensures !OwnPagesMapped(ranges, n, attr, r) && LookupTable(r, 3, lo) == None
    ensures forall p: nat :: p < PAGES ==> LookupTable(r, 3, p) == LookupTable(cur, 3, p)
  {
    hide LookupTable, CutTable, WellFormedTable, First, HasRoom, Offset, View;
    WindowSize();
    ViewAbove(ranges, n, attr, LookupTable(t, 3, lo), lo);
    assert LookupTable(r, 3, lo) == None;
  }

  /** Such a range exists: a size of 2^64 - 4096 is accepted and names no page. */
  lemma HugeSizeMapsNothing(soc: nat, arm: nat)
    ensures var ranges := [Range(soc, arm, WRAP - 4096)];
            && Accepted(ranges, 1) && !Sane(ranges, 1)
            && VaEnd(Offset(ranges, 0), WRAP - 4096) < VaStart(Offset(ranges, 0))
  {
    var ranges := [Range(soc, arm, WRAP - 4096)];
    assert ranges[0].size == WRAP - 4096;
  }

  /** A later mapping elsewhere in the window leaves a device address alone. */
  lemma LaterMappingKeeps(t: seq<Entry>, r: seq<Entry>, lo: nat, hi: nat, page: int, attr: Attr, va: nat)
    requires TableMapped(Kernel, t, r, 3, 0, lo, hi, page, attr)
    requires KERNEL_BASE <= va < WRAP && !(lo <= PageOf(Kernel, va) <= hi)
    ensures Translate(r, va) == Translate(t, va)
  {
    hide LookupTable, CutTable, WellFormedTable;
    WindowSize();
  }
}
