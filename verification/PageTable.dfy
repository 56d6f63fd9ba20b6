/** The four-level translation table.  Addresses are counted in pages of 4096
    bytes from the bottom of the 48-bit window (kernel or process) that the
    table translates; a table is a value, an entry at height `h` covers
    `Size(h)` pages, and level `l` of the source is height `4 - l`. */
module PageTable {
  import opened Wrappers

  const PAGES: int := 0x10_0000_0000
  const LAST: int := 0xf_ffff_ffff

  datatype Attr = Attr(sh: bv2, exec: bv2, rw: bv1, access: bv1, kind: bv2)

  datatype Space = Kernel | Process

  datatype Entry =
    | Invalid
    | Leaf(page: int, attr: Attr)
    | Table(entries: seq<Entry>)

  /** Pages under one entry of a table whose entries have height `h`. */
  function Size(h: nat): (n: nat)
    requires h <= 4
    ensures n > 0
  {
    if h == 0 then 1 else if h == 1 then 512 else if h == 2 then 262144 else if h == 3 then 134217728 else 68719476736
  }

  /** Entries are tables of 512 or leaves, and blocks exist up to 1 GiB. */
  ghost predicate WellFormed(e: Entry, h: nat)
    requires h <= 4
    decreases h, 0
  {
    match e
    case Invalid => true
    case Leaf(page, _) => h <= 2 && 0 <= page < PAGES
    case Table(es) => h > 0 && WellFormedTable(es, h - 1)
  }

  ghost predicate WellFormedTable(es: seq<Entry>, h: nat)
    requires h <= 3
    decreases h, 1
  {
    |es| == 512 && forall i :: 0 <= i < 512 ==> WellFormed(es[i], h)
  }

  function Index(p: nat, h: nat): (i: nat)
    requires h <= 3
    ensures i < 512
  {
    (p / Size(h)) % 512
  }

  /** The table walk: where page `p` is mapped. */
  ghost function Lookup(e: Entry, h: nat, p: nat): Option<(int, Attr)>
    requires h <= 4 && WellFormed(e, h)
    decreases h, 0
  {
    match e
    case Invalid => None
    case Leaf(page, attr) => Some(((page + p % Size(h)) % PAGES, attr))
    case Table(es) => LookupTable(es, h - 1, p)
  }

  ghost function LookupTable(es: seq<Entry>, h: nat, p: nat): Option<(int, Attr)>
    requires h <= 3 && WellFormedTable(es, h)
    decreases h, 1
  {
    Lookup(es[Index(p, h)], h, p)
  }

  // ----- where entries lie -----

  function Slot(b: nat, h: nat, i: nat): nat
    requires h <= 3
  {
    b + i * Size(h)
  }

  predicate Aligned(b: nat, h: nat)
    requires h <= 4
  {
    b % Size(h) == 0
  }

  lemma SlotFacts(b: nat, h: nat, i: nat)
    requires h <= 3 && Aligned(b, h + 1) && i < 512
    ensures Slot(b, h, i + 1) == Slot(b, h, i) + Size(h)
    ensures Aligned(Slot(b, h, i), h)
    ensures Slot(b, h, 0) == b && Slot(b, h, 512) == b + Size(h + 1)
    ensures b <= Slot(b, h, i) && Slot(b, h, i + 1) <= b + Size(h + 1)
  {
    AlignedSlot(b, h, i);
    hide Aligned;
  }

  lemma AlignedSlot(b: nat, h: nat, i: nat)
    requires h <= 3 && Aligned(b, h + 1)
    ensures Aligned(Slot(b, h, i), h)
  {
    if h == 1 {
      Multiple512(b, i);
    } else if h == 2 {
      Multiple18(b, i);
    } else if h == 3 {
      Multiple27(b, i);
    }
  }

  lemma Multiple512(b: nat, i: nat)
    requires b % 262144 == 0
    ensures (b + i * 512) % 512 == 0
  {
    var c := b / 262144;
    assert b + i * 512 == 512 * (512 * c + i);
  }

  lemma Multiple18(b: nat, i: nat)
    requires b % 134217728 == 0
    ensures (b + i * 262144) % 262144 == 0
  {
    var c := b / 134217728;
    assert b + i * 262144 == 262144 * (512 * c + i);
  }

  lemma Multiple27(b: nat, i: nat)
    requires b % 68719476736 == 0
    ensures (b + i * 134217728) % 134217728 == 0
  {
    var c := b / 68719476736;
    assert b + i * 134217728 == 134217728 * (512 * c + i);
  }

  lemma SlotMonotone(b: nat, h: nat, i: nat, j: nat)
    requires h <= 3 && i <= j
    ensures Slot(b, h, i) <= Slot(b, h, j)
  {
    if h == 0 {
    } else if h == 1 {
    } else if h == 2 {
    } else {
    }
  }

  lemma IndexOfSlot(b: nat, h: nat, p: nat)
    requires h <= 3 && Aligned(b, h + 1) && b <= p < b + Size(h + 1)
    ensures Slot(b, h, Index(p, h)) <= p < Slot(b, h, Index(p, h)) + Size(h)
  {
    var u, c := p / Size(h), b / Size(h + 1);
    if h == 0 {
      assert u == p && b == 512 * c;
    } else if h == 1 {
      assert b == 262144 * c && 512 * u <= p < 512 * u + 512;
    } else if h == 2 {
      assert b == 134217728 * c && 262144 * u <= p < 262144 * u + 262144;
    } else {
      assert b == 68719476736 * c && 134217728 * u <= p < 134217728 * u + 134217728;
    }
    assert 512 * c <= u < 512 * c + 512;
    Residue(u, c);
    assert Index(p, h) == u - 512 * c;
  }

  lemma Residue(u: nat, c: nat)
    requires 512 * c <= u < 512 * c + 512
    ensures u % 512 == u - 512 * c
  {
  }

  lemma SlotHolds(b: nat, h: nat, i: nat, p: nat)
    requires h <= 3 && Aligned(b, h + 1) && i < 512
    requires Slot(b, h, i) <= p < Slot(b, h, i) + Size(h)
    ensures Index(p, h) == i
  {
    hide Size, Slot, Aligned, Index;
    SlotFacts(b, h, i);
    IndexOfSlot(b, h, p);
    var j := Index(p, h);
    SlotFacts(b, h, j);
    if j < i {
      SlotMonotone(b, h, j + 1, i);
    } else if i < j {
      SlotMonotone(b, h, i + 1, j);
    }
  }

  lemma OffsetInSlot(s: nat, h: nat, p: nat)
    requires h <= 4 && Aligned(s, h) && s <= p < s + Size(h)
    ensures p % Size(h) == p - s
  {
    if h == 0 {
    } else if h == 1 {
    } else if h == 2 {
    } else if h == 3 {
    } else {
    }
  }

  // ----- mapping a range -----

  /** `lo - 1` and `hi + 1` as 64-bit addresses: they wrap below the process
      window and above the kernel window. */
  function Before(space: Space, lo: int): int
  {
    if space.Process? && lo == 0 then 0xf_ffff_ffff_ffff else lo - 1
  }

  function After(space: Space, hi: int): int
  {
    if space.Kernel? && hi == LAST then 0 - 0xf_fff0_0000_0000 else hi + 1
  }

  /** The neighbour of one end of the range wraps, and the block that maps
      page `p` is cut by the other end. */
  ghost predicate Cut(space: Space, e: Entry, h: nat, lo: int, hi: int, p: nat)
    requires h <= 4 && WellFormed(e, h)
    decreases h, 0
  {
    match e
    case Invalid => false
    case Leaf(_, _) =>
      var first := p - p % Size(h);
      var last := first + Size(h) - 1;
      (match space
       case Process => lo == 0 && first <= hi < last
       case Kernel => hi == LAST && first < lo <= last)
    case Table(es) => CutTable(space, es, h - 1, lo, hi, p)
  }

  ghost predicate CutTable(space: Space, es: seq<Entry>, h: nat, lo: int, hi: int, p: nat)
    requires h <= 3 && WellFormedTable(es, h)
    decreases h, 1
  {
    Cut(space, es[Index(p, h)], h, lo, hi, p)
  }

  /** What a mapping call leaves at page `p`: the new page inside the range,
      unless `p` lies in a cut block, and the old one elsewhere. */
  ghost function Mapped(cut: bool, was: Option<(int, Attr)>, lo: int, hi: int, page: int, attr: Attr, p: int): Option<(int, Attr)>
  {
    if !cut && lo <= p <= hi then Some(((page + (p - lo)) % PAGES, attr)) else was
  }

  ghost predicate EntryMapped(space: Space, e: Entry, r: Entry, h: nat, s: nat, lo: int, hi: int, page: int, attr: Attr)
    requires h <= 4
  {
    && WellFormed(e, h)
    && WellFormed(r, h)
    && forall p: nat :: s <= p < s + Size(h) ==>
         Lookup(r, h, p) == Mapped(Cut(space, e, h, lo, hi, p), Lookup(e, h, p), lo, hi, page, attr, p)
  }

  ghost predicate TableMapped(space: Space, t: seq<Entry>, r: seq<Entry>, h: nat, b: nat, lo: int, hi: int, page: int, attr: Attr)
    requires h <= 3
  {
    && WellFormedTable(t, h)
    && WellFormedTable(r, h)
    && forall p: nat :: b <= p < b + Size(h + 1) ==>
         LookupTable(r, h, p) == Mapped(CutTable(space, t, h, lo, hi, p), LookupTable(t, h, p), lo, hi, page, attr, p)
  }

  lemma {:induction false} CutBounds(space: Space, e: Entry, h: nat, lo: int, hi: int, p: nat)
    requires h <= 4 && WellFormed(e, h) && Cut(space, e, h, lo, hi, p)
    ensures Lookup(e, h, p).Some?
    ensures space.Process? ==> lo == 0 && hi < p + PAGES
    ensures space.Kernel? ==> hi == LAST && lo > 0
    decreases h
  {
    hide Index;
    if e.Table? {
      CutBounds(space, e.entries[Index(p, h - 1)], h - 1, lo, hi, p);
    }
  }

  lemma TableCutBounds(space: Space, es: seq<Entry>, h: nat, lo: int, hi: int, p: nat)
    requires h <= 3 && WellFormedTable(es, h) && CutTable(space, es, h, lo, hi, p)
    ensures LookupTable(es, h, p).Some?
    ensures space.Process? ==> lo == 0 && hi < p + PAGES
    ensures space.Kernel? ==> hi == LAST && lo > 0
  {
    hide Index, Lookup, Cut, WellFormed;
    CutBounds(space, es[Index(p, h)], h, lo, hi, p);
  }

  lemma AddUnderMod(x: int, y: int)
    ensures (x % PAGES + y) % PAGES == (x + y) % PAGES
  {
    var q := x / PAGES;
    assert x == PAGES * q + x % PAGES;
    var u := x % PAGES + y;
    assert x + y == PAGES * q + u;
    Shifted(u, q);
  }

  lemma Shifted(u: int, q: int)
    ensures (PAGES * q + u) % PAGES == u % PAGES
  {
    var a := u / PAGES;
    assert PAGES * q + u == PAGES * (q + a) + u % PAGES;
  }

  /** A whole entry replaced by a leaf. */
  lemma LeafResult(space: Space, e: Entry, h: nat, s: nat, lo: int, hi: int, page: int, attr: Attr)
    requires h <= 2 && WellFormed(e, h) && !e.Table? && Aligned(s, h)
    requires lo <= s && s + Size(h) - 1 <= hi
    ensures EntryMapped(space, e, Leaf((page + (s - lo)) % PAGES, attr), h, s, lo, hi, page, attr)
  {
    hide Size, Aligned;
    var r := Leaf((page + (s - lo)) % PAGES, attr);
    forall p: nat | s <= p < s + Size(h)
      ensures Lookup(r, h, p) == Mapped(Cut(space, e, h, lo, hi, p), Lookup(e, h, p), lo, hi, page, attr, p)
    {
      OffsetInSlot(s, h, p);
      AddUnderMod(page + (s - lo), p - s);
    }
  }

  ghost predicate Blank(t: seq<Entry>)
  {
    |t| == 512 && forall i :: 0 <= i < 512 ==> t[i] == Invalid
  }

  lemma BlankTable(space: Space, t: seq<Entry>, h: nat, lo: int, hi: int, p: nat)
    requires h <= 3 && Blank(t)
    ensures WellFormedTable(t, h) && LookupTable(t, h, p) == None && !CutTable(space, t, h, lo, hi, p)
  {
    hide Index;
  }

  /** An invalid entry replaced by a table. */
  lemma FreshResult(space: Space, t0: seq<Entry>, t1: seq<Entry>, h: nat, s: nat, lo: int, hi: int, page: int, attr: Attr)
    requires 0 < h <= 4 && Blank(t0) && TableMapped(space, t0, t1, h - 1, s, lo, hi, page, attr)
    ensures EntryMapped(space, Invalid, Table(t1), h, s, lo, hi, page, attr)
  {
    hide Size, Blank, Mapped, LookupTable, CutTable, WellFormedTable;
    forall p: nat | s <= p < s + Size(h)
      ensures Lookup(Table(t1), h, p) == Mapped(Cut(space, Invalid, h, lo, hi, p), Lookup(Invalid, h, p), lo, hi, page, attr, p)
    {
      BlankTable(space, t0, h - 1, lo, hi, p);
    }
  }

  /** A cut block at one page: the new mapping, then the block's own mapping
      below and above it. */
  lemma SplitPage(space: Space, e: Entry, t0: seq<Entry>, t1: seq<Entry>, t2: seq<Entry>, t3: seq<Entry>,
                  h: nat, s: nat, lo: int, hi: int, page: int, attr: Attr, p: nat)
    requires 0 < h <= 2 && WellFormed(e, h) && e.Leaf? && Aligned(s, h) && Blank(t0)
    requires s <= p < s + Size(h) <= PAGES
    requires lo <= hi && lo <= s + Size(h) - 1 && s <= hi && !(lo <= s && s + Size(h) - 1 <= hi)
    requires WellFormedTable(t0, h - 1) && WellFormedTable(t1, h - 1) && WellFormedTable(t2, h - 1) && WellFormedTable(t3, h - 1)
    requires LookupTable(t1, h - 1, p) == Mapped(CutTable(space, t0, h - 1, lo, hi, p), LookupTable(t0, h - 1, p), lo, hi, page, attr, p)
    requires LookupTable(t2, h - 1, p) == Mapped(CutTable(space, t1, h - 1, s, Before(space, lo), p), LookupTable(t1, h - 1, p),
                                                 s, Before(space, lo), e.page, e.attr, p)
    requires LookupTable(t3, h - 1, p) == Mapped(CutTable(space, t2, h - 1, After(space, hi), s + Size(h) - 1, p), LookupTable(t2, h - 1, p),
                                                 After(space, hi), s + Size(h) - 1, e.page + (After(space, hi) - s), e.attr, p)
    ensures LookupTable(t3, h - 1, p) == Mapped(Cut(space, e, h, lo, hi, p), Lookup(e, h, p), lo, hi, page, attr, p)
  {
    hide Size, Aligned, Blank, LookupTable, CutTable, WellFormedTable;
    OffsetInSlot(s, h, p);
    BlankTable(space, t0, h - 1, lo, hi, p);
    if CutTable(space, t1, h - 1, s, Before(space, lo), p) {
      TableCutBounds(space, t1, h - 1, s, Before(space, lo), p);
    }
    if CutTable(space, t2, h - 1, After(space, hi), s + Size(h) - 1, p) {
      TableCutBounds(space, t2, h - 1, After(space, hi), s + Size(h) - 1, p);
    }
  }

  lemma SplitResult(space: Space, e: Entry, t0: seq<Entry>, t1: seq<Entry>, t2: seq<Entry>, t3: seq<Entry>,
                    h: nat, s: nat, lo: int, hi: int, page: int, attr: Attr)
    requires 0 < h <= 2 && WellFormed(e, h) && e.Leaf? && Aligned(s, h) && Blank(t0) && s + Size(h) <= PAGES
    requires lo <= hi && lo <= s + Size(h) - 1 && s <= hi && !(lo <= s && s + Size(h) - 1 <= hi)
    requires TableMapped(space, t0, t1, h - 1, s, lo, hi, page, attr)
    requires TableMapped(space, t1, t2, h - 1, s, s, Before(space, lo), e.page, e.attr)
    requires TableMapped(space, t2, t3, h - 1, s, After(space, hi), s + Size(h) - 1, e.page + (After(space, hi) - s), e.attr)
    ensures EntryMapped(space, e, Table(t3), h, s, lo, hi, page, attr)
  {
    hide Size, Aligned, Blank, LookupTable, CutTable, WellFormedTable, Before, After, Mapped, Cut;
    forall p: nat | s <= p < s + Size(h)
      ensures Lookup(Table(t3), h, p) == Mapped(Cut(space, e, h, lo, hi, p), Lookup(e, h, p), lo, hi, page, attr, p)
    {
      SplitPage(space, e, t0, t1, t2, t3, h, s, lo, hi, page, attr, p);
      assert Lookup(Table(t3), h, p) == LookupTable(t3, h - 1, p);
    }
  }

  /** One entry that the range meets. */
  method MapEntry(space: Space, e: Entry, h: nat, s: nat, lo: int, hi: int, page: int, attr: Attr) returns (r: Entry)
    requires h <= 3 && WellFormed(e, h) && Aligned(s, h) && s + Size(h) <= PAGES
    requires lo <= hi && lo <= s + Size(h) - 1 && s <= hi
    ensures EntryMapped(space, e, r, h, s, lo, hi, page, attr)
    decreases h, 0
  {
    hide Size, Aligned, LookupTable, CutTable, WellFormedTable, Before, After, Mapped, TableMapped, EntryMapped;
    if e.Table? {
      var sub := MapTable(space, e.entries, h - 1, s, lo, hi, page, attr);
      TableResult(space, e.entries, sub, h, s, lo, hi, page, attr);
      return Table(sub);
    }
    var stop := s + Size(h) - 1;
    if h == 0 || (lo <= s && stop <= hi && h <= 2) {
      PageSize();
      LeafResult(space, e, h, s, lo, hi, page, attr);
      return Leaf((page + (s - lo)) % PAGES, attr);
    }
    var t0 := seq(512, _ => Invalid);
    BlankTable(space, t0, h - 1, lo, hi, 0);
    var t1 := MapTable(space, t0, h - 1, s, lo, hi, page, attr);
    if e.Leaf? {
      Formed(space, t0, t1, h - 1, s, lo, hi, page, attr);
      var t2 := MapTable(space, t1, h - 1, s, s, Before(space, lo), e.page, e.attr);
      Formed(space, t1, t2, h - 1, s, s, Before(space, lo), e.page, e.attr);
      var up := After(space, hi);
      var t3 := MapTable(space, t2, h - 1, s, up, stop, e.page + (up - s), e.attr);
      SplitResult(space, e, t0, t1, t2, t3, h, s, lo, hi, page, attr);
      return Table(t3);
    }
    FreshResult(space, t0, t1, h, s, lo, hi, page, attr);
    return Table(t1);
  }

  lemma PageSize()
    ensures Size(0) == 1
  {
  }

  lemma Formed(space: Space, t: seq<Entry>, r: seq<Entry>, h: nat, b: nat, lo: int, hi: int, page: int, attr: Attr)
    requires h <= 3 && TableMapped(space, t, r, h, b, lo, hi, page, attr)
    ensures WellFormedTable(r, h)
  {
  }

  lemma TableResult(space: Space, t: seq<Entry>, r: seq<Entry>, h: nat, s: nat, lo: int, hi: int, page: int, attr: Attr)
    requires 0 < h <= 4 && TableMapped(space, t, r, h - 1, s, lo, hi, page, attr)
    ensures EntryMapped(space, Table(t), Table(r), h, s, lo, hi, page, attr)
  {
    hide Size, LookupTable, CutTable, WellFormedTable, Mapped;
    forall p: nat | s <= p < s + Size(h)
      ensures Lookup(Table(r), h, p) == Mapped(Cut(space, Table(t), h, lo, hi, p), Lookup(Table(t), h, p), lo, hi, page, attr, p)
    {
      assert Lookup(Table(r), h, p) == LookupTable(r, h - 1, p);
    }
  }

  // ----- the loop over a table -----

  /** The entries before `i` are done, the others untouched. */
  ghost predicate TablePart(space: Space, t: seq<Entry>, r: seq<Entry>, h: nat, b: nat, lo: int, hi: int, page: int, attr: Attr, i: nat)
    requires h <= 3
  {
    && WellFormedTable(t, h)
    && WellFormedTable(r, h)
    && (forall j :: i <= j < 512 ==> r[j] == t[j])
    && forall p: nat :: b <= p < Slot(b, h, i) ==>
         LookupTable(r, h, p) == Mapped(CutTable(space, t, h, lo, hi, p), LookupTable(t, h, p), lo, hi, page, attr, p)
  }

  lemma Untouched(space: Space, t: seq<Entry>, h: nat, b: nat, lo: int, hi: int, page: int, attr: Attr)
    requires h <= 3 && WellFormedTable(t, h)
    requires hi < b || lo > b + Size(h + 1) - 1 || lo > hi
    ensures TableMapped(space, t, t, h, b, lo, hi, page, attr)
  {
    hide Size, LookupTable, CutTable, WellFormedTable;
  }

  lemma StartPart(space: Space, t: seq<Entry>, h: nat, b: nat, lo: int, hi: int, page: int, attr: Attr, from: nat, i: nat)
    requires h <= 3 && WellFormedTable(t, h) && Slot(b, h, i) <= from && (from == lo || from == b)
    ensures TablePart(space, t, t, h, b, lo, hi, page, attr, i)
  {
    hide Size, Slot, LookupTable, CutTable, WellFormed;
  }

  lemma Meets(b: nat, h: nat, first: nat, i: nat, end: nat, from: nat, to: nat)
    requires h <= 3 && Aligned(b, h + 1) && first <= i <= end < 512
    requires from < Slot(b, h, first) + Size(h) && Slot(b, h, end) <= to
    ensures Slot(b, h, i) <= to && from < Slot(b, h, i) + Size(h)
  {
    hide Size, Slot, Aligned;
    SlotMonotone(b, h, first, i);
    SlotMonotone(b, h, i, end);
  }

  lemma StepPart(space: Space, t: seq<Entry>, r: seq<Entry>, e: Entry, h: nat, b: nat, lo: int, hi: int, page: int, attr: Attr, i: nat)
    requires h <= 3 && Aligned(b, h + 1) && i < 512
    requires TablePart(space, t, r, h, b, lo, hi, page, attr, i)
    requires EntryMapped(space, t[i], e, h, Slot(b, h, i), lo, hi, page, attr)
    ensures TablePart(space, t, r[i := e], h, b, lo, hi, page, attr, i + 1)
  {
    hide Size, Slot, Index, Aligned, Lookup, Cut, WellFormed, Mapped;
    var r' := r[i := e];
    forall p: nat | b <= p < Slot(b, h, i + 1)
      ensures LookupTable(r', h, p) == Mapped(CutTable(space, t, h, lo, hi, p), LookupTable(t, h, p), lo, hi, page, attr, p)
    {
      SlotFacts(b, h, i);
      IndexOfSlot(b, h, p);
      var j := Index(p, h);
      if p < Slot(b, h, i) {
        if j >= i {
          SlotMonotone(b, h, i, j);
        }
      } else {
        SlotHolds(b, h, i, p);
      }
    }
  }

  lemma EndPart(space: Space, t: seq<Entry>, r: seq<Entry>, h: nat, b: nat, lo: int, hi: int, page: int, attr: Attr, to: nat, i: nat)
    requires h <= 3 && Aligned(b, h + 1) && 0 < i <= 512
    requires TablePart(space, t, r, h, b, lo, hi, page, attr, i)
    requires to < Slot(b, h, i) && (to == hi || to == b + Size(h + 1) - 1)
    ensures TableMapped(space, t, r, h, b, lo, hi, page, attr)
  {
    hide Size, Slot, Index, Aligned, Lookup, Cut, WellFormed;
    forall p: nat | b <= p < b + Size(h + 1)
      ensures LookupTable(r, h, p) == Mapped(CutTable(space, t, h, lo, hi, p), LookupTable(t, h, p), lo, hi, page, attr, p)
    {
      if p >= Slot(b, h, i) {
        IndexOfSlot(b, h, p);
        var j := Index(p, h);
        if j < i {
          SlotFacts(b, h, j);
          SlotMonotone(b, h, j + 1, i);
        }
      }
    }
  }

  lemma Ordered(b: nat, h: nat, i: nat, j: nat, from: nat, to: nat)
    requires h <= 3 && Aligned(b, h + 1) && from <= to && i < 512 && j < 512
    requires Slot(b, h, i) <= from && to < Slot(b, h, j) + Size(h)
    ensures i <= j
  {
    hide Size, Slot, Aligned;
    SlotFacts(b, h, j);
    if j < i {
      SlotMonotone(b, h, j + 1, i);
    }
  }

  /** The loop over the entries of one table. */
  method MapTable(space: Space, t: seq<Entry>, h: nat, b: nat, lo: int, hi: int, page: int, attr: Attr) returns (r: seq<Entry>)
    requires h <= 3 && WellFormedTable(t, h) && Aligned(b, h + 1) && b + Size(h + 1) <= PAGES
    ensures TableMapped(space, t, r, h, b, lo, hi, page, attr)
    decreases h, 1
  {
    hide Size, Aligned, Slot, Index, WellFormed, Lookup, Cut, Mapped, EntryMapped, TableMapped, TablePart;
    var last := b + Size(h + 1) - 1;
    r := t;
    if hi < b || lo > last || lo > hi {
      Untouched(space, t, h, b, lo, hi, page, attr);
      return;
    }
    var from: nat := if lo > b then lo else b;
    var to: nat := if hi < last then hi else last;
    IndexOfSlot(b, h, from);
    IndexOfSlot(b, h, to);
    var first, end := Index(from, h), Index(to, h);
    Ordered(b, h, first, end, from, to);
    StartPart(space, t, h, b, lo, hi, page, attr, from, first);
    var i := first;
    while i <= end
      invariant first <= i <= end + 1
      invariant |r| == 512
      invariant TablePart(space, t, r, h, b, lo, hi, page, attr, i)
    {
      SlotFacts(b, h, i);
      Meets(b, h, first, i, end, from, to);
      Remaining(space, t, r, h, b, lo, hi, page, attr, i);
      var e := MapEntry(space, r[i], h, Slot(b, h, i), lo, hi, page, attr);
      StepPart(space, t, r, e, h, b, lo, hi, page, attr, i);
      r := r[i := e];
      i := i + 1;
    }
    SlotFacts(b, h, end);
    EndPart(space, t, r, h, b, lo, hi, page, attr, to, i);
  }

  lemma Remaining(space: Space, t: seq<Entry>, r: seq<Entry>, h: nat, b: nat, lo: int, hi: int, page: int, attr: Attr, i: nat)
    requires h <= 3 && i < 512 && TablePart(space, t, r, h, b, lo, hi, page, attr, i)
    ensures |r| == |t| == 512 && r[i] == t[i] && WellFormed(t[i], h)
  {
  }

  // ----- byte addresses -----

  function Base(space: Space): nat
  {
    if space.Kernel? then 0xffff_0000_0000_0000 else 0
  }

  predicate CheckVa(space: Space, va: nat)
  {
    Base(space) <= va <= Base(space) + 0xffff_ffff_ffff && va % 4096 == 0
  }

  function PageOf(space: Space, va: nat): nat
    requires Base(space) <= va
  {
    (va - Base(space)) / 4096
  }

  method MapRange(space: Space, t: seq<Entry>, vaStart: nat, vaEnd: nat, pa: nat, attr: Attr) returns (ok: bool, r: seq<Entry>)
    requires WellFormedTable(t, 3)
    ensures ok <==> CheckVa(space, vaStart) && CheckVa(space, vaEnd)
    ensures ok ==> TableMapped(space, t, r, 3, 0, PageOf(space, vaStart), PageOf(space, vaEnd), pa / 4096, attr)
    ensures !ok ==> r == t
  {
    hide WellFormedTable, TableMapped;
    if !CheckVa(space, vaStart) || !CheckVa(space, vaEnd) {
      return false, t;
    }
    r := MapTable(space, t, 3, 0, PageOf(space, vaStart), PageOf(space, vaEnd), pa / 4096, attr);
    ok := true;
  }

  // ----- when the mapping is the one asked for -----

  /** The end of the range opposite to the wrapping edge. */
  function FarEnd(space: Space, lo: int, hi: int): int
  {
    if space.Process? then hi else lo
  }

  /** A cut block always holds the far end, and maps its pages in one run. */
  lemma {:induction false} CutHoldsFarEnd(space: Space, e: Entry, h: nat, s: nat, lo: nat, hi: nat, p: nat) returns (x: int, a: Attr)
    requires h <= 4 && WellFormed(e, h) && Aligned(s, h) && s <= p < s + Size(h)
    requires Cut(space, e, h, lo, hi, p)
    ensures var far := FarEnd(space, lo, hi);
            && s <= far < s + Size(h)
            && Cut(space, e, h, lo, hi, far)
            && Lookup(e, h, far) == Some(((x + far) % PAGES, a))
    ensures Lookup(e, h, p) == Some(((x + p) % PAGES, a))
    decreases h
  {
    hide Size, Slot, Aligned, Index;
    var far := FarEnd(space, lo, hi);
    if e.Leaf? {
      OffsetInSlot(s, h, p);
      OffsetInSlot(s, h, far);
      x, a := e.page - s, e.attr;
    } else {
      var i := Index(p, h - 1);
      IndexOfSlot(s, h - 1, p);
      SlotFacts(s, h - 1, i);
      x, a := CutHoldsFarEnd(space, e.entries[i], h - 1, Slot(s, h - 1, i), lo, hi, p);
      SlotHolds(s, h - 1, i, far);
    }
  }

  /** The range is mapped as asked and nothing else changes. */
  ghost predicate MapsExactly(t: seq<Entry>, r: seq<Entry>, lo: int, hi: int, page: int, attr: Attr)
    requires WellFormedTable(t, 3) && WellFormedTable(r, 3)
  {
    forall p: nat :: p < PAGES ==>
      LookupTable(r, 3, p) == Mapped(false, LookupTable(t, 3, p), lo, hi, page, attr, p)
  }

  /** A mapping call does what it was asked exactly when the far end of the
      range does not cut a block on a wrapping edge, or was mapped so before. */
  lemma MapsExactlyIff(space: Space, t: seq<Entry>, r: seq<Entry>, lo: nat, hi: nat, page: int, attr: Attr)
    requires TableMapped(space, t, r, 3, 0, lo, hi, page, attr) && lo <= hi < PAGES
    ensures var far := FarEnd(space, lo, hi);
            MapsExactly(t, r, lo, hi, page, attr) <==>
              (CutTable(space, t, 3, lo, hi, far) ==> LookupTable(t, 3, far) == Some(((page + (far - lo)) % PAGES, attr)))
  {
    hide Lookup, Cut, Index, WellFormed, CutTable, LookupTable;
    var far := FarEnd(space, lo, hi);
    if CutTable(space, t, 3, lo, hi, far) ==> LookupTable(t, 3, far) == Some(((page + (far - lo)) % PAGES, attr)) {
      forall p: nat | p < PAGES
        ensures LookupTable(r, 3, p) == Mapped(false, LookupTable(t, 3, p), lo, hi, page, attr, p)
      {
        if CutTable(space, t, 3, lo, hi, p) && lo <= p <= hi {
          CutPage(space, t, lo, hi, page, attr, p);
        }
      }
    }
  }

  lemma CutPage(space: Space, t: seq<Entry>, lo: nat, hi: nat, page: int, attr: Attr, p: nat)
    requires WellFormedTable(t, 3) && p < PAGES && CutTable(space, t, 3, lo, hi, p)
    ensures var far := FarEnd(space, lo, hi);
            && far < PAGES && CutTable(space, t, 3, lo, hi, far)
            && (LookupTable(t, 3, far) == Some(((page + (far - lo)) % PAGES, attr)) ==>
                  LookupTable(t, 3, p) == Some(((page + (p - lo)) % PAGES, attr)))
  {
    hide Index, CutTable, LookupTable, WellFormedTable;
    var far := FarEnd(space, lo, hi);
    assert WellFormed(Table(t), 4) && Cut(space, Table(t), 4, lo, hi, p);
    var x, a := CutHoldsFarEnd(space, Table(t), 4, 0, lo, hi, p);
    assert Lookup(Table(t), 4, far) == LookupTable(t, 3, far);
    assert Lookup(Table(t), 4, p) == LookupTable(t, 3, p);
    if (x + far) % PAGES == (page + (far - lo)) % PAGES {
      AddUnderMod(x + far, p - far);
      AddUnderMod(page + (far - lo), p - far);
    }
  }

  /** It can fail: a process table with one block at the bottom, of which one
      page is to be remapped, keeps translating that page as before. */
  lemma FirstPageOfABlockIsKept(attr: Attr, r: seq<Entry>, was: Attr)
    requires var block := seq(512, i => if i == 0 then Leaf(0, was) else Invalid);
             var t := seq(512, i => if i == 0 then Table(seq(512, i => if i == 0 then Table(block) else Invalid)) else Invalid);
             TableMapped(Process, t, r, 3, 0, 0, 0, 7, attr)
    ensures LookupTable(r, 3, 0) == Some((0, was))
  {
  }

  // ----- addresses -----

  /** Bytes under one entry of a table whose entries have height h: 2^(12 + 9h). */
  function Span(h: nat): (n: nat)
    requires h <= 3
    ensures n > 0
  {
    match h
    case 0 => 0x1000 case 1 => 0x20_0000 case 2 => 0x4000_0000 case _ => 0x80_0000_0000
  }

  /** An address is accepted exactly if its upper sixteen bits are those of its space and
      its lower twelve are clear; nine bits of it number the entry at each level. */
  lemma AddressBits(space: Space, va: nat, h: nat)
    requires va < 0x1_0000_0000_0000_0000 && h <= 3
    ensures CheckVa(space, va) <==> va / 0x1_0000_0000_0000 == (if space.Kernel? then 0xffff else 0) && va % 4096 == 0
    ensures CheckVa(space, va) ==> Index(PageOf(space, va), h) == va / Span(h) % 512
  {
    hide PageOf, Index;
    if CheckVa(space, va) {
      PageBits(space, va, h);
    }
  }

  lemma PageBits(space: Space, va: nat, h: nat)
    requires CheckVa(space, va) && h <= 3
    ensures Index(PageOf(space, va), h) == va / Span(h) % 512
  {
    var p := PageOf(space, va);
    var k := if space.Kernel? then 0xf_fff0_0000_0000 else 0;
    assert va == 4096 * (p + k);
    match h {
      case 0 => Level0(p, k);
      case 1 => Level1(p, k);
      case 2 => Level2(p, k);
      case _ => Level3(p, k);
    }
  }

  lemma Level0(p: nat, k: nat)
    requires k == 0xf_fff0_0000_0000 || k == 0
    ensures p % 512 == 4096 * (p + k) / 0x1000 % 512
  {
  }

  lemma Level1(p: nat, k: nat)
    requires k == 0xf_fff0_0000_0000 || k == 0
    ensures p / 512 % 512 == 4096 * (p + k) / 0x20_0000 % 512
  {
    assert 4096 * (p + k) / 0x20_0000 == p / 512 + k / 512;
  }

  lemma Level2(p: nat, k: nat)
    requires k == 0xf_fff0_0000_0000 || k == 0
    ensures p / 262144 % 512 == 4096 * (p + k) / 0x4000_0000 % 512
  {
    assert 4096 * (p + k) / 0x4000_0000 == p / 262144 + k / 262144;
  }

  lemma Level3(p: nat, k: nat)
    requires k == 0xf_fff0_0000_0000 || k == 0
    ensures p / 134217728 % 512 == 4096 * (p + k) / 0x80_0000_0000 % 512
  {
    assert 4096 * (p + k) / 0x80_0000_0000 == p / 134217728 + k / 134217728;
  }
}
