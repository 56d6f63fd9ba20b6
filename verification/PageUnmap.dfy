/** Unmapping a range, and exactly which pages disappear.  The code takes the end
    of an entry from the start of its table, which is right for the first entry
    of a table only. */
module PageUnmap {
  import opened Wrappers
  import opened PageTable

  /** The entry number `i` over the pages `first..last` is dropped as a whole. */
  predicate Whole(i: nat, first: int, last: int, lo: int, hi: int)
  {
    lo <= first && (i > 0 || last <= hi)
  }

  /** Page `p` disappears; `i` is the number of the entry `e` in its table. */
  ghost predicate Gone(space: Space, e: Entry, h: nat, i: nat, lo: int, hi: int, p: nat)
    requires h <= 3 && WellFormed(e, h)
    decreases h, 0
  {
    var first := p - p % Size(h);
    var last := first + Size(h) - 1;
    && lo <= hi && lo <= last && first <= hi
    && match e
       case Invalid => false
       case Leaf(_, _) => if h == 0 then true else if i > 0 then lo <= p else lo <= p <= hi && !Cut(space, e, h, lo, hi, p)
       case Table(es) => Whole(i, first, last, lo, hi) || GoneTable(space, es, h - 1, lo, hi, p)
  }

  ghost predicate GoneTable(space: Space, es: seq<Entry>, h: nat, lo: int, hi: int, p: nat)
    requires h <= 3 && WellFormedTable(es, h)
    decreases h, 1
  {
    Gone(space, es[Index(p, h)], h, Index(p, h), lo, hi, p)
  }

  ghost function Left(gone: bool, was: Option<(int, Attr)>): Option<(int, Attr)>
  {
    if gone then None else was
  }

  ghost predicate EntryUnmapped(space: Space, e: Entry, r: Entry, h: nat, i: nat, s: nat, lo: int, hi: int)
    requires h <= 3
  {
    && WellFormed(e, h)
    && WellFormed(r, h)
    && forall p: nat :: s <= p < s + Size(h) ==> Lookup(r, h, p) == Left(Gone(space, e, h, i, lo, hi, p), Lookup(e, h, p))
  }

  ghost predicate TableUnmapped(space: Space, t: seq<Entry>, r: seq<Entry>, h: nat, b: nat, lo: int, hi: int)
    requires h <= 3
  {
    && WellFormedTable(t, h)
    && WellFormedTable(r, h)
    && forall p: nat :: b <= p < b + Size(h + 1) ==>
         LookupTable(r, h, p) == Left(GoneTable(space, t, h, lo, hi, p), LookupTable(t, h, p))
  }

  // ----- one entry -----

  /** A dropped page or block. */
  lemma Erased(space: Space, e: Entry, h: nat, i: nat, s: nat, lo: int, hi: int)
    requires h <= 3 && WellFormed(e, h) && Aligned(s, h)
    requires lo <= hi && lo <= s + Size(h) - 1 && s <= hi
    requires e.Invalid? || h == 0 || Whole(i, s, s + Size(h) - 1, lo, hi)
    ensures EntryUnmapped(space, e, Invalid, h, i, s, lo, hi)
  {
    hide Size, Aligned, GoneTable, LookupTable, WellFormedTable;
    forall p: nat | s <= p < s + Size(h)
      ensures Lookup(Invalid, h, p) == Left(Gone(space, e, h, i, lo, hi, p), Lookup(e, h, p))
    {
      OffsetInSlot(s, h, p);
    }
  }

  /** A split block at one page: its mapping is restored below and above. */
  lemma SplitLeft(space: Space, e: Entry, t0: seq<Entry>, t1: seq<Entry>, t2: seq<Entry>,
                  h: nat, i: nat, s: nat, last: int, lo: int, hi: int, p: nat)
    requires 0 < h <= 2 && WellFormed(e, h) && e.Leaf? && Aligned(s, h) && Blank(t0)
    requires s <= p < s + Size(h) <= PAGES && (if i == 0 then last == s + Size(h) - 1 else last < s)
    requires lo <= hi && lo <= s + Size(h) - 1 && s <= hi && !Whole(i, s, s + Size(h) - 1, lo, hi)
    requires WellFormedTable(t0, h - 1) && WellFormedTable(t1, h - 1) && WellFormedTable(t2, h - 1)
    requires LookupTable(t1, h - 1, p) == Mapped(CutTable(space, t0, h - 1, s, Before(space, lo), p), LookupTable(t0, h - 1, p),
                                                 s, Before(space, lo), e.page, e.attr, p)
    requires LookupTable(t2, h - 1, p) == Mapped(CutTable(space, t1, h - 1, After(space, hi), last, p), LookupTable(t1, h - 1, p),
                                                 After(space, hi), last, e.page + (After(space, hi) - s), e.attr, p)
    ensures LookupTable(t2, h - 1, p) == Left(Gone(space, e, h, i, lo, hi, p), Lookup(e, h, p))
  {
    hide Size, Aligned, Blank, LookupTable, CutTable, WellFormedTable;
    OffsetInSlot(s, h, p);
    BlankTable(space, t0, h - 1, s, Before(space, lo), p);
    if CutTable(space, t1, h - 1, After(space, hi), last, p) {
      TableCutBounds(space, t1, h - 1, After(space, hi), last, p);
    }
  }

  lemma SplitUnmapped(space: Space, e: Entry, t0: seq<Entry>, t1: seq<Entry>, t2: seq<Entry>,
                      h: nat, i: nat, s: nat, last: int, lo: int, hi: int)
    requires 0 < h <= 2 && WellFormed(e, h) && e.Leaf? && Aligned(s, h) && Blank(t0)
    requires s + Size(h) <= PAGES && (if i == 0 then last == s + Size(h) - 1 else last < s)
    requires lo <= hi && lo <= s + Size(h) - 1 && s <= hi && !Whole(i, s, s + Size(h) - 1, lo, hi)
    requires TableMapped(space, t0, t1, h - 1, s, s, Before(space, lo), e.page, e.attr)
    requires TableMapped(space, t1, t2, h - 1, s, After(space, hi), last, e.page + (After(space, hi) - s), e.attr)
    ensures EntryUnmapped(space, e, Table(t2), h, i, s, lo, hi)
  {
    hide Size, Aligned, Blank, LookupTable, CutTable, WellFormedTable, Before, After, Mapped, Gone;
    forall p: nat | s <= p < s + Size(h)
      ensures Lookup(Table(t2), h, p) == Left(Gone(space, e, h, i, lo, hi, p), Lookup(e, h, p))
    {
      SplitLeft(space, e, t0, t1, t2, h, i, s, last, lo, hi, p);
      assert Lookup(Table(t2), h, p) == LookupTable(t2, h - 1, p);
    }
  }

  lemma SubTable(space: Space, t: seq<Entry>, r: seq<Entry>, h: nat, i: nat, s: nat, lo: int, hi: int)
    requires 0 < h <= 3 && Aligned(s, h) && TableUnmapped(space, t, r, h - 1, s, lo, hi)
    requires lo <= hi && lo <= s + Size(h) - 1 && s <= hi && !Whole(i, s, s + Size(h) - 1, lo, hi)
    ensures EntryUnmapped(space, Table(t), Table(r), h, i, s, lo, hi)
  {
    hide Size, Aligned, GoneTable, LookupTable, WellFormedTable;
    forall p: nat | s <= p < s + Size(h)
      ensures Lookup(Table(r), h, p) == Left(Gone(space, Table(t), h, i, lo, hi, p), Lookup(Table(t), h, p))
    {
      OffsetInSlot(s, h, p);
      assert Lookup(Table(r), h, p) == LookupTable(r, h - 1, p);
    }
  }

  /** One entry that the range meets: entry `i` of the table at `b`. */
  method UnmapEntry(space: Space, e: Entry, h: nat, b: nat, i: nat, lo: int, hi: int) returns (r: Entry)
    requires h <= 3 && WellFormed(e, h) && Aligned(b, h + 1) && b + Size(h + 1) <= PAGES && i < 512
    requires lo <= hi && lo <= Slot(b, h, i) + Size(h) - 1 && Slot(b, h, i) <= hi
    ensures EntryUnmapped(space, e, r, h, i, Slot(b, h, i), lo, hi)
    decreases h, 0
  {
    hide Size, Aligned, Slot, LookupTable, WellFormedTable, Before, After, TableMapped, EntryUnmapped, TableUnmapped;
    var s := Slot(b, h, i);
    var stop := b + Size(h) - 1;
    SlotFacts(b, h, i);
    FirstStop(b, h, i, lo, hi);
    match e {
      case Invalid =>
        Erased(space, e, h, i, s, lo, hi);
        return Invalid;
      case Leaf(page, attr) =>
        if h == 0 {
          Erased(space, e, h, i, s, lo, hi);
          return Invalid;
        }
        if lo <= s && stop <= hi {
          Erased(space, e, h, i, s, lo, hi);
          return Invalid;
        }
        var t0 := seq(512, _ => Invalid);
        BlankTable(space, t0, h - 1, lo, hi, 0);
        var t1 := MapTable(space, t0, h - 1, s, s, Before(space, lo), page, attr);
        Formed(space, t0, t1, h - 1, s, s, Before(space, lo), page, attr);
        var up := After(space, hi);
        var t2 := MapTable(space, t1, h - 1, s, up, stop, page + (up - s), attr);
        SplitUnmapped(space, e, t0, t1, t2, h, i, s, stop, lo, hi);
        return Table(t2);
      case Table(es) =>
        var sub := UnmapTable(space, es, h - 1, s, lo, hi);
        if lo <= s && stop <= hi {
          Erased(space, e, h, i, s, lo, hi);
          return Invalid;
        }
        SubTable(space, es, sub, h, i, s, lo, hi);
        return Table(sub);
    }
  }

  /** The end that the code computes: right for the first entry, before the
      entry for every other. */
  lemma FirstStop(b: nat, h: nat, i: nat, lo: int, hi: int)
    requires h <= 3 && Aligned(b, h + 1) && i < 512 && Slot(b, h, i) <= hi
    ensures var s, stop := Slot(b, h, i), b + Size(h) - 1;
            && (if i == 0 then stop == s + Size(h) - 1 else stop < s)
            && (lo <= s && stop <= hi <==> Whole(i, s, s + Size(h) - 1, lo, hi))
  {
    hide Size, Aligned, Slot;
    SlotFacts(b, h, 0);
    if i > 0 {
      SlotMonotone(b, h, 1, i);
    }
  }

  // ----- the loop over a table -----

  ghost predicate UnmapPart(space: Space, t: seq<Entry>, r: seq<Entry>, h: nat, b: nat, lo: int, hi: int, i: nat)
    requires h <= 3
  {
    && WellFormedTable(t, h)
    && WellFormedTable(r, h)
    && (forall j :: i <= j < 512 ==> r[j] == t[j])
    && forall p: nat :: b <= p < Slot(b, h, i) ==>
         LookupTable(r, h, p) == Left(GoneTable(space, t, h, lo, hi, p), LookupTable(t, h, p))
  }

  /** Entries that the range does not meet lose nothing. */
  lemma NotMet(space: Space, t: seq<Entry>, h: nat, b: nat, lo: int, hi: int, p: nat)
    requires h <= 3 && WellFormedTable(t, h) && Aligned(b, h + 1) && b <= p < b + Size(h + 1)
    requires var s := Slot(b, h, Index(p, h)); !(lo <= hi && lo <= s + Size(h) - 1 && s <= hi)
    ensures !GoneTable(space, t, h, lo, hi, p)
  {
    hide Size, Aligned, Slot, Index, WellFormed, Lookup;
    IndexOfSlot(b, h, p);
    SlotFacts(b, h, Index(p, h));
    OffsetInSlot(Slot(b, h, Index(p, h)), h, p);
  }

  lemma NothingMet(space: Space, t: seq<Entry>, h: nat, b: nat, lo: int, hi: int)
    requires h <= 3 && WellFormedTable(t, h) && Aligned(b, h + 1)
    requires hi < b || lo > b + Size(h + 1) - 1 || lo > hi
    ensures TableUnmapped(space, t, t, h, b, lo, hi)
  {
    hide Size, Aligned, Slot, Index, GoneTable, LookupTable, WellFormedTable;
    forall p: nat | b <= p < b + Size(h + 1)
      ensures LookupTable(t, h, p) == Left(GoneTable(space, t, h, lo, hi, p), LookupTable(t, h, p))
    {
      SlotFacts(b, h, Index(p, h));
      NotMet(space, t, h, b, lo, hi, p);
    }
  }

  lemma UnmapStart(space: Space, t: seq<Entry>, h: nat, b: nat, lo: int, hi: int, i: nat)
    requires h <= 3 && WellFormedTable(t, h) && Aligned(b, h + 1) && i < 512 && (Slot(b, h, i) <= lo || i == 0)
    ensures UnmapPart(space, t, t, h, b, lo, hi, i)
  {
    hide Size, Aligned, Slot, Index, GoneTable, LookupTable, WellFormedTable;
    SlotFacts(b, h, i);
    forall p: nat | b <= p < Slot(b, h, i)
      ensures LookupTable(t, h, p) == Left(GoneTable(space, t, h, lo, hi, p), LookupTable(t, h, p))
    {
      IndexOfSlot(b, h, p);
      var j := Index(p, h);
      if j >= i {
        SlotMonotone(b, h, i, j);
      } else {
        SlotFacts(b, h, j);
        SlotMonotone(b, h, j + 1, i);
        NotMet(space, t, h, b, lo, hi, p);
      }
    }
  }

  lemma UnmapStep(space: Space, t: seq<Entry>, r: seq<Entry>, e: Entry, h: nat, b: nat, lo: int, hi: int, i: nat)
    requires h <= 3 && Aligned(b, h + 1) && i < 512
    requires UnmapPart(space, t, r, h, b, lo, hi, i)
    requires EntryUnmapped(space, t[i], e, h, i, Slot(b, h, i), lo, hi)
    ensures UnmapPart(space, t, r[i := e], h, b, lo, hi, i + 1)
  {
    hide Size, Slot, Index, Aligned, Lookup, Gone, WellFormed;
    var r' := r[i := e];
    forall p: nat | b <= p < Slot(b, h, i + 1)
      ensures LookupTable(r', h, p) == Left(GoneTable(space, t, h, lo, hi, p), LookupTable(t, h, p))
    {
      SlotFacts(b, h, i);
      IndexOfSlot(b, h, p);
      var j := Index(p, h);
      if p < Slot(b, h, i) {
        if j >= i {
          SlotMonotone(b, h, i, j);
        }
      } else {
        SlotHolds(b, h, i, p);
      }
    }
  }

  lemma UnmapEnd(space: Space, t: seq<Entry>, r: seq<Entry>, h: nat, b: nat, lo: int, hi: int, i: nat)
    requires h <= 3 && Aligned(b, h + 1) && 0 < i <= 512
    requires UnmapPart(space, t, r, h, b, lo, hi, i)
    requires hi < Slot(b, h, i) || i == 512
    ensures TableUnmapped(space, t, r, h, b, lo, hi)
  {
    hide Size, Slot, Index, Aligned, Lookup, Gone, WellFormed;
    forall p: nat | b <= p < b + Size(h + 1)
      ensures LookupTable(r, h, p) == Left(GoneTable(space, t, h, lo, hi, p), LookupTable(t, h, p))
    {
      if p >= Slot(b, h, i) {
        IndexOfSlot(b, h, p);
        var j := Index(p, h);
        SlotFacts(b, h, j);
        if j < i {
          SlotMonotone(b, h, j + 1, i);
        } else {
          SlotMonotone(b, h, i, j);
          NotMet(space, t, h, b, lo, hi, p);
        }
      }
    }
  }

  lemma UnmapRemaining(space: Space, t: seq<Entry>, r: seq<Entry>, h: nat, b: nat, lo: int, hi: int, i: nat)
    requires h <= 3 && i < 512 && UnmapPart(space, t, r, h, b, lo, hi, i)
    ensures |r| == |t| == 512 && r[i] == t[i] && WellFormed(t[i], h)
  {
  }

  method UnmapTable(space: Space, t: seq<Entry>, h: nat, b: nat, lo: int, hi: int) returns (r: seq<Entry>)
    requires h <= 3 && WellFormedTable(t, h) && Aligned(b, h + 1) && b + Size(h + 1) <= PAGES
    ensures TableUnmapped(space, t, r, h, b, lo, hi)
    decreases h, 1
  {
    hide Size, Aligned, Slot, Index, WellFormed, Lookup, Gone, EntryUnmapped, TableUnmapped, UnmapPart;
    var last := b + Size(h + 1) - 1;
    r := t;
    if hi < b || lo > last || lo > hi {
      NothingMet(space, t, h, b, lo, hi);
      return;
    }
    var from: nat := if lo > b then lo else b;
    var to: nat := if hi < last then hi else last;
    IndexOfSlot(b, h, from);
    IndexOfSlot(b, h, to);
    var first, end := Index(from, h), Index(to, h);
    Ordered(b, h, first, end, from, to);
    SlotFacts(b, h, first);
    SlotHolds(b, h, first, from);
    BaseIndex(b, h);
    UnmapStart(space, t, h, b, lo, hi, first);
    var i := first;
    while i <= end
      invariant first <= i <= end + 1
      invariant |r| == 512
      invariant UnmapPart(space, t, r, h, b, lo, hi, i)
    {
      SlotFacts(b, h, i);
      Meets(b, h, first, i, end, from, to);
      UnmapRemaining(space, t, r, h, b, lo, hi, i);
      var e := UnmapEntry(space, r[i], h, b, i, lo, hi);
      UnmapStep(space, t, r, e, h, b, lo, hi, i);
      r := r[i := e];
      i := i + 1;
    }
    SlotFacts(b, h, end);
    if to == last && end < 511 {
      SlotMonotone(b, h, end + 1, 511);
      SlotFacts(b, h, 511);
    }
    UnmapEnd(space, t, r, h, b, lo, hi, i);
  }

  lemma BaseIndex(b: nat, h: nat)
    requires h <= 3 && Aligned(b, h + 1)
    ensures Index(b, h) == 0
  {
    hide Size, Aligned, Slot, Index;
    SlotFacts(b, h, 0);
    SlotHolds(b, h, 0, b);
  }

  method UnmapRange(space: Space, t: seq<Entry>, vaStart: nat, vaEnd: nat) returns (ok: bool, r: seq<Entry>)
    requires WellFormedTable(t, 3)
    ensures ok <==> CheckVa(space, vaStart) && CheckVa(space, vaEnd)
    ensures ok ==> TableUnmapped(space, t, r, 3, 0, PageOf(space, vaStart), PageOf(space, vaEnd))
    ensures !ok ==> r == t
  {
    hide WellFormedTable, TableUnmapped;
    if !CheckVa(space, vaStart) || !CheckVa(space, vaEnd) {
      return false, t;
    }
    r := UnmapTable(space, t, 3, 0, PageOf(space, vaStart), PageOf(space, vaEnd));
    ok := true;
  }

  // ----- which pages disappear -----

  /** The last page that an unmapping up to `hi` takes along: the end of the
      outermost entry over `hi` that is not the first of its table and is a block
      or starts inside the range; `hi` itself when there is none. */
  ghost function Reach(e: Entry, h: nat, i: nat, s: nat, lo: int, hi: nat): int
    requires h <= 3 && WellFormed(e, h)
    decreases h, 0
  {
    match e
    case Invalid => hi
    case Leaf(_, _) => if h > 0 && i > 0 then s + Size(h) - 1 else hi
    case Table(es) => if i > 0 && lo <= s then s + Size(h) - 1 else ReachTable(es, h - 1, s, lo, hi)
  }

  ghost function ReachTable(es: seq<Entry>, h: nat, b: nat, lo: int, hi: nat): int
    requires h <= 3 && WellFormedTable(es, h)
    decreases h, 1
  {
    var j := Index(hi, h);
    Reach(es[j], h, j, Slot(b, h, j), lo, hi)
  }

  /** A block at the first place of its table that a wrapping range cuts: it
      stays as it was. */
  ghost predicate Kept(space: Space, e: Entry, h: nat, i: nat, lo: int, hi: int, p: nat)
    requires h <= 3 && WellFormed(e, h)
    decreases h, 0
  {
    var first := p - p % Size(h);
    match e
    case Invalid => false
    case Leaf(_, _) => i == 0 && Cut(space, e, h, lo, hi, p)
    case Table(es) => !Whole(i, first, first + Size(h) - 1, lo, hi) && KeptTable(space, es, h - 1, lo, hi, p)
  }

  ghost predicate KeptTable(space: Space, es: seq<Entry>, h: nat, lo: int, hi: int, p: nat)
    requires h <= 3 && WellFormedTable(es, h)
    decreases h, 1
  {
    Kept(space, es[Index(p, h)], h, Index(p, h), lo, hi, p)
  }

  lemma {:induction false} GoneInside(space: Space, e: Entry, h: nat, i: nat, lo: int, hi: int, p: nat)
    requires h <= 3 && WellFormed(e, h) && lo <= p <= hi && Lookup(e, h, p).Some?
    ensures Gone(space, e, h, i, lo, hi, p) <==> !Kept(space, e, h, i, lo, hi, p)
    decreases h
  {
    hide Index;
    Start(h, p);
    if e.Table? {
      GoneInside(space, e.entries[Index(p, h - 1)], h - 1, Index(p, h - 1), lo, hi, p);
    }
  }

  lemma Start(h: nat, p: nat)
    requires h <= 4
    ensures 0 <= p - p % Size(h) <= p <= p - p % Size(h) + Size(h) - 1
  {
  }

  lemma {:induction false} GoneBelow(space: Space, e: Entry, h: nat, i: nat, lo: int, hi: int, p: nat)
    requires h <= 3 && WellFormed(e, h) && p < lo
    ensures !Gone(space, e, h, i, lo, hi, p)
    decreases h
  {
    hide Index;
    Start(h, p);
    if e.Table? {
      GoneBelow(space, e.entries[Index(p, h - 1)], h - 1, Index(p, h - 1), lo, hi, p);
    }
  }

  /** Behind the range exactly the mapped pages up to the reach disappear. */
  lemma {:induction false} GoneBehind(space: Space, e: Entry, h: nat, i: nat, s: nat, lo: int, hi: nat, p: nat)
    requires h <= 3 && WellFormed(e, h) && Aligned(s, h) && lo <= hi
    requires s <= hi < p < s + Size(h) && Lookup(e, h, p).Some?
    ensures Gone(space, e, h, i, lo, hi, p) <==> p <= Reach(e, h, i, s, lo, hi)
    ensures Reach(e, h, i, s, lo, hi) < s + Size(h)
    decreases h, 0
  {
    hide Size, Aligned, Index, Slot;
    OffsetInSlot(s, h, p);
    PageSize();
    if e.Table? {
      BehindTable(space, e.entries, h - 1, s, lo, hi, p);
    }
  }

  lemma {:induction false} BehindTable(space: Space, es: seq<Entry>, h: nat, b: nat, lo: int, hi: nat, p: nat)
    requires h <= 3 && WellFormedTable(es, h) && Aligned(b, h + 1) && lo <= hi
    requires b <= hi < p < b + Size(h + 1) && LookupTable(es, h, p).Some?
    ensures GoneTable(space, es, h, lo, hi, p) <==> p <= ReachTable(es, h, b, lo, hi)
    ensures ReachTable(es, h, b, lo, hi) < b + Size(h + 1)
    decreases h, 1
  {
    hide Size, Aligned, Index, Slot, WellFormed, Gone, Lookup, Reach;
    var j, k := Index(hi, h), Index(p, h);
    IndexOfSlot(b, h, hi);
    IndexOfSlot(b, h, p);
    SlotFacts(b, h, j);
    SlotFacts(b, h, k);
    ReachBound(es[j], h, j, Slot(b, h, j), lo, hi);
    if j == k {
      GoneBehind(space, es[j], h, j, Slot(b, h, j), lo, hi, p);
    } else {
      if k < j {
        SlotMonotone(b, h, k + 1, j);
      } else {
        SlotMonotone(b, h, j + 1, k);
      }
      NotMet(space, es, h, b, lo, hi, p);
    }
  }

  lemma {:induction false} ReachBound(e: Entry, h: nat, i: nat, s: nat, lo: int, hi: nat)
    requires h <= 3 && WellFormed(e, h) && Aligned(s, h) && s <= hi < s + Size(h)
    ensures hi <= Reach(e, h, i, s, lo, hi) < s + Size(h)
    decreases h
  {
    hide Size, Aligned, Index, Slot;
    if e.Table? {
      var j := Index(hi, h - 1);
      IndexOfSlot(s, h - 1, hi);
      SlotFacts(s, h - 1, j);
      ReachBound(e.entries[j], h - 1, j, Slot(s, h - 1, j), lo, hi);
    }
  }

  /** A kept block holds the far end of the range. */
  lemma {:induction false} KeptHoldsFarEnd(space: Space, e: Entry, h: nat, i: nat, s: nat, lo: nat, hi: nat, p: nat)
    requires h <= 3 && WellFormed(e, h) && Aligned(s, h) && s <= p < s + Size(h)
    requires Kept(space, e, h, i, lo, hi, p)
    ensures var far := FarEnd(space, lo, hi);
            s <= far < s + Size(h) && Kept(space, e, h, i, lo, hi, far) && Lookup(e, h, far).Some?
    decreases h
  {
    hide Size, Slot, Aligned, Index;
    var far := FarEnd(space, lo, hi);
    OffsetInSlot(s, h, p);
    if e.Leaf? {
      var x, a := CutHoldsFarEnd(space, e, h, s, lo, hi, p);
    } else {
      var j := Index(p, h - 1);
      IndexOfSlot(s, h - 1, p);
      SlotFacts(s, h - 1, j);
      KeptHoldsFarEnd(space, e.entries[j], h - 1, j, Slot(s, h - 1, j), lo, hi, p);
      SlotHolds(s, h - 1, j, far);
      OffsetInSlot(s, h, far);
    }
  }

  /** The range is unmapped and nothing else changes. */
  ghost predicate UnmapsExactly(t: seq<Entry>, r: seq<Entry>, lo: int, hi: int)
    requires WellFormedTable(t, 3) && WellFormedTable(r, 3)
  {
    forall p: nat :: p < PAGES ==> LookupTable(r, 3, p) == Left(lo <= p <= hi, LookupTable(t, 3, p))
  }

  /** Nothing is mapped right behind the range, up to the reach. */
  ghost predicate NothingBehind(t: seq<Entry>, lo: int, hi: nat)
    requires WellFormedTable(t, 3)
  {
    forall p: nat :: hi < p <= ReachTable(t, 3, 0, lo, hi) ==> LookupTable(t, 3, p) == None
  }

  /** An unmapping call does what it was asked exactly when nothing is mapped
      behind the range up to its reach, and no first block is cut at a wrapping
      edge. */
  lemma UnmapsExactlyIff(space: Space, t: seq<Entry>, r: seq<Entry>, lo: nat, hi: nat)
    requires TableUnmapped(space, t, r, 3, 0, lo, hi) && lo <= hi < PAGES
    ensures UnmapsExactly(t, r, lo, hi) <==>
              NothingBehind(t, lo, hi) && !KeptTable(space, t, 3, lo, hi, FarEnd(space, lo, hi))
  {
    hide WellFormedTable, LookupTable, GoneTable, ReachTable, KeptTable;
    TopSize();
    if UnmapsExactly(t, r, lo, hi) {
      forall p: nat | hi < p <= ReachTable(t, 3, 0, lo, hi)
        ensures LookupTable(t, 3, p) == None
      {
        TopReach(t, lo, hi);
        PageGone(space, t, lo, hi, p);
      }
      FarIsKept(space, t, lo, hi);
    } else {
      var p: nat :| p < PAGES && LookupTable(r, 3, p) != Left(lo <= p <= hi, LookupTable(t, 3, p));
      PageGone(space, t, lo, hi, p);
    }
  }

  lemma TopSize()
    ensures Size(4) == PAGES && Aligned(0, 4)
  {
  }

  lemma TopReach(t: seq<Entry>, lo: nat, hi: nat)
    requires WellFormedTable(t, 3) && hi < PAGES
    ensures ReachTable(t, 3, 0, lo, hi) < PAGES
  {
    hide Index, WellFormed, Reach, Size, Slot, Aligned;
    TopSize();
    IndexOfSlot(0, 3, hi);
    var j := Index(hi, 3);
    SlotFacts(0, 3, j);
    ReachBound(t[j], 3, j, Slot(0, 3, j), lo, hi);
  }

  /** What happens to one mapped page of the window. */
  lemma PageGone(space: Space, t: seq<Entry>, lo: nat, hi: nat, p: nat)
    requires WellFormedTable(t, 3) && lo <= hi < PAGES && p < PAGES
    ensures p < lo ==> !GoneTable(space, t, 3, lo, hi, p)
    ensures p > hi && LookupTable(t, 3, p).Some? ==>
              (GoneTable(space, t, 3, lo, hi, p) <==> p <= ReachTable(t, 3, 0, lo, hi))
    ensures lo <= p <= hi && LookupTable(t, 3, p).Some? ==>
              (GoneTable(space, t, 3, lo, hi, p) <==> !KeptTable(space, t, 3, lo, hi, p))
    ensures lo <= p <= hi && KeptTable(space, t, 3, lo, hi, p) ==> KeptTable(space, t, 3, lo, hi, FarEnd(space, lo, hi))
  {
    hide WellFormed, Lookup, Gone, Kept, ReachTable, Index, Size, Slot, Aligned;
    TopSize();
    var j := Index(p, 3);
    if p < lo {
      GoneBelow(space, t[j], 3, j, lo, hi, p);
    } else if p > hi {
      if LookupTable(t, 3, p).Some? {
        BehindTable(space, t, 3, 0, lo, hi, p);
      }
    } else {
      if LookupTable(t, 3, p).Some? {
        GoneInside(space, t[j], 3, j, lo, hi, p);
      }
      if KeptTable(space, t, 3, lo, hi, p) {
        KeptFar(space, t, lo, hi, p);
      }
    }
  }

  lemma KeptFar(space: Space, t: seq<Entry>, lo: nat, hi: nat, p: nat)
    requires WellFormedTable(t, 3) && p < PAGES && KeptTable(space, t, 3, lo, hi, p)
    ensures var far := FarEnd(space, lo, hi); KeptTable(space, t, 3, lo, hi, far) && LookupTable(t, 3, far).Some?
  {
    hide WellFormed, Lookup, Kept, Index, Size, Slot, Aligned;
    TopSize();
    var j := Index(p, 3);
    IndexOfSlot(0, 3, p);
    SlotFacts(0, 3, j);
    KeptHoldsFarEnd(space, t[j], 3, j, Slot(0, 3, j), lo, hi, p);
    SlotHolds(0, 3, j, FarEnd(space, lo, hi));
  }

  lemma FarIsKept(space: Space, t: seq<Entry>, lo: nat, hi: nat)
    requires WellFormedTable(t, 3) && lo <= hi < PAGES
    ensures var far := FarEnd(space, lo, hi);
            KeptTable(space, t, 3, lo, hi, far) ==> LookupTable(t, 3, far).Some? && !GoneTable(space, t, 3, lo, hi, far)
  {
    hide WellFormedTable, LookupTable, GoneTable, KeptTable;
    var far := FarEnd(space, lo, hi);
    if KeptTable(space, t, 3, lo, hi, far) {
      KeptFar(space, t, lo, hi, far);
      PageGone(space, t, lo, hi, far);
    }
  }

  /** It does fail: unmapping the first page of any table that is not the first
      entry of the root takes the whole table along. */
  lemma FirstPageTakesTheTable(space: Space, t: seq<Entry>, r: seq<Entry>, i: nat, p: nat)
    requires WellFormedTable(t, 3) && 0 < i < 512 && t[i].Table?
    requires TableUnmapped(space, t, r, 3, 0, Slot(0, 3, i), Slot(0, 3, i))
    requires Slot(0, 3, i) <= p < Slot(0, 3, i) + Size(3)
    ensures LookupTable(r, 3, p) == None
  {
    hide WellFormed, GoneTable, LookupTable, Size, Slot, Aligned;
    TopSize();
    SlotFacts(0, 3, i);
    WholeEntry(space, t, i, p);
  }

  lemma WholeEntry(space: Space, t: seq<Entry>, i: nat, p: nat)
    requires WellFormedTable(t, 3) && 0 < i < 512 && t[i].Table? && Slot(0, 3, i) <= p < Slot(0, 3, i) + Size(3)
    ensures GoneTable(space, t, 3, Slot(0, 3, i), Slot(0, 3, i), p)
  {
    hide Size, Slot, Aligned, Index;
    TopSize();
    SlotFacts(0, 3, i);
    SlotHolds(0, 3, i, p);
    OffsetInSlot(Slot(0, 3, i), 3, p);
  }
}
