/** The decoder's run over a sequential scan: building its tables, reading its blocks,
    placing them, and going on to the marker behind it. */
module PictureDecoder {
  import opened Wrappers
  import opened Bits
  import opened Zigzag
  import opened Canonical
  import opened Huffman
  import opened BitReader
  import opened FastAc
  import opened Block
  import opened BaselineScan
  import opened Geometry
  import opened Picture
  import M = Markers
  import F = Frames

  // ----- junk behind a scan -----

  /** Skipping junk finds the marker that ends the segment. */
  lemma {:induction false} JunkEndsSegment(d: seq<Byte>, p: nat)
    requires p <= |d|
    ensures NextMarker(d, p).None? ==> forall k :: !M.MarkerEnd(d, p, k)
    ensures NextMarker(d, p).Some? ==>
              var (m, q) := NextMarker(d, p).value;
              && q >= 1 && m == d[q - 1] && m != 0xff && M.MarkerEnd(d, p, q - 1)
              && forall k :: M.MarkerEnd(d, p, k) ==> q - 1 <= k
    decreases |d| - p
  {
    if p < |d| {
      if d[p] != 0xff {
        JunkEndsSegment(d, p + 1);
        assert forall k :: M.MarkerEnd(d, p, k) ==> M.MarkerEnd(d, p + 1, k);
      } else {
        var q := FillEnd(d, p + 1);
        if q < |d| && d[q] == 0 {
          JunkEndsSegment(d, q + 1);
          forall k | M.MarkerEnd(d, p, k)
            ensures M.MarkerEnd(d, q + 1, k)
          {
          }
        } else {
          assert forall k :: M.MarkerEnd(d, p, k) ==> q <= k;
        }
      }
    }
  }

  // ----- tables -----

  /** A Huffman table from its definition; refused when the decoder could not decode
      every symbol. */
  method BuildTable(def: M.HuffDef) returns (ok: bool, h: Table)
    requires |def.values| <= 256
    ensures ok <==> CodeOf(def).Safe()
    ensures ok ==> h.Realizes(CodeOf(def))
    ensures fresh(h.fast) && fresh(h.code) && fresh(h.size) && fresh(h.maxcode) && fresh(h.delta)
  {
    hide Len, LenFrom, Total, Num, Kraft, Acceptable, FastCell, Limit, Code;
    h := new Table();
    ok := h.Build(def.counts);
    if !ok {
      return;
    }
    CopyValues(h, def);
    ok := LastIsLong(h, def.counts);
  }

  method CopyValues(h: Table, def: M.HuffDef)
    requires h.Built(def.counts) && |def.values| <= 256
    modifies h.values
    ensures h.Built(def.counts) && h.values[..] == CodeOf(def).values
  {
    hide Len, LenFrom, Total, Num, Kraft, Acceptable, FastCell, Limit, Code;
    for i := 0 to 256
      invariant h.Built(def.counts)
      invariant forall x :: 0 <= x < i ==> h.values[x] == CodeOf(def).values[x]
    {
      h.values[i] := if i < |def.values| then def.values[i] else 0;
    }
  }

  /** The last of 256 symbols has a code of more than nine bits. */
  method LastIsLong(h: Table, c: Counts) returns (ok: bool)
    requires h.Built(c)
    ensures ok <==> (Total(c) == 256 ==> Len(c, 255) > 9)
  {
    hide Len, LenFrom, Num, Kraft, FastCell, Limit, Code;
    var n := 0;
    NumStep(c, 0);
    for i := 0 to 16
      invariant n == Num(c, i)
    {
      NumStep(c, i);
      n := n + c[i];
    }
    ok := n != 256 || h.size[255] > 9;
  }

  lemma NumStep(c: Counts, i: nat)
    requires i < 16
    ensures Num(c, i + 1) == Num(c, i) + c[i] && Num(c, 0) == 0
  {
  }

  /** Tables of one component. */
  method BuildComp(t: M.Tables, m: F.Image, c: M.Component, data: array<int>) returns (ok: bool, ts: Tables)
    requires Defined(t, m, c) && data.Length == 64
    ensures ok <==> CompOf(t, m, c).dc.Safe() && CompOf(t, m, c).ac.Safe()
    ensures ok ==> CompReady(CompOf(t, m, c), ts, data)
  {
    hide CodeOf, HuffCode.Safe, TableBuilt, Table.Built;
    var dc, ac, okAc;
    ok, dc := BuildTable(t.dc[c.hd].value);
    okAc, ac := BuildTable(t.ac[c.ha].value);
    ok := ok && okAc;
    var fac := new int[512];
    ts := BaselineScan.Tables(dc, ac, fac);
    if ok {
      BuildFastAc(ac, CodeOf(t.ac[c.ha].value), fac);
    }
  }

  ghost predicate CompReady(c: Comp, ts: Tables, data: array<int>)
    reads ts.fac, ts.dc.size, ts.dc.maxcode, ts.dc.delta, ts.dc.code, ts.dc.fast, ts.dc.values
    reads ts.ac.size, ts.ac.maxcode, ts.ac.delta, ts.ac.code, ts.ac.fast, ts.ac.values
  {
    && ts.dc.Realizes(c.dc) && ts.ac.Realizes(c.ac)
    && ts.fac.Length == 512 && TableBuilt(c.ac, ts.fac[..])
    && Separate(data, ts.dc, ts.ac, ts.fac)
  }

  /** Tables of all components of a scan. */
  method BuildComps(t: M.Tables, m: F.Image, order: seq<M.Component>, data: array<int>) returns (ok: bool, ts: seq<Tables>)
    requires data.Length == 64
    ensures ok <==> AllDefined(t, m, order)
    ensures ok ==> Ready(CompsOf(t, m, order), ts, data)
  {
    hide CompOf, HuffCode.Safe, Defined, Table.Built, TableBuilt;
    ts := [];
    for k := 0 to |order|
      invariant |ts| == k
      invariant forall n :: 0 <= n < k ==> Defined(t, m, order[n]) && CompOf(t, m, order[n]).dc.Safe() && CompOf(t, m, order[n]).ac.Safe()
      invariant forall n :: 0 <= n < k ==> CompReady(CompOf(t, m, order[n]), ts[n], data)
    {
      if !Defined(t, m, order[k]) {
        return false, ts;
      }
      var one;
      ok, one := BuildComp(t, m, order[k], data);
      if !ok {
        return false, ts;
      }
      ts := ts + [one];
    }
    ok := true;
    AllReady(t, m, order, ts, data);
  }

  lemma AllReady(t: M.Tables, m: F.Image, order: seq<M.Component>, ts: seq<Tables>, data: array<int>)
    requires data.Length == 64 && |ts| == |order| && forall k :: 0 <= k < |order| ==> Defined(t, m, order[k])
    requires forall n :: 0 <= n < |ts| ==> CompReady(CompOf(t, m, order[n]), ts[n], data)
    ensures Ready(CompsOf(t, m, order), ts, data)
  {
    hide CompOf, Defined, TableBuilt, Table.Realizes, Separate;
    var cs := CompsOf(t, m, order);
    forall n | 0 <= n < |ts|
      ensures && ts[n].dc.Realizes(cs[n].dc) && ts[n].ac.Realizes(cs[n].ac)
              && ts[n].fac.Length == 512 && TableBuilt(cs[n].ac, ts[n].fac[..])
              && Separate(data, ts[n].dc, ts[n].ac, ts[n].fac)
    {
      assert CompReady(CompOf(t, m, order[n]), ts[n], data);
    }
  }

  // ----- placing blocks -----

  method StoreBlocks(planes: seq<Plane>, s: Shape, order: seq<M.Component>, us: seq<Unit>, bs: seq<Cells>) returns (r: seq<Plane>)
    requires s.Valid() && |s.hs| == |order| && |us| > 0 && GoodUnits(us, |order|)
    requires forall k :: 0 <= k < |order| ==> order[k].index < |planes|
    ensures r == Store(planes, s, order, us, bs, |bs|)
  {
    hide PlaceIn, Quot, Rem;
    r := planes;
    for t := 0 to |bs|
      invariant r == Store(planes, s, order, us, bs, t) && |r| == |planes|
    {
      var (i, cx, cy) := PlaceOf(s, order, us, t);
      InPlanes(s, order, us, t, |planes|);
      r := r[i := r[i][(cx, cy) := bs[t]]];
    }
  }

  lemma InPlanes(s: Shape, order: seq<M.Component>, us: seq<Unit>, t: nat, n: nat)
    requires s.Valid() && |s.hs| == |order| && |us| > 0 && GoodUnits(us, |order|)
    requires forall k :: 0 <= k < |order| ==> order[k].index < n
    ensures PlaceOf(s, order, us, t).0 < n
  {
  }

  // ----- one scan -----

  /** Entropy-coded data at the decoder's position: the blocks, and the bit reader
      where it stopped. */
  method ReadBlocks(j: M.Decoder, data: array<int>, ts: seq<Tables>, cs: seq<Comp>, mcu: seq<nat>, interval: nat, s: Shape)
    returns (ok: bool, bs: seq<Cells>)
    requires j.pos <= |j.data| && data.Length == 64 && Ready(cs, ts, data) && forall b :: 0 <= b < |mcu| ==> mcu[b] < |cs|
    modifies j`pos, j`marker, data
    ensures old(j.pos) <= j.pos <= |j.data|
    ensures match BlocksOf(j.data, old(j.pos), cs, mcu, interval, s)
            case Finished(b) => ok && bs == b && Stopped(j.data, LastOf(j.data, old(j.pos), cs, mcu, interval, s), j.pos, j.marker)
            case ScanCorrupt => !ok
            case Unclear => true
  {
    hide Ready, ScanFrom, LastStart, Destuff, NextMarker, Holds, Zeroes;
    var r := NewReader(j.data, j.pos, cs, ts, data);
    ok, bs := ParseScan(r, data, ts, mcu, interval, s.Count(), cs);
    ghost var start := j.pos;
    j.pos, j.marker := r.pos, r.marker;
    if BlocksOf(j.data, start, cs, mcu, interval, s).Finished? {
      ReaderStopped(r, LastOf(j.data, start, cs, mcu, interval, s));
    }
  }

  method NewReader(d: seq<Byte>, p: nat, cs: seq<Comp>, ts: seq<Tables>, data: array<int>) returns (r: Reader)
    requires p <= |d| && data.Length == 64 && Ready(cs, ts, data)
    ensures fresh(r) && r.data == d && r.pos == p && Ready(cs, ts, data)
  {
    hide Table.Built, TableBuilt, HuffCode.Safe;
    r := new Reader(d);
    r.pos := p;
  }

  /** Where the last segment of the scan starts. */
  ghost function LastOf(d: seq<Byte>, start: nat, cs: seq<Comp>, mcu: seq<nat>, interval: nat, s: Shape): (last: nat)
    requires start <= |d| && forall b :: 0 <= b < |mcu| ==> mcu[b] < |cs|
    ensures start <= last <= |d|
  {
    LastStart(cs, mcu, interval, d, start, 0, Zeroes(|cs|), Todo(interval), s.Count())
  }

  /** A reader's marker and position lead to the marker that ends the segment. */
  ghost predicate Stopped(d: seq<Byte>, last: nat, pos: nat, marker: Byte)
    requires last <= |d|
  {
    var goal := NextMarker(d, last);
    pos <= |d| && if marker != M.NONE then goal == Some((marker, pos)) else NextMarker(d, pos) == goal
  }

  lemma ReaderStopped(r: Reader, last: nat)
    requires InSegment(r, last)
    ensures last <= |r.data| && Stopped(r.data, last, r.pos, r.marker)
  {
    hide Destuff, NextMarker, Holds;
    JunkEndsSegment(r.data, last);
  }

  /** On to the marker behind a scan. */
  method NextMark(j: M.Decoder, ghost last: nat) returns (m: Byte)
    requires last <= |j.data| && j.pos <= |j.data|
    modifies j`pos, j`marker
    ensures j.marker == M.NONE && j.pos >= old(j.pos)
    ensures old(Stopped(j.data, last, j.pos, j.marker)) ==> (m, j.pos) == Behind(j.data, NextMarker(j.data, last))
  {
    hide NextMarker, M.MarkerAt, M.MarkerEnd;
    JunkEndsSegment(j.data, j.pos);
    JunkEndsSegment(j.data, last);
    if j.marker == M.NONE {
      ghost var p := j.pos;
      j.marker := j.SkipJunk();
      SameMark(j.data, p, j.pos, j.marker);
    }
    NoMarkAtEnd(j.data);
    m := j.GetMarker();
    if 0xd0 <= m <= 0xd7 {
      m := j.GetMarker();
    }
  }

  lemma NoMarkAtEnd(d: seq<Byte>)
    ensures M.MarkerAt(d, |d|) == (M.NONE, |d|)
  {
  }

  /** What skipping junk returns is the next marker. */
  lemma SameMark(d: seq<Byte>, p: nat, pos: nat, x: Byte)
    requires p <= |d| && p <= pos <= |d|
    requires x == M.NONE ==> pos >= |d| && forall k :: !M.MarkerEnd(d, p, k)
    requires x != M.NONE ==> pos > 0 && M.MarkerEnd(d, p, pos - 1) && x == d[pos - 1]
    requires x != M.NONE ==> forall k :: M.MarkerEnd(d, p, k) ==> pos - 1 <= k
    ensures NextMarker(d, p) == if x == M.NONE then None else Some((x, pos))
    ensures x == M.NONE ==> pos == |d|
  {
    hide M.MarkerEnd, NextMarker;
    JunkEndsSegment(d, p);
  }

  datatype Verdict = Accepted | Refused | Unsure

  lemma GoodScanOrder(m: F.Image, scan: M.Scan, progressive: bool)
    requires M.GoodScan(scan, |Ids(m)|, progressive)
    ensures GoodOrder(m, scan.order)
  {
  }

  lemma DefinedAll(t: M.Tables, m: F.Image, order: seq<M.Component>)
    requires AllDefined(t, m, order)
    ensures forall k :: 0 <= k < |order| ==> Defined(t, m, order[k])
  {
  }

  /** A scan from its header on: blocks decoded and stored, and the next marker. */
  method OneScan(j: M.Decoder, m: F.Image, planes: seq<Plane>) returns (v: Verdict, next: seq<Plane>, mark: Byte)
    requires GoodImage(m) && |planes| == |m.planes|
    modifies j`pos, j`marker
    ensures match DecodeScan(j.data, old(j.pos), j.tables, m, planes)
            case BadScan => v.Refused?
            case VagueScan => true
            case Placed(ps, mk, pos) => v.Accepted? && next == ps && mark == mk && j.pos == pos
    ensures v.Accepted? ==> j.marker == M.NONE && |next| == |planes| && old(j.pos) < |j.data| && old(j.pos) < j.pos
  {
    hide M.ScanReadable, M.ScanAt, AllDefined, Shape.UnitsFrom, ShapeOf, CompsOf, GoodImage, BlocksOf, LastStart, NextMarker, Ready, Stopped, Store, GoodUnits, Kinds;
    ghost var p := j.pos;
    next, mark := planes, M.NONE;
    var ok, scan := j.ScanHeader(Ids(m), false);
    if !ok {
      return Refused, planes, M.NONE;
    }
    M.ScanIsGood(j.data, p, Ids(m), false);
    GoodScanOrder(m, scan, false);
    var order := Effective(scan.order);
    var data := new int[64];
    var ts;
    ok, ts := BuildComps(j.tables, m, order, data);
    if !ok {
      return Unsure, planes, M.NONE;
    }
    DefinedAll(j.tables, m, order);
    ShapeIsValid(m, order);
    var s := ShapeOf(m, order);
    var us := s.UnitsFrom(0);
    var cs := CompsOf(j.tables, m, order);
    KindsInRange(us, order);
    ghost var start := j.pos;
    var bs;
    ok, bs := ReadBlocks(j, data, ts, cs, Kinds(us, order), j.tables.restart, s);
    if !ok {
      return Refused, planes, M.NONE;
    }
    mark := NextMark(j, LastOf(j.data, start, cs, Kinds(us, order), j.tables.restart, s));
    if |us| == 0 {
      return Unsure, planes, M.NONE;
    }
    next := StoreBlocks(planes, s, order, us, bs);
    v := Accepted;
  }
}
