/** The marker segments of a JPEG file: tables, restart interval, comments and
    application data, and the loop over them that looks for the frame. */
module Markers {
  import opened Wrappers
  import opened Bits
  import opened Canonical
  import opened Huffman
  import opened Zigzag
  import BitReader

  const NONE: Byte := 0xff

  // ----- reading bytes -----

  /** The byte at a position; zero past the end. */
  function At(d: seq<Byte>, p: nat): Byte
  {
    if p < |d| then d[p] else 0
  }

  /** The position after reading `n` bytes: reading stops at the end. */
  function Adv(d: seq<Byte>, p: nat, n: nat): (q: nat)
    ensures q >= p
  {
    if p + n <= |d| then p + n else if p < |d| then |d| else p
  }

  function Word(d: seq<Byte>, p: nat): nat
  {
    At(d, p) * 256 + At(d, p + 1)
  }

  lemma AdvFacts(d: seq<Byte>, p: nat, a: nat, b: nat)
    ensures Adv(d, Adv(d, p, a), b) == Adv(d, p, a + b)
    ensures At(d, Adv(d, p, a) + b) == At(d, p + a + b)
  {
  }

  // ----- the state the segments set -----

  datatype HuffDef = HuffDef(counts: Counts, values: seq<Byte>)

  datatype Tables = Tables(quant: seq<seq<nat>>, dc: seq<Option<HuffDef>>, ac: seq<Option<HuffDef>>,
                           restart: nat, jfif: bool, app14: int)

  ghost predicate Shaped(t: Tables)
  {
    && |t.quant| == 4 && |t.dc| == 4 && |t.ac| == 4
    && forall i :: 0 <= i < 4 ==> |t.quant[i]| == 64
  }

  function NoTables(): Tables
  {
    Tables(seq(4, _ => seq(64, _ => 0)), seq(4, _ => None), seq(4, _ => None), 0, false, -1)
  }

  datatype Outcome = Fail | Done(pos: nat, tables: Tables)

  // ----- quantisation tables -----

  function Step(wide: bool): nat { if wide then 2 else 1 }

  function QuantValue(d: seq<Byte>, p: nat, wide: bool, i: nat): nat
  {
    if wide then Word(d, p + 2 * i) else At(d, p + i)
  }

  /** The table, in row-major order, whose zigzag form starts at `p`. */
  function QuantTable(d: seq<Byte>, p: nat, wide: bool): (t: seq<nat>)
    ensures |t| == 64
  {
    seq(64, x requires 0 <= x < 64 => QuantValue(d, p, wide, Zag(x)))
  }

  function QuantSize(wide: bool): nat { if wide then 129 else 65 }

  /** A DQT segment from `p` on with `left` bytes announced. */
  function Dqt(d: seq<Byte>, p: nat, left: int, t: Tables): Outcome
    decreases left
  {
    if left <= 0 then (if left == 0 then Done(p, t) else Fail) else
    var q := At(d, p);
    if q / 16 > 1 || q % 16 > 3 || |t.quant| != 4 then Fail else
    var wide := q / 16 == 1;
    var t' := t.(quant := t.quant[q % 16 := QuantTable(d, p + 1, wide)]);
    Dqt(d, Adv(d, p, QuantSize(wide)), left - QuantSize(wide), t')
  }

  // ----- Huffman tables -----

  function CountsAt(d: seq<Byte>, p: nat): (s: Counts)
    ensures forall i :: 0 <= i < 16 ==> s[i] == At(d, p + i)
  {
    var s := seq<nat>(16, i requires 0 <= i < 16 => At(d, p + i) as nat);
    s
  }

  function BytesAt(d: seq<Byte>, p: nat, n: nat): (s: seq<Byte>)
    ensures |s| == n && forall i :: 0 <= i < n ==> s[i] == At(d, p + i)
  {
    seq<Byte>(n, i requires 0 <= i < n => At(d, p + i))
  }

  /** A DHT segment from `p` on with `left` bytes announced. */
  ghost function Dht(d: seq<Byte>, p: nat, left: int, t: Tables): Outcome
    decreases left
  {
    if left <= 0 then (if left == 0 then Done(p, t) else Fail) else
    var q := At(d, p);
    var counts := CountsAt(d, p + 1);
    if q / 16 > 1 || q % 16 > 3 || !Acceptable(counts) || |t.dc| != 4 || |t.ac| != 4 then Fail else
    var n := Total(counts);
    var def := Some(HuffDef(counts, BytesAt(d, p + 17, n)));
    var t' := if q / 16 == 0 then t.(dc := t.dc[q % 16 := def]) else t.(ac := t.ac[q % 16 := def]);
    Dht(d, Adv(d, p, 17 + n), left - 17 - n, t')
  }

  // ----- one segment -----

  function JfifTag(): seq<Byte> { [0x4a, 0x46, 0x49, 0x46, 0] }
  function AdobeTag(): seq<Byte> { [0x41, 0x64, 0x6f, 0x62, 0x65, 0] }

  predicate IsApp(m: Byte) { 0xe0 <= m <= 0xef || m == 0xfe }

  /** An application or comment segment: its length counts itself. */
  function App(d: seq<Byte>, p: nat, m: Byte, t: Tables): Outcome
  {
    var n := Word(d, p);
    var q := Adv(d, p, 2);
    if n < 2 then Fail
    else if m == 0xe0 && n >= 7 then
      Done(Adv(d, q, 5) + (n - 7), if BytesAt(d, p + 2, 5) == JfifTag() then t.(jfif := true) else t)
    else if m == 0xee && n >= 14 then
      if BytesAt(d, p + 2, 6) == AdobeTag() then Done(Adv(d, q, 12) + (n - 14), t.(app14 := At(d, p + 13)))
      else Done(Adv(d, q, 6) + (n - 8), t)
    else Done(q + (n - 2), t)
  }

  /** stbi__process_marker */
  ghost function Process(d: seq<Byte>, p: nat, m: Byte, t: Tables): Outcome
  {
    if m == 0xdd then (if Word(d, p) != 4 then Fail else Done(Adv(d, p, 4), t.(restart := Word(d, p + 2))))
    else if m == 0xdb then Dqt(d, Adv(d, p, 2), Word(d, p) - 2, t)
    else if m == 0xc4 then Dht(d, Adv(d, p, 2), Word(d, p) - 2, t)
    else if IsApp(m) then App(d, p, m, t)
    else Fail
  }

  // ----- framing -----

  lemma {:induction false} DqtConsumes(d: seq<Byte>, p: nat, left: int, t: Tables)
    requires Dqt(d, p, left, t).Done? && Shaped(t)
    ensures left >= 0 && Dqt(d, p, left, t).pos == Adv(d, p, left) && Shaped(Dqt(d, p, left, t).tables)
    decreases left
  {
    hide QuantTable;
    if left > 0 {
      var q := At(d, p);
      var wide := q / 16 == 1;
      var t' := t.(quant := t.quant[q % 16 := QuantTable(d, p + 1, wide)]);
      var n := QuantSize(wide);
      DqtConsumes(d, Adv(d, p, n), left - n, t');
      AdvFacts(d, p, n, left - n);
    }
  }

  lemma {:induction false} DhtConsumes(d: seq<Byte>, p: nat, left: int, t: Tables)
    requires Dht(d, p, left, t).Done? && Shaped(t)
    ensures left >= 0 && Dht(d, p, left, t).pos == Adv(d, p, left) && Shaped(Dht(d, p, left, t).tables)
    decreases left
  {
    hide Acceptable, Total, CountsAt, BytesAt;
    if left > 0 {
      var q := At(d, p);
      var counts := CountsAt(d, p + 1);
      var n := Total(counts);
      var def := Some(HuffDef(counts, BytesAt(d, p + 17, n)));
      var t' := if q / 16 == 0 then t.(dc := t.dc[q % 16 := def]) else t.(ac := t.ac[q % 16 := def]);
      DhtConsumes(d, Adv(d, p, 17 + n), left - 17 - n, t');
      AdvFacts(d, p, 17 + n, left - 17 - n);
    }
  }

  /** An accepted segment starts inside the data and, unless it is cut short by
      the end, takes exactly the bytes it announces. */
  lemma SegmentIsFramed(d: seq<Byte>, p: nat, m: Byte, t: Tables)
    requires Process(d, p, m, t).Done? && Shaped(t)
    ensures Shaped(Process(d, p, m, t).tables)
    ensures p < |d| && Process(d, p, m, t).pos > p
    ensures p + Word(d, p) <= |d| ==> Process(d, p, m, t).pos == p + Word(d, p)
    ensures p + Word(d, p) > |d| ==> Process(d, p, m, t).pos >= |d|
  {
    hide Dqt, Dht, BytesAt;
    var n: int := Word(d, p);
    if m == 0xdb {
      DqtConsumes(d, Adv(d, p, 2), n - 2, t);
    } else if m == 0xc4 {
      DhtConsumes(d, Adv(d, p, 2), n - 2, t);
    }
  }

  // ----- looking for markers -----

  /** stbi__get_marker without a pending marker: the byte and the position
      after it; NONE when the next byte does not start a marker. */
  function MarkerAt(d: seq<Byte>, p: nat): (r: (Byte, nat))
    ensures r.1 >= p && (p < |d| ==> p < r.1 <= |d|) && (p >= |d| ==> r == (NONE, p))
    ensures r.0 == NONE <==> !(p < |d| && d[p] == 0xff)
  {
    if At(d, p) != 0xff then (NONE, Adv(d, p, 1)) else
    var q := BitReader.FillEnd(d, p + 1);
    (At(d, q), Adv(d, q, 1))
  }

  /** Padding between segments is skipped up to the end. */
  function Seek(d: seq<Byte>, p: nat): (r: Option<(Byte, nat)>)
    ensures r.Some? ==> r.value.0 != NONE && p < r.value.1 <= |d|
    decreases |d| - p
  {
    var (m, q) := MarkerAt(d, p);
    if m != NONE then Some((m, q))
    else if q >= |d| then None
    else Seek(d, q)
  }

  predicate IsFrame(m: Byte) { m == 0xc0 || m == 0xc1 || m == 0xc2 }

  datatype Header = NoFrame | Frame(kind: Byte, pos: nat, tables: Tables, segments: nat)

  /** The loop of stbi__decode_jpeg_header, from marker `m` on. */
  ghost function HeaderFrom(d: seq<Byte>, p: nat, m: Byte, t: Tables): (h: Header)
    requires Shaped(t)
    ensures h.Frame? ==> Shaped(h.tables) && IsFrame(h.kind)
    ensures h.Frame? ==> p + h.segments <= h.pos && (p <= |d| ==> h.pos <= |d|)
    decreases |d| - p, 0
  {
    if IsFrame(m) then Frame(m, p, t, 0) else
    var s := Process(d, p, m, t);
    if s.Fail? then NoFrame else
    SegmentIsFramed(d, p, m, t);
    var k := Seek(d, s.pos);
    if k.None? then NoFrame else
    var h := HeaderFrom(d, k.value.1, k.value.0, s.tables);
    if h.NoFrame? then NoFrame else h.(segments := h.segments + 1)
  }

  // ----- scans -----

  /** A marker code at `k`: a byte other than 00 and FF after an FF. */
  predicate MarkerEnd(d: seq<Byte>, start: nat, k: nat)
  {
    start < k < |d| && d[k - 1] == 0xff && d[k] != 0 && d[k] != 0xff
  }

  datatype Component = Component(index: nat, hd: nat, ha: nat)

  datatype Scan = Scan(order: seq<Component>, first: nat, last: nat, high: nat, low: nat)

  /** The first position of `id` from `k` on, or the length. */
  function FirstIndex(ids: seq<Byte>, k: nat, id: Byte): (r: nat)
    requires k <= |ids|
    ensures k <= r <= |ids| && (r < |ids| ==> ids[r] == id)
    ensures forall i :: k <= i < r ==> ids[i] != id
    decreases |ids| - k
  {
    if k == |ids| || ids[k] == id then k else FirstIndex(ids, k + 1, id)
  }

  function SelectorAt(d: seq<Byte>, p: nat, ids: seq<Byte>, i: nat): Component
  {
    var q := At(d, p + 4 + 2 * i);
    Component(FirstIndex(ids, 0, At(d, p + 3 + 2 * i)), q / 16, q % 16)
  }

  predicate GoodSelector(ids: seq<Byte>, c: Component)
  {
    c.index < |ids| && c.hd <= 3 && c.ha <= 3
  }

  predicate GoodSpectrum(first: nat, last: nat, high: nat, low: nat, progressive: bool)
  {
    if progressive then first <= last <= 63 && high <= 13 && low <= 13
    else first == 0 && high == 0 && low == 0
  }

  /** The scan header at a position. */
  function ScanAt(d: seq<Byte>, p: nat, ids: seq<Byte>, progressive: bool): Scan
  {
    var n: nat := At(d, p + 2);
    var q := p + 3 + 2 * n;
    Scan(seq(n, i requires 0 <= i < n => SelectorAt(d, p, ids, i)),
         At(d, q), if progressive then At(d, q + 1) else 63, At(d, q + 2) / 16, At(d, q + 2) % 16)
  }

  /** Headers that are accepted. */
  ghost predicate ScanReadable(d: seq<Byte>, p: nat, ids: seq<Byte>, progressive: bool)
  {
    var n: nat := At(d, p + 2);
    var q := p + 3 + 2 * n;
    && 1 <= n <= 4 && n <= |ids| && Word(d, p) == 6 + 2 * n
    && (forall i :: 0 <= i < n ==> GoodSelector(ids, SelectorAt(d, p, ids, i)))
    && GoodSpectrum(At(d, q), At(d, q + 1), At(d, q + 2) / 16, At(d, q + 2) % 16, progressive)
  }

  /** What the decoding loops rely on. */
  ghost predicate GoodScan(s: Scan, n: nat, progressive: bool)
  {
    && 1 <= |s.order| <= 4 && |s.order| <= n
    && (forall i :: 0 <= i < |s.order| ==> s.order[i].index < n && s.order[i].hd <= 3 && s.order[i].ha <= 3)
    && s.first <= s.last <= 63 && s.high <= 13 && s.low <= 13
    && (!progressive ==> s.first == 0 && s.last == 63 && s.high == 0 && s.low == 0)
  }

  /** An accepted header starts inside the data and keeps every index in range. */
  lemma ScanIsGood(d: seq<Byte>, p: nat, ids: seq<Byte>, progressive: bool)
    requires ScanReadable(d, p, ids, progressive)
    ensures GoodScan(ScanAt(d, p, ids, progressive), |ids|, progressive)
    ensures p < |d| && p < Adv(d, p, 6 + 2 * |ScanAt(d, p, ids, progressive).order|) <= |d|
  {
    hide SelectorAt;
  }

  /** What the entropy decoder does with the bit buffer, whatever the tables
      tell it: fill it up, drop bits, start a new segment. */
  datatype Read = Fill | Consume(n: nat) | Restart

  /** A scan as the data at some position make it: its reads, and whether it
      is accepted. */
  datatype Reads = Reads(ops: seq<Read>, ok: bool)

  /** Bytes of the data behind a position. */
  function Consumed(d: seq<Byte>, p: nat): nat
  {
    if p < |d| then p else |d|
  }

  // ----- the decoder -----

  class Decoder {
    const data: seq<Byte>
    var pos: nat
    var marker: Byte
    var tables: Tables

    constructor (data: seq<Byte>)
      ensures this.data == data && pos == 0 && marker == NONE && tables == NoTables() && Shaped(tables)
    {
      this.data, pos, marker := data, 0, NONE;
      tables := NoTables();
    }

    method Get8() returns (x: Byte)
      modifies `pos
      ensures x == At(data, old(pos)) && pos == Adv(data, old(pos), 1)
    {
      if pos < |data| {
        x := data[pos];
        pos := pos + 1;
      } else {
        x := 0;
      }
    }

    method Get16() returns (x: nat)
      modifies `pos
      ensures x == Word(data, old(pos)) < 65536 && pos == Adv(data, old(pos), 2)
    {
      var hi: nat := Get8();
      var lo: nat := Get8();
      x := hi * 256 + lo;
    }

    method Skip(n: int)
      modifies `pos
      ensures n >= 0 ==> pos == old(pos) + n
      ensures n < 0 ==> pos == |data|
    {
      if n == 0 {
        return;
      }
      if n < 0 {
        pos := |data|;
        return;
      }
      pos := pos + n;
    }

    /** A pending marker first, else the next one of the data. */
    method GetMarker() returns (m: Byte)
      modifies `pos, `marker
      ensures marker == NONE
      ensures old(marker) != NONE ==> m == old(marker) && pos == old(pos)
      ensures old(marker) == NONE ==> (m, pos) == MarkerAt(data, old(pos))
    {
      if marker != NONE {
        m := marker;
        marker := NONE;
        return;
      }
      m := Get8();
      if m != 0xff {
        return NONE;
      }
      while m == 0xff
        invariant marker == NONE && old(pos) < pos <= |data| && data[old(pos)] == 0xff
        invariant m == 0xff ==> BitReader.FillEnd(data, old(pos) + 1) == BitReader.FillEnd(data, pos)
        invariant m != 0xff ==> (m, pos) == MarkerAt(data, old(pos))
        decreases |data| - pos, m
      {
        m := Get8();
      }
    }

    /** The 64 entries of a quantisation table, stored in row-major order. */
    method ReadQuant(wide: bool, was: seq<nat>) returns (t: seq<nat>)
      requires |was| == 64
      modifies `pos
      ensures t == QuantTable(data, old(pos), wide) && pos == Adv(data, old(pos), QuantSize(wide) - 1)
    {
      hide Zig, Zag, At, Adv;
      t := was;
      AdvZero(data, pos);
      for i := 0 to 64
        invariant |t| == 64 && pos == Adv(data, old(pos), Step(wide) * i)
        invariant forall x :: 0 <= x < 64 && Zag(x) < i ==> t[x] == QuantValue(data, old(pos), wide, Zag(x))
      {
        var v;
        AdvFacts(data, old(pos), Step(wide) * i, Step(wide));
        AdvFacts(data, old(pos), Step(wide) * i, 0);
        AdvFacts(data, old(pos), Step(wide) * i, 1);
        if wide {
          v := Get16();
        } else {
          v := Get8();
        }
        Placed(i);
        t := t[Zig(i) := v];
      }
      assert t == QuantTable(data, old(pos), wide);
    }

    method DefineQuant(announced: int) returns (ok: bool)
      requires Shaped(tables)
      modifies `pos, `tables
      ensures ok ==> Dqt(data, old(pos), announced, old(tables)) == Done(pos, tables)
      ensures Shaped(tables) && pos >= old(pos)
      ensures !ok ==> Dqt(data, old(pos), announced, old(tables)) == Fail
    {
      hide At, Adv, QuantTable;
      var left := announced;
      while left > 0
        invariant Shaped(tables) && pos >= old(pos)
        invariant Dqt(data, pos, left, tables) == Dqt(data, old(pos), announced, old(tables))
        decreases left
      {
        ghost var p := pos;
        var q := Get8();
        var wide := q / 16 != 0;
        if q / 16 != 0 && q / 16 != 1 {
          return false;
        }
        if q % 16 > 3 {
          return false;
        }
        var t := ReadQuant(wide, tables.quant[q % 16]);
        AdvOne(data, p, wide);
        tables := tables.(quant := tables.quant[q % 16 := t]);
        left := left - QuantSize(wide);
      }
      ok := left == 0;
    }

    /** The sixteen counts and their sum. */
    method ReadCounts() returns (sizes: Counts, n: nat)
      modifies `pos
      ensures sizes == CountsAt(data, old(pos)) && n == Total(sizes) && pos == Adv(data, old(pos), 16)
    {
      hide At, Adv;
      var s: seq<nat> := [];
      n := 0;
      AdvZero(data, pos);
      ghost var c := CountsAt(data, pos);
      for i := 0 to 16
        invariant |s| == i && s == c[..i] && n == Num(c, i) && pos == Adv(data, old(pos), i)
      {
        AdvFacts(data, old(pos), i, 1);
        AdvFacts(data, old(pos), i, 0);
        var x := Get8();
        s := s + [x];
        n := n + x;
      }
      sizes := s;
    }

    method ReadBytes(n: nat) returns (s: seq<Byte>)
      modifies `pos
      ensures s == BytesAt(data, old(pos), n) && pos == Adv(data, old(pos), n)
    {
      hide At, Adv;
      s := [];
      AdvZero(data, pos);
      for i := 0 to n
        invariant |s| == i && pos == Adv(data, old(pos), i)
        invariant forall k :: 0 <= k < i ==> s[k] == At(data, old(pos) + k)
      {
        AdvFacts(data, old(pos), i, 1);
        AdvFacts(data, old(pos), i, 0);
        var x := Get8();
        s := s + [x];
      }
    }

    method DefineHuffman(announced: int) returns (ok: bool)
      requires Shaped(tables)
      modifies `pos, `tables
      ensures ok ==> Dht(data, old(pos), announced, old(tables)) == Done(pos, tables)
      ensures Shaped(tables) && pos >= old(pos)
      ensures !ok ==> Dht(data, old(pos), announced, old(tables)) == Fail
    {
      hide At, Adv, CountsAt, BytesAt, Total, Acceptable;
      var left := announced;
      while left > 0
        invariant Shaped(tables) && pos >= old(pos)
        invariant Dht(data, pos, left, tables) == Dht(data, old(pos), announced, old(tables))
        decreases left
      {
        ghost var p := pos;
        var q := Get8();
        if q / 16 > 1 || q % 16 > 3 {
          return false;
        }
        var counts, n := ReadCounts();
        HuffPosition(data, p, n);
        NotTooMany(counts);
        if n > 256 {
          return false;
        }
        var h := new Table();
        ok := h.Build(counts);
        if !ok {
          return;
        }
        var values := ReadBytes(n);
        var def := Some(HuffDef(counts, values));
        if q / 16 == 0 {
          tables := tables.(dc := tables.dc[q % 16 := def]);
        } else {
          tables := tables.(ac := tables.ac[q % 16 := def]);
        }
        left := left - 17 - n;
      }
      ok := left == 0;
    }

    method ProcessApp(m: Byte) returns (ok: bool)
      requires Shaped(tables) && IsApp(m)
      modifies `pos, `tables
      ensures ok ==> App(data, old(pos), m, old(tables)) == Done(pos, tables)
      ensures Shaped(tables) && pos >= old(pos)
      ensures !ok ==> App(data, old(pos), m, old(tables)) == Fail
    {
      hide BytesAt, At, Adv;
      ghost var p := pos;
      var left := Get16();
      if left < 2 {
        return false;
      }
      left := left - 2;
      AppPositions(data, p);
      if m == 0xe0 && left >= 5 {
        var tag := ReadBytes(5);
        left := left - 5;
        if tag == JfifTag() {
          tables := tables.(jfif := true);
        }
      } else if m == 0xee && left >= 12 {
        var tag := ReadBytes(6);
        left := left - 6;
        if tag == AdobeTag() {
          var version := Get8();
          var flags0 := Get16();
          var flags1 := Get16();
          var transform := Get8();
          tables := tables.(app14 := transform);
          left := left - 6;
        }
      }
      Skip(left);
      ok := true;
    }

    /** stbi__process_marker */
    method ProcessMarker(m: Byte) returns (ok: bool)
      requires Shaped(tables)
      modifies `pos, `tables
      ensures ok ==> Process(data, old(pos), m, old(tables)) == Done(pos, tables)
      ensures !ok ==> Process(data, old(pos), m, old(tables)) == Fail
      ensures Shaped(tables) && pos >= old(pos)
    {
      hide Dqt, Dht, App, Shaped, Adv, At;
      if m == NONE {
        return false;
      }
      if m == 0xdd {
        AdvFacts(data, pos, 2, 2);
        AdvFacts(data, pos, 2, 0);
        AdvFacts(data, pos, 2, 1);
        var n := Get16();
        if n != 4 {
          return false;
        }
        var r := Get16();
        SetRestart(tables, r);
        tables := tables.(restart := r);
        return true;
      }
      if m == 0xdb {
        var n: int := Get16();
        ok := DefineQuant(n - 2);
        return;
      }
      if m == 0xc4 {
        var n: int := Get16();
        ok := DefineHuffman(n - 2);
        return;
      }
      if IsApp(m) {
        ok := ProcessApp(m);
        return;
      }
      ok := false;
    }

    /** The loop up to the frame header.  Padding between segments is allowed,
        the end of the data stops the search. */
    method DecodeHeader() returns (ok: bool, m: Byte, segments: nat)
      requires Shaped(tables)
      modifies `pos, `marker, `tables
      ensures Shaped(tables)
      ensures var (soi, p) := MarkerAt(data, old(pos));
              var (first, q) := MarkerAt(data, p);
              var h := if soi == 0xd8 then HeaderFrom(data, q, first, old(tables).(jfif := false, app14 := -1)) else NoFrame;
              if ok then h == Frame(m, pos, tables, segments) && marker == NONE else h == NoFrame
    {
      hide Process, Seek;
      tables := tables.(jfif := false, app14 := -1);
      marker := NONE;
      segments := 0;
      ok := false;
      m := GetMarker();
      if m != 0xd8 {
        return;
      }
      m := GetMarker();
      ghost var start, first, given := pos, m, tables;
      while !IsFrame(m)
        invariant Shaped(tables) && marker == NONE
        invariant SameHeader(HeaderFrom(data, start, first, given), HeaderFrom(data, pos, m, tables), segments)
        decreases |data| - pos
      {
        ghost var p, t := pos, tables;
        HeaderStep(data, p, m, t);
        ok := ProcessMarker(m);
        if !ok {
          return;
        }
        ok, m := SeekMarker();
        if !ok {
          return;
        }
        segments := segments + 1;
      }
      ok := true;
    }

    /** Junk after a scan: on to the first marker code, or to the end. */
    method SkipJunk() returns (x: Byte)
      modifies `pos
      ensures pos >= old(pos) && (old(pos) <= |data| ==> pos <= |data|)
      ensures x == NONE ==> pos >= |data| && forall k :: !MarkerEnd(data, old(pos), k)
      ensures x != NONE ==> pos > 0 && MarkerEnd(data, old(pos), pos - 1) && x == data[pos - 1]
      ensures x != NONE ==> forall k :: MarkerEnd(data, old(pos), k) ==> pos - 1 <= k
    {
      while pos < |data|
        invariant old(pos) <= pos && (pos <= |data| || pos == old(pos))
        invariant forall k :: MarkerEnd(data, old(pos), k) ==> pos < k
        decreases |data| - pos
      {
        x := Get8();
        while x == 0xff
          invariant old(pos) < pos <= |data| && (x == 0xff ==> data[pos - 1] == 0xff)
          invariant x != 0xff ==> data[pos - 1] != 0xff
          invariant forall k :: MarkerEnd(data, old(pos), k) ==> pos <= k
          decreases |data| - pos, x
        {
          if pos >= |data| {
            return NONE;
          }
          x := Get8();
          if x != 0 && x != 0xff {
            return;
          }
        }
      }
      x := NONE;
    }

    /** stbi__process_scan_header, for the frame's component identifiers. */
    method ScanHeader(ids: seq<Byte>, progressive: bool) returns (ok: bool, scan: Scan)
      modifies `pos
      ensures ok <==> ScanReadable(data, old(pos), ids, progressive)
      ensures ok ==> scan == ScanAt(data, old(pos), ids, progressive)
      ensures ok ==> pos == Adv(data, old(pos), 6 + 2 * |scan.order|)
      ensures pos >= old(pos)
    {
      hide Adv, GoodSelector, GoodSpectrum, SelectorAt;
      scan := Scan([], 0, 0, 0, 0);
      ghost var p := pos;
      AdvFacts(data, p, 2, 0);
      AdvFacts(data, p, 2, 1);
      var announced := Get16();
      var n: nat := Get8();
      if n < 1 || n > 4 || n > |ids| {
        return false, scan;
      }
      if announced != 6 + 2 * n {
        return false, scan;
      }
      var order: seq<Component> := [];
      for i := 0 to n
        invariant |order| == i && pos == Adv(data, p, 3 + 2 * i) >= p
        invariant forall j :: 0 <= j < i ==> GoodSelector(ids, order[j]) && order[j] == SelectorAt(data, p, ids, j)
      {
        var c := Selector(ids, p, i);
        if !GoodSelector(ids, c) {
          return false, scan;
        }
        order := order + [c];
      }
      assert order == seq(n, i requires 0 <= i < n => SelectorAt(data, p, ids, i));
      SpectrumPositions(data, p, 3 + 2 * n);
      var first: nat := Get8();
      var last: nat := Get8();
      var aa := Get8();
      var high, low := aa / 16, aa % 16;
      if !GoodSpectrum(first, last, high, low, progressive) {
        return false, scan;
      }
      if !progressive {
        last := 63;
      }
      return true, Scan(order, first, last, high, low);
    }

    /** One component of a scan: the first with the identifier. */
    method Selector(ids: seq<Byte>, ghost p: nat, ghost i: nat) returns (c: Component)
      requires pos == Adv(data, p, 3 + 2 * i)
      modifies `pos
      ensures c == SelectorAt(data, p, ids, i) && pos == Adv(data, p, 3 + 2 * (i + 1))
    {
      AdvFacts(data, p, 3 + 2 * i, 0);
      AdvFacts(data, p, 3 + 2 * i, 1);
      AdvFacts(data, p, 4 + 2 * i, 0);
      AdvFacts(data, p, 4 + 2 * i, 1);
      hide Adv, At;
      var id := Get8();
      var q := Get8();
      var which := 0;
      while which < |ids| && ids[which] != id
        invariant which <= |ids| && FirstIndex(ids, 0, id) == FirstIndex(ids, which, id)
      {
        which := which + 1;
      }
      c := Component(which, q / 16, q % 16);
    }

    /** The entropy-coded data of one scan, read by any sequence of reads. */
    method ReadScan(ops: seq<Read>)
      requires pos <= |data|
      modifies `pos, `marker
      ensures old(pos) <= pos <= |data|
    {
      var j := new BitReader.Reader(data);
      j.pos := pos;
      j.Reset();
      for i := 0 to |ops|
        invariant fresh(j) && j.Valid() && j.data == data && pos <= j.pos <= |data| && pos == old(pos)
      {
        match ops[i] {
          case Fill =>
            if j.bits <= 24 {
              j.Grow();
            }
          case Consume(n) =>
            if n <= j.bits {
              j.Drop(n);
            }
          case Restart =>
            j.Reset();
        }
      }
      pos, marker := j.pos, j.marker;
    }

    /** The loop over the scans of an image.  `scans` says what the entropy decoder
        reads in the scan at a position; it may be any function.  Every turn takes
        at least one byte of the data, so there are no more turns than bytes. */
    method DecodeScans(ids: seq<Byte>, progressive: bool, height: nat, scans: nat -> Reads)
      returns (ok: bool, turns: nat)
      requires Shaped(tables)
      modifies `pos, `marker, `tables
      ensures pos >= old(pos) && turns <= Consumed(data, pos) - Consumed(data, old(pos))
    {
      hide Process, MarkerAt, Shaped, GoodScan, MarkerEnd, ScanReadable, ScanAt;
      var m := GetMarker();
      turns := 0;
      while m != 0xd9
        invariant Shaped(tables) && pos >= old(pos)
        invariant turns <= Consumed(data, pos) - Consumed(data, old(pos))
        decreases |data| - Consumed(data, pos)
      {
        ghost var p := pos;
        if m == 0xda {
          var scan;
          ok, scan := ScanHeader(ids, progressive);
          if !ok {
            return;
          }
          ScanIsGood(data, p, ids, progressive);
          var r := scans(pos);
          ReadScan(r.ops);
          if !r.ok {
            return false, turns;
          }
          if marker == NONE {
            marker := SkipJunk();
          }
          m := GetMarker();
          if 0xd0 <= m <= 0xd7 {
            m := GetMarker();
          }
        } else if m == 0xdc {
          var announced := Get16();
          var lines := Get16();
          if announced != 4 {
            return false, turns;
          }
          if lines != height {
            return false, turns;
          }
          m := GetMarker();
        } else {
          ghost var t := tables;
          ok := ProcessMarker(m);
          if !ok {
            return true, turns;
          }
          Progress(data, p, m, t);
          m := GetMarker();
        }
        turns := turns + 1;
      }
      ok := true;
    }

    method SeekMarker() returns (ok: bool, m: Byte)
      requires marker == NONE
      modifies `pos, `marker
      ensures marker == NONE
      ensures ok ==> Seek(data, old(pos)) == Some((m, pos))
      ensures !ok ==> Seek(data, old(pos)) == None
    {
      m := GetMarker();
      while m == NONE
        invariant marker == NONE && old(pos) <= pos
        invariant m != NONE ==> Seek(data, old(pos)) == Some((m, pos))
        invariant m == NONE ==> Seek(data, old(pos)) == (if pos >= |data| then None else Seek(data, pos))
        decreases |data| - pos, if m == NONE then 1 else 0
      {
        if pos >= |data| {
          return false, m;
        }
        m := GetMarker();
      }
      ok := true;
    }
  }

  /** What is found from a later point of the loop, after `n` segments. */
  ghost predicate SameHeader(whole: Header, rest: Header, n: nat)
  {
    if rest.NoFrame? then whole.NoFrame? else whole == rest.(segments := rest.segments + n)
  }

  lemma HeaderStep(d: seq<Byte>, p: nat, m: Byte, t: Tables)
    requires Shaped(t) && !IsFrame(m)
    ensures var s := Process(d, p, m, t);
            && (s.Fail? ==> HeaderFrom(d, p, m, t) == NoFrame)
            && (s.Done? ==>
                  && p < |d| && p < s.pos && Shaped(s.tables)
                  && (Seek(d, s.pos).None? ==> HeaderFrom(d, p, m, t) == NoFrame)
                  && (Seek(d, s.pos).Some? ==>
                        && s.pos < Seek(d, s.pos).value.1
                        && SameHeader(HeaderFrom(d, p, m, t), HeaderFrom(d, Seek(d, s.pos).value.1, Seek(d, s.pos).value.0, s.tables), 1)))
  {
    hide Process, Seek;
    if Process(d, p, m, t).Done? {
      SegmentIsFramed(d, p, m, t);
    }
  }

  lemma Progress(d: seq<Byte>, p: nat, m: Byte, t: Tables)
    requires Process(d, p, m, t).Done? && Shaped(t)
    ensures p < |d| && Process(d, p, m, t).pos > p
  {
    hide Process, Shaped;
    SegmentIsFramed(d, p, m, t);
  }

  lemma AdvZero(d: seq<Byte>, p: nat)
    ensures Adv(d, p, 0) == p
  {
  }

  lemma AdvOne(d: seq<Byte>, p: nat, wide: bool)
    ensures Adv(d, Adv(d, p, 1), QuantSize(wide) - 1) == Adv(d, p, QuantSize(wide))
    ensures QuantTable(d, Adv(d, p, 1), wide) == QuantTable(d, p + 1, wide)
  {
    AdvFacts(d, p, 1, QuantSize(wide) - 1);
  }

  lemma HuffPosition(d: seq<Byte>, p: nat, n: nat)
    ensures var q := Adv(d, p, 1);
            && CountsAt(d, q) == CountsAt(d, p + 1)
            && BytesAt(d, Adv(d, q, 16), n) == BytesAt(d, p + 17, n)
            && Adv(d, Adv(d, q, 16), n) == Adv(d, p, 17 + n)
  {
    AdvFacts(d, p, 1, 16);
    AdvFacts(d, p, 17, n);
    SameCounts(d, Adv(d, p, 1), p + 1);
    SameBytes(d, Adv(d, p, 17), p + 17, n);
  }

  /** Beyond the end all positions read alike. */
  ghost predicate Alike(d: seq<Byte>, p: nat, q: nat)
  {
    p == q || (p >= |d| && q >= |d|)
  }

  lemma SameCounts(d: seq<Byte>, p: nat, q: nat)
    requires Alike(d, p, q)
    ensures CountsAt(d, p) == CountsAt(d, q)
  {
    var a, b := CountsAt(d, p), CountsAt(d, q);
    forall i | 0 <= i < 16
      ensures a[i] == b[i]
    {
      assert At(d, p + i) == At(d, q + i);
    }
  }

  lemma SameBytes(d: seq<Byte>, p: nat, q: nat, n: nat)
    requires Alike(d, p, q)
    ensures BytesAt(d, p, n) == BytesAt(d, q, n)
  {
    var a, b := BytesAt(d, p, n), BytesAt(d, q, n);
    forall i | 0 <= i < n
      ensures a[i] == b[i]
    {
      assert At(d, p + i) == At(d, q + i);
    }
  }

  lemma NotTooMany(c: Counts)
    ensures Acceptable(c) ==> Total(c) <= 256
  {
  }

  lemma AppPositions(d: seq<Byte>, p: nat)
    ensures var q := Adv(d, p, 2);
            && BytesAt(d, q, 5) == BytesAt(d, p + 2, 5) && BytesAt(d, q, 6) == BytesAt(d, p + 2, 6)
            && Adv(d, Adv(d, Adv(d, Adv(d, Adv(d, q, 6), 1), 2), 2), 1) == Adv(d, q, 12)
            && At(d, Adv(d, Adv(d, Adv(d, Adv(d, q, 6), 1), 2), 2)) == At(d, p + 13)
  {
    SameBytes(d, Adv(d, p, 2), p + 2, 5);
    SameBytes(d, Adv(d, p, 2), p + 2, 6);
  }

  lemma SpectrumPositions(d: seq<Byte>, p: nat, n: nat)
    ensures var q := Adv(d, p, n);
            && At(d, q) == At(d, p + n)
            && At(d, Adv(d, q, 1)) == At(d, p + n + 1) && At(d, Adv(d, Adv(d, q, 1), 1)) == At(d, p + n + 2)
            && Adv(d, Adv(d, Adv(d, q, 1), 1), 1) == Adv(d, p, n + 3)
  {
  }

  lemma SetRestart(t: Tables, r: nat)
    requires Shaped(t)
    ensures Shaped(t.(restart := r))
  {
  }

  lemma Placed(i: nat)
    requires i < 64
    ensures forall x :: 0 <= x < 64 && Zag(x) < i + 1 ==> x == Zig(i) || Zag(x) < i
    ensures Zag(Zig(i)) == i
  {
    hide Zig, Zag;
    ZigPermutes(i);
    forall x | 0 <= x < 64 && Zag(x) < i + 1
      ensures x == Zig(i) || Zag(x) < i
    {
      ZigPermutes(x);
    }
  }
}
