/** Writing the segments before a frame, and reading them back. */
module HeaderCoding {
  import opened Wrappers
  import opened Bits
  import opened Canonical
  import opened Zigzag
  import opened Stuffing
  import opened Markers
  import BitReader

  datatype QuantDef = QuantDef(id: nat, wide: bool, table: seq<nat>)

  datatype CodeDef = CodeDef(ac: bool, id: nat, def: HuffDef)

  datatype Segment =
    | RestartInterval(n: nat)
    | Quants(quants: seq<QuantDef>)
    | Codes(codes: seq<CodeDef>)
    | Jfif(rest: seq<Byte>)                        // APP0 with the JFIF tag
    | Adobe(lead: seq<Byte>, transform: Byte, rest: seq<Byte>)   // APP14: version and flags, then the transform
    | Other(code: Byte, body: seq<Byte>)           // comments and other application data

  ghost predicate GoodQuant(q: QuantDef)
  {
    && q.id < 4 && |q.table| == 64
    && forall x :: 0 <= x < 64 ==> q.table[x] < if q.wide then 65536 else 256
  }

  ghost predicate GoodCode(c: CodeDef)
  {
    && c.id < 4 && Acceptable(c.def.counts) && |c.def.values| == Total(c.def.counts)
    && forall i :: 0 <= i < 16 ==> c.def.counts[i] < 256
  }

  ghost predicate GoodSegment(s: Segment)
  {
    && (match s
        case RestartInterval(n) => n < 65536
        case Quants(qs) => forall i :: 0 <= i < |qs| ==> GoodQuant(qs[i])
        case Codes(cs) => forall i :: 0 <= i < |cs| ==> GoodCode(cs[i])
        case Jfif(_) => true
        case Adobe(lead, _, _) => |lead| == 5
        case Other(code, body) =>
          && IsApp(code)
          && (code == 0xe0 ==> |body| < 5 || body[..5] != JfifTag())
          && (code == 0xee ==> |body| < 12 || body[..6] != AdobeTag()))
    && |Payload(s)| + 2 < 65536
  }

  // ----- bytes -----

  function Clip(v: nat): Byte { v % 256 }

  function QuantByte(q: QuantDef, k: nat): Byte
    requires |q.table| == 64 && k < 64 * Step(q.wide)
  {
    if !q.wide then Clip(q.table[Zig(k)])
    else if k % 2 == 0 then Clip(q.table[Zig(k / 2)] / 256) else Clip(q.table[Zig(k / 2)])
  }

  ghost function QuantBytes(q: QuantDef): (b: seq<Byte>)
    ensures |b| == QuantSize(q.wide)
  {
    var head: Byte := (if q.wide then 16 else 0) + q.id % 16;
    if |q.table| != 64 then seq<Byte>(QuantSize(q.wide), _ => 0) else
    [head] + seq<Byte>(64 * Step(q.wide), k requires 0 <= k < 64 * Step(q.wide) => QuantByte(q, k))
  }

  ghost function QuantsBytes(qs: seq<QuantDef>): seq<Byte>
    decreases |qs|
  {
    if |qs| == 0 then [] else QuantBytes(qs[0]) + QuantsBytes(qs[1..])
  }

  ghost function CodeBytes(c: CodeDef): (b: seq<Byte>)
    ensures |b| == 17 + |c.def.values|
  {
    var head: Byte := (if c.ac then 16 else 0) + c.id % 16;
    [head] + seq<Byte>(16, i requires 0 <= i < 16 => Clip(c.def.counts[i])) + c.def.values
  }

  ghost function CodesBytes(cs: seq<CodeDef>): seq<Byte>
    decreases |cs|
  {
    if |cs| == 0 then [] else CodeBytes(cs[0]) + CodesBytes(cs[1..])
  }

  function WordBytes(n: nat): seq<Byte> { [Clip(n / 256), Clip(n)] }

  ghost function Payload(s: Segment): seq<Byte>
  {
    match s
    case RestartInterval(n) => WordBytes(n)
    case Quants(qs) => QuantsBytes(qs)
    case Codes(cs) => CodesBytes(cs)
    case Jfif(rest) => JfifTag() + rest
    case Adobe(lead, transform, rest) => AdobeTag() + lead + [transform] + rest
    case Other(_, body) => body
  }

  function CodeOf(s: Segment): Byte
  {
    match s
    case RestartInterval(_) => 0xdd
    case Quants(_) => 0xdb
    case Codes(_) => 0xc4
    case Jfif(_) => 0xe0
    case Adobe(_, _, _) => 0xee
    case Other(code, _) => code
  }

  /** A segment after its marker: length and payload. */
  ghost function Framed(s: Segment): seq<Byte>
  {
    WordBytes(|Payload(s)| + 2) + Payload(s)
  }

  /** Segments, each with its marker, then the marker of the frame. */
  ghost function Stream(segs: seq<Segment>, frame: Byte): seq<Byte>
    decreases |segs|
  {
    if |segs| == 0 then [0xff, frame] else [0xff, CodeOf(segs[0])] + (Framed(segs[0]) + Stream(segs[1..], frame))
  }

  // ----- what the segments mean -----

  function SetQuants(t: Tables, qs: seq<QuantDef>): Tables
    decreases |qs|
  {
    if |qs| == 0 then t
    else if qs[0].id >= |t.quant| then t
    else SetQuants(t.(quant := t.quant[qs[0].id := qs[0].table]), qs[1..])
  }

  function SetCode(t: Tables, c: CodeDef): Tables
  {
    if c.ac then (if c.id < |t.ac| then t.(ac := t.ac[c.id := Some(c.def)]) else t)
    else (if c.id < |t.dc| then t.(dc := t.dc[c.id := Some(c.def)]) else t)
  }

  function SetCodes(t: Tables, cs: seq<CodeDef>): Tables
    decreases |cs|
  {
    if |cs| == 0 then t else SetCodes(SetCode(t, cs[0]), cs[1..])
  }

  function Meaning(t: Tables, s: Segment): Tables
  {
    match s
    case RestartInterval(n) => t.(restart := n)
    case Quants(qs) => SetQuants(t, qs)
    case Codes(cs) => SetCodes(t, cs)
    case Jfif(_) => t.(jfif := true)
    case Adobe(_, transform, _) => t.(app14 := transform)
    case Other(_, _) => t
  }

  function MeaningAll(t: Tables, segs: seq<Segment>): Tables
    decreases |segs|
  {
    if |segs| == 0 then t else MeaningAll(Meaning(t, segs[0]), segs[1..])
  }

  // ----- reading back -----

  /** One byte of those that stand at a position. */
  lemma ByteAt(d: seq<Byte>, p: nat, b: seq<Byte>, k: nat)
    requires BytesHere(d, p, b) && k < |b|
    ensures At(d, p + k) == b[k]
  {
    assert d[p..p + |b|][k] == b[k];
  }

  lemma WordAt(d: seq<Byte>, p: nat, n: nat)
    requires n < 65536 && BytesHere(d, p, WordBytes(n))
    ensures Word(d, p) == n
  {
    var b := WordBytes(n);
    ByteAt(d, p, b, 0);
    ByteAt(d, p, b, 1);
    assert At(d, p + 0) == b[0] && At(d, p + 1) == b[1];
  }

  lemma QuantLayout(q: QuantDef)
    requires |q.table| == 64
    ensures forall k :: 0 <= k < 64 * Step(q.wide) ==> QuantBytes(q)[1 + k] == QuantByte(q, k)
  {
    hide QuantByte;
  }

  lemma QuantEntry(d: seq<Byte>, p: nat, q: QuantDef, i: nat)
    requires GoodQuant(q) && BytesHere(d, p, QuantBytes(q)) && i < 64
    ensures QuantValue(d, p + 1, q.wide, i) == q.table[Zig(i)]
  {
    hide Zig, At, BytesHere, QuantBytes;
    QuantLayout(q);
    var b := QuantBytes(q);
    if q.wide {
      ByteAt(d, p, b, 1 + 2 * i);
      assert At(d, p + (1 + 2 * i)) == b[1 + 2 * i] == QuantByte(q, 2 * i);
      ByteAt(d, p, b, 2 + 2 * i);
      assert At(d, p + (2 + 2 * i)) == b[2 + 2 * i] == QuantByte(q, 2 * i + 1);
    } else {
      ByteAt(d, p, b, 1 + i);
      assert At(d, p + (1 + i)) == b[1 + i] == QuantByte(q, i);
    }
  }

  lemma QuantAt(d: seq<Byte>, p: nat, q: QuantDef)
    requires GoodQuant(q) && BytesHere(d, p, QuantBytes(q))
    ensures At(d, p) == (if q.wide then 16 else 0) + q.id
    ensures QuantTable(d, p + 1, q.wide) == q.table
  {
    hide Zig, Zag, At, QuantValue;
    var b := QuantBytes(q);
    ByteAt(d, p, b, 0);
    assert At(d, p + 0) == b[0];
    forall x | 0 <= x < 64
      ensures QuantTable(d, p + 1, q.wide)[x] == q.table[x]
    {
      ZigPermutes(x);
      QuantEntry(d, p, q, Zag(x));
    }
  }

  lemma {:induction false} QuantsRoundTrip(d: seq<Byte>, p: nat, qs: seq<QuantDef>, t: Tables)
    requires Shaped(t) && (forall i :: 0 <= i < |qs| ==> GoodQuant(qs[i])) && BytesHere(d, p, QuantsBytes(qs))
    ensures Dqt(d, p, |QuantsBytes(qs)|, t) == Done(p + |QuantsBytes(qs)|, SetQuants(t, qs)) && Shaped(SetQuants(t, qs))
    decreases |qs|
  {
    hide At, QuantBytes, QuantTable, BytesHere;
    if |qs| > 0 {
      var a, b := QuantBytes(qs[0]), QuantsBytes(qs[1..]);
      BytesConcat(d, p, a, b);
      QuantAt(d, p, qs[0]);
      Fits(d, p, a);
      QuantsRoundTrip(d, p + |a|, qs[1..], t.(quant := t.quant[qs[0].id := qs[0].table]));
    }
  }

  lemma Fits(d: seq<Byte>, p: nat, b: seq<Byte>)
    requires BytesHere(d, p, b)
    ensures Adv(d, p, |b|) == p + |b| <= |d|
  {
  }

  lemma CodeAt(d: seq<Byte>, p: nat, c: CodeDef)
    requires GoodCode(c) && BytesHere(d, p, CodeBytes(c))
    ensures At(d, p) == (if c.ac then 16 else 0) + c.id
    ensures CountsAt(d, p + 1) == c.def.counts && BytesAt(d, p + 17, |c.def.values|) == c.def.values
  {
    hide At, Acceptable, Total;
    var b := CodeBytes(c);
    ByteAt(d, p, b, 0);
    assert At(d, p + 0) == b[0];
    forall i | 0 <= i < 16
      ensures CountsAt(d, p + 1)[i] == c.def.counts[i]
    {
      ByteAt(d, p, b, 1 + i);
      assert At(d, p + (1 + i)) == b[1 + i] == Clip(c.def.counts[i]);
    }
    forall i | 0 <= i < |c.def.values|
      ensures BytesAt(d, p + 17, |c.def.values|)[i] == c.def.values[i]
    {
      ByteAt(d, p, b, 17 + i);
      assert At(d, p + (17 + i)) == b[17 + i] == c.def.values[i];
    }
  }

  lemma {:induction false} CodesRoundTrip(d: seq<Byte>, p: nat, cs: seq<CodeDef>, t: Tables)
    requires Shaped(t) && (forall i :: 0 <= i < |cs| ==> GoodCode(cs[i])) && BytesHere(d, p, CodesBytes(cs))
    ensures Dht(d, p, |CodesBytes(cs)|, t) == Done(p + |CodesBytes(cs)|, SetCodes(t, cs)) && Shaped(SetCodes(t, cs))
    decreases |cs|
  {
    hide At, CodeBytes, CountsAt, BytesAt, Acceptable, Total, BytesHere;
    if |cs| > 0 {
      var a, b := CodeBytes(cs[0]), CodesBytes(cs[1..]);
      BytesConcat(d, p, a, b);
      CodeAt(d, p, cs[0]);
      Fits(d, p, a);
      CodesRoundTrip(d, p + |a|, cs[1..], SetCode(t, cs[0]));
    }
  }

  lemma TagAt(d: seq<Byte>, p: nat, b: seq<Byte>, n: nat)
    requires BytesHere(d, p, b) && n <= |b|
    ensures BytesAt(d, p, n) == b[..n]
  {
    hide At;
    forall i | 0 <= i < n
      ensures BytesAt(d, p, n)[i] == b[..n][i]
    {
      ByteAt(d, p, b, i);
      assert At(d, p + i) == b[i];
    }
  }

  /** Application data read back: the two known segments set their flags, every
      other body sets nothing. */
  lemma AppRoundTrip(d: seq<Byte>, p: nat, s: Segment, t: Tables)
    requires GoodSegment(s) && (s.Jfif? || s.Adobe? || s.Other?)
    requires Word(d, p) == |Payload(s)| + 2 && BytesHere(d, p + 2, Payload(s))
    ensures App(d, p, CodeOf(s), t) == Done(p + 2 + |Payload(s)|, Meaning(t, s))
  {
    hide At, BytesAt;
    var b := Payload(s);
    match s {
      case Jfif(rest) =>
        TagAt(d, p + 2, b, 5);
        assert b[..5] == JfifTag();
      case Adobe(lead, transform, rest) =>
        TagAt(d, p + 2, b, 6);
        assert b[..6] == AdobeTag();
        ByteAt(d, p + 2, b, 11);
        assert At(d, p + 2 + 11) == b[11] == transform;
      case Other(code, body) =>
        if |body| >= 5 {
          TagAt(d, p + 2, body, 5);
        }
        if |body| >= 12 {
          TagAt(d, p + 2, body, 6);
        }
    }
  }

  /** One segment read back: exactly its bytes are taken and exactly its
      definitions are made. */
  lemma SegmentRoundTrip(d: seq<Byte>, p: nat, s: Segment, t: Tables)
    requires GoodSegment(s) && Shaped(t) && BytesHere(d, p, Framed(s))
    ensures Process(d, p, CodeOf(s), t) == Done(p + |Framed(s)|, Meaning(t, s)) && Shaped(Meaning(t, s))
  {
    hide At, Dqt, Dht, App, BytesHere, QuantsBytes, CodesBytes, SetQuants, SetCodes;
    var w := WordBytes(|Payload(s)| + 2);
    BytesConcat(d, p, w, Payload(s));
    WordAt(d, p, |Payload(s)| + 2);
    Fits(d, p, w);
    match s {
      case RestartInterval(n) =>
        WordAt(d, p + 2, n);
        Fits(d, p, Framed(s));
      case Quants(qs) =>
        QuantsRoundTrip(d, p + 2, qs, t);
      case Codes(cs) =>
        CodesRoundTrip(d, p + 2, cs, t);
      case _ =>
        AppRoundTrip(d, p, s, t);
    }
  }

  lemma MarkerStands(d: seq<Byte>, p: nat, m: Byte)
    requires BytesHere(d, p, [0xff, m]) && m != NONE
    ensures MarkerAt(d, p) == (m, p + 2) && Seek(d, p) == Some((m, p + 2))
  {
    var b: seq<Byte> := [0xff, m];
    ByteAt(d, p, b, 0);
    ByteAt(d, p, b, 1);
    assert At(d, p + 0) == b[0] && At(d, p + 1) == b[1];
  }

  /** A whole header: after any list of segments the loop stands at the frame,
      with every definition made, in order. */
  lemma {:induction false} HeaderRoundTrip(d: seq<Byte>, p: nat, segs: seq<Segment>, frame: Byte, t: Tables)
    requires (forall i :: 0 <= i < |segs| ==> GoodSegment(segs[i])) && IsFrame(frame) && Shaped(t)
    requires BytesHere(d, p, Stream(segs, frame))
    ensures var first := if |segs| == 0 then frame else CodeOf(segs[0]);
            && MarkerAt(d, p) == (first, p + 2) && Seek(d, p) == Some((first, p + 2))
            && HeaderFrom(d, p + 2, first, t) == Frame(frame, p + |Stream(segs, frame)|, MeaningAll(t, segs), |segs|)
    ensures Shaped(MeaningAll(t, segs))
    decreases |segs|
  {
    hide GoodSegment, BytesHere, Framed, Process, MarkerAt, Seek, Meaning, Shaped;
    if |segs| == 0 {
      MarkerStands(d, p, frame);
    } else {
      var s, rest := segs[0], segs[1..];
      BytesConcat(d, p, [0xff, CodeOf(s)], Framed(s) + Stream(rest, frame));
      BytesConcat(d, p + 2, Framed(s), Stream(rest, frame));
      NotNone(s);
      MarkerStands(d, p, CodeOf(s));
      SegmentRoundTrip(d, p + 2, s, t);
      HeaderRoundTrip(d, p + 2 + |Framed(s)|, rest, frame, Meaning(t, s));
      HeaderStep(d, p + 2, CodeOf(s), t);
    }
  }

  lemma NotNone(s: Segment)
    requires GoodSegment(s)
    ensures CodeOf(s) != NONE && !IsFrame(CodeOf(s))
  {
  }

  // ----- padding -----

  /** A marker may have fill bytes in front of it. */
  lemma FilledMarker(d: seq<Byte>, p: nat, n: nat, m: Byte)
    requires BytesHere(d, p, FillBytes(n) + [0xff, m]) && m != 0xff
    ensures MarkerAt(d, p) == (m, p + n + 2)
  {
    hide BitReader.FillEnd, BytesHere, FillBytes;
    FillIsSkipped(d, p, n, m);
  }

  /** Behind a segment, bytes other than 0xff are passed over up to the next marker, or
      to the end of the data. */
  lemma {:induction false} SeekSkips(d: seq<Byte>, p: nat, junk: seq<Byte>, n: nat, m: Byte)
    requires BytesHere(d, p, junk) && (forall i :: 0 <= i < |junk| ==> junk[i] != 0xff) && m != 0xff
    ensures BytesHere(d, p + |junk|, FillBytes(n) + [0xff, m]) ==> Seek(d, p) == Some((m, p + |junk| + n + 2))
    ensures p + |junk| == |d| ==> Seek(d, p) == None
    decreases |junk|
  {
    hide BytesHere, FillBytes, MarkerAt;
    if |junk| == 0 {
      if BytesHere(d, p, FillBytes(n) + [0xff, m]) {
        FilledMarker(d, p, n, m);
      }
      if p == |d| {
        AtTheEnd(d, p);
      }
    } else {
      assert junk == [junk[0]] + junk[1..];
      BytesConcat(d, p, [junk[0]], junk[1..]);
      JunkByte(d, p, junk[0]);
      SeekSkips(d, p + 1, junk[1..], n, m);
      if p + 1 == |d| {
        AtTheEnd(d, p + 1);
      }
    }
  }

  lemma JunkByte(d: seq<Byte>, p: nat, x: Byte)
    requires BytesHere(d, p, [x]) && x != 0xff
    ensures MarkerAt(d, p) == (NONE, p + 1)
  {
    assert d[p..p + 1][0] == x;
  }

  lemma AtTheEnd(d: seq<Byte>, p: nat)
    requires p == |d|
    ensures MarkerAt(d, p) == (NONE, p) && Seek(d, p) == None
  {
  }

  // ----- what is refused -----

  /** A DQT segment with one table is accepted exactly if its precision is 0 or 1 and
      its number at most 3. */
  lemma OneQuantExactly(d: seq<Byte>, p: nat, t: Tables, head: Byte, body: seq<Byte>)
    requires Shaped(t) && |body| == (if head < 16 then 64 else 128) && BytesHere(d, p, WordBytes(3 + |body|) + [head] + body)
    ensures Process(d, p, 0xdb, t).Done? <==> head < 32 && head % 16 <= 3
  {
    hide QuantTable;
    var b := WordBytes(3 + |body|) + [head] + body;
    ByteAt(d, p, b, 0);
    ByteAt(d, p, b, 1);
    ByteAt(d, p, b, 2);
    assert At(d, p + 0) == b[0] && At(d, p + 1) == b[1] && At(d, p + 2) == head;
    assert Word(d, p) == 3 + |body| && Adv(d, p, 2) == p + 2;
    OneDqt(d, p + 2, t);
  }

  lemma OneDqt(d: seq<Byte>, p: nat, t: Tables)
    requires Shaped(t)
    ensures Dqt(d, p, QuantSize(At(d, p) / 16 == 1), t).Done? <==> At(d, p) / 16 <= 1 && At(d, p) % 16 <= 3
  {
    hide QuantTable;
    var q := At(d, p);
    var wide := q / 16 == 1;
    if q / 16 <= 1 && q % 16 <= 3 {
      var t' := t.(quant := t.quant[q % 16 := QuantTable(d, p + 1, wide)]);
      assert Dqt(d, Adv(d, p, QuantSize(wide)), 0, t').Done?;
    }
  }

  lemma OneDht(d: seq<Byte>, p: nat, t: Tables)
    requires Shaped(t)
    ensures Dht(d, p, 17 + Total(CountsAt(d, p + 1)), t).Done? <==>
              At(d, p) / 16 <= 1 && At(d, p) % 16 <= 3 && Acceptable(CountsAt(d, p + 1))
  {
    hide Acceptable, Total;
    var q, n := At(d, p), Total(CountsAt(d, p + 1));
    if q / 16 <= 1 && q % 16 <= 3 && Acceptable(CountsAt(d, p + 1)) {
      var def := Some(HuffDef(CountsAt(d, p + 1), BytesAt(d, p + 17, n)));
      var t' := if q / 16 == 0 then t.(dc := t.dc[q % 16 := def]) else t.(ac := t.ac[q % 16 := def]);
      assert Dht(d, Adv(d, p, 17 + n), 0, t').Done?;
    }
  }

  /** A DHT segment with one table is accepted exactly if its class is 0 or 1, its number
      at most 3, and its counts make a code. */
  lemma OneCodeExactly(d: seq<Byte>, p: nat, t: Tables, head: Byte, counts: Counts, values: seq<Byte>)
    requires Shaped(t) && (forall i :: 0 <= i < 16 ==> counts[i] < 256) && |values| == Total(counts)
    requires BytesHere(d, p, WordBytes(19 + |values|) + [head] + CountBytes(counts) + values)
    ensures Process(d, p, 0xc4, t).Done? <==> head < 32 && head % 16 <= 3 && Acceptable(counts)
  {
    hide Acceptable, Total, At;
    var b := WordBytes(19 + |values|) + [head] + CountBytes(counts) + values;
    ByteAt(d, p, b, 0);
    ByteAt(d, p, b, 1);
    ByteAt(d, p, b, 2);
    TotalFits(counts);
    assert At(d, p + 0) == b[0] && At(d, p + 1) == b[1] && At(d, p + 2) == head;
    forall i | 0 <= i < 16
      ensures At(d, p + 3 + i) == counts[i]
    {
      ByteAt(d, p, b, 3 + i);
      assert At(d, p + (3 + i)) == CountBytes(counts)[i];
    }
    assert CountsAt(d, p + 3) == counts;
    assert Word(d, p) == 19 + |values| && Adv(d, p, 2) == p + 2;
    OneDht(d, p + 2, t);
  }

  function CountBytes(counts: Counts): (b: seq<Byte>)
    ensures |b| == 16 && forall i :: 0 <= i < 16 ==> b[i] == Clip(counts[i])
  {
    seq<Byte>(16, i requires 0 <= i < 16 => Clip(counts[i]))
  }

  lemma TotalFits(counts: Counts)
    requires forall i :: 0 <= i < 16 ==> counts[i] < 256
    ensures Total(counts) <= 4080
  {
    hide Num;
    NumFits(counts, 16);
  }

  lemma {:induction false} NumFits(counts: Counts, j: nat)
    requires j <= 16 && forall i :: 0 <= i < 16 ==> counts[i] < 256
    ensures Num(counts, j) <= 255 * j
    decreases j
  {
    if j > 0 {
      NumFits(counts, j - 1);
    }
  }

  /** A DRI segment is accepted exactly if it announces four bytes. */
  lemma RestartExactly(d: seq<Byte>, p: nat, t: Tables, n: nat, interval: nat)
    requires n < 65536 && interval < 65536 && BytesHere(d, p, WordBytes(n) + WordBytes(interval))
    ensures Process(d, p, 0xdd, t).Done? <==> n == 4
    ensures n == 4 ==> Process(d, p, 0xdd, t).tables == t.(restart := interval)
  {
    var b := WordBytes(n) + WordBytes(interval);
    ByteAt(d, p, b, 0);
    ByteAt(d, p, b, 1);
    ByteAt(d, p, b, 2);
    ByteAt(d, p, b, 3);
    assert At(d, p + 0) == b[0] && At(d, p + 1) == b[1] && At(d, p + 2) == b[2] && At(d, p + 3) == b[3];
  }

  /** Before the first segment there are no tables, no restart interval and no
      application data. */
  lemma NothingDefined(i: nat, x: nat)
    requires i < 4 && x < 64
    ensures var t := NoTables();
            && |t.quant| == |t.dc| == |t.ac| == 4 && |t.quant[i]| == 64 && t.quant[i][x] == 0 && t.dc[i] == None && t.ac[i] == None
            && t.restart == 0 && !t.jfif && t.app14 == -1
  {
  }

  /** The header ends at a frame marker of the three kinds; any other frame marker, and
      every marker that is no segment, refuses the image. */
  lemma FramesExactly(d: seq<Byte>, p: nat, m: Byte, t: Tables)
    requires Shaped(t)
    ensures m == 0xc0 || m == 0xc1 || m == 0xc2 ==> HeaderFrom(d, p, m, t) == Frame(m, p, t, 0)
    ensures m < 0xc0 || 0xc4 < m < 0xdb || m == 0xc3 || m == 0xdc || m == 0xde || m == 0xdf || 0xef < m < 0xfe ==> HeaderFrom(d, p, m, t) == NoFrame
  {
    hide Shaped;
    OthersExactly(d, p, t, m);
  }

  /** Application data and comments are refused exactly if they announce less than their
      own length field; every marker that is none of these segments is refused. */
  lemma OthersExactly(d: seq<Byte>, p: nat, t: Tables, m: Byte)
    ensures 0xe0 <= m <= 0xef || m == 0xfe ==> (Process(d, p, m, t).Done? <==> Word(d, p) >= 2)
    ensures !(0xe0 <= m <= 0xef) && m != 0xfe && m != 0xdd && m != 0xdb && m != 0xc4 ==> Process(d, p, m, t).Fail?
  {
    hide Word, BytesAt;
  }
}
