/** The encoder's side of the byte stream (sections B.1.1.5 and F.1.2.3 of
    T.81): padding to a byte, stuffing a zero after every 0xff, and the
    marker that ends a segment.  The reader undoes it. */
module Stuffing {
  import opened Coding
  import opened Wrappers
  import opened Bits
  import opened BitReader

  /** Bits of a byte string. */
  function BitsOf(bytes: seq<Byte>): Bitstring
  {
    if |bytes| == 0 then [] else ToBits(bytes[0], 8) + BitsOf(bytes[1..])
  }

  /** Cut a bit string whose length is a multiple of eight into bytes. */
  function Pack(b: Bitstring): seq<Byte>
    requires |b| % 8 == 0
  {
    if |b| == 0 then [] else [ByteOf(b[..8])] + Pack(b[8..])
  }

  function ByteOf(b: Bitstring): Byte
    requires |b| == 8
  {
    Powers();
    Val(b)
  }

  lemma {:induction false} PackBits(b: Bitstring)
    requires |b| % 8 == 0
    ensures BitsOf(Pack(b)) == b
    decreases |b|
  {
    hide Val, ToBits;
    if |b| > 0 {
      ToBitsVal(b[..8]);
      PackBits(b[8..]);
      assert Pack(b)[1..] == Pack(b[8..]);
      assert b[..8] + b[8..] == b;
    }
  }

  /** Complete the last byte with one bits. */
  function PadOnes(b: Bitstring): (r: Bitstring)
    ensures |r| % 8 == 0 && |b| <= |r| < |b| + 8 && r[..|b|] == b
  {
    b + seq((8 - |b| % 8) % 8, _ => true)
  }

  function Stuff(bytes: seq<Byte>): seq<Byte>
  {
    if |bytes| == 0 then []
    else (if bytes[0] == 0xff then [0xff, 0] else [bytes[0]]) + Stuff(bytes[1..])
  }

  predicate IsMarker(m: int)
  {
    0 < m < 0xff
  }

  /** The bytes b are in the data at position p. */
  predicate BytesHere(d: seq<Byte>, p: nat, b: seq<Byte>)
  {
    p + |b| <= |d| && d[p..p + |b|] == b
  }

  lemma BytesConcat(d: seq<Byte>, p: nat, a: seq<Byte>, b: seq<Byte>)
    ensures BytesHere(d, p, a + b) <==> BytesHere(d, p, a) && BytesHere(d, p + |a|, b)
  {
    if p + |a| + |b| <= |d| {
      var w := d[p..p + |a + b|];
      assert w[..|a|] == d[p..p + |a|];
      assert w[|a|..] == d[p + |a|..p + |a| + |b|];
      assert (a + b)[..|a|] == a && (a + b)[|a|..] == b;
      assert w == w[..|a|] + w[|a|..];
    }
  }

  lemma EmptyStuff(bytes: seq<Byte>, m: Byte, d: seq<Byte>, p: nat)
    requires |bytes| == 0 && BytesHere(d, p, Stuff(bytes) + [0xff, m])
    ensures |Stuff(bytes)| == 0 && p + 2 <= |d| && d[p] == 0xff && d[p + 1] == m
  {
    assert d[p..p + 2] == [0xff, m];
    assert d[p..p + 2][1] == m;
  }

  lemma StuffHead(bytes: seq<Byte>, m: Byte, d: seq<Byte>, p: nat) returns (head: seq<Byte>)
    requires |bytes| > 0 && BytesHere(d, p, Stuff(bytes) + [0xff, m])
    ensures head == (if bytes[0] == 0xff then [0xff, 0] else [bytes[0]]) && |Stuff(bytes)| == |head| + |Stuff(bytes[1..])|
    ensures p + |head| <= |d| && d[p] == head[0] && (|head| == 2 ==> d[p + 1] == head[1])
    ensures BytesHere(d, p + |head|, Stuff(bytes[1..]) + [0xff, m])
  {
    head := if bytes[0] == 0xff then [0xff, 0] else [bytes[0]];
    assert Stuff(bytes) + [0xff, m] == head + (Stuff(bytes[1..]) + [0xff, m]);
    BytesConcat(d, p, head, Stuff(bytes[1..]) + [0xff, m]);
  }

  /** Reading a stuffed segment up to its marker gives exactly its bits, and
      the marker with the position after it. */
  lemma {:induction false} StuffingRoundTrip(bytes: seq<Byte>, m: Byte, d: seq<Byte>, p: nat)
    requires IsMarker(m) && BytesHere(d, p, Stuff(bytes) + [0xff, m])
    ensures p + |Stuff(bytes)| + 2 <= |d|
    ensures Destuff(d, p) == BitsOf(bytes)
    ensures NextMarker(d, p) == Some((m, p + |Stuff(bytes)| + 2 as nat))
    decreases |bytes|
  {
    hide ToBits, Destuff, NextMarker, BytesHere, Stuff;
    if |bytes| == 0 {
      EmptyStuff(bytes, m, d, p);
      StreamStep(d, p);
    } else {
      var head := StuffHead(bytes, m, d, p);
      StreamStep(d, p);
      StuffingRoundTrip(bytes[1..], m, d, p + |head|);
    }
  }

  // ----- any way to write a segment -----

  /** Optional fill bytes (section B.1.1.2 of T.81). */
  function FillBytes(n: nat): (b: seq<Byte>)
    ensures |b| == n && forall i :: 0 <= i < n ==> b[i] == 0xff
  {
    seq(n, _ => 0xff)
  }

  /** Stuffed bytes, with fill bytes in front of the stuffed ones. */
  function Filled(bytes: seq<Byte>, fills: seq<nat>): seq<Byte>
    requires |fills| == |bytes|
  {
    if |bytes| == 0 then []
    else (if bytes[0] == 0xff then FillBytes(fills[0]) + [0xff, 0] else [bytes[0]]) + Filled(bytes[1..], fills[1..])
  }

  lemma {:induction false} FillEndsAt(d: seq<Byte>, p: nat, e: nat)
    requires p <= e <= |d| && (forall i :: p <= i < e ==> d[i] == 0xff) && (e < |d| ==> d[e] != 0xff)
    ensures FillEnd(d, p) == e
    decreases e - p
  {
    if p < e {
      FillEndsAt(d, p + 1, e);
    }
  }

  /** FillBytes bytes are skipped up to the byte that decides. */
  lemma FillIsSkipped(d: seq<Byte>, p: nat, n: nat, x: Byte)
    requires x != 0xff && BytesHere(d, p, FillBytes(n) + [0xff, x])
    ensures p + n + 2 <= |d| && d[p] == 0xff && FillEnd(d, p + 1) == p + n + 1 && d[p + n + 1] == x
  {
    var b := FillBytes(n) + [0xff, x];
    forall j | p <= j < p + n + 2
      ensures d[j] == b[j - p]
    {
      assert d[p..p + |b|][j - p] == b[j - p];
    }
    FillEndsAt(d, p + 1, p + n + 1);
  }

  /** Stuffed bytes, however filled, are read as their bits, and reading goes on behind
      them. */
  lemma {:induction false} FilledRoundTrip(bytes: seq<Byte>, fills: seq<nat>, d: seq<Byte>, p: nat)
    requires |fills| == |bytes| && BytesHere(d, p, Filled(bytes, fills))
    ensures var q := p + |Filled(bytes, fills)|;
            q <= |d| && Destuff(d, p) == BitsOf(bytes) + Destuff(d, q) && NextMarker(d, p) == NextMarker(d, q)
    decreases |bytes|
  {
    hide ToBits, Destuff, NextMarker, BytesHere, FillEnd, FillBytes;
    if |bytes| == 0 {
      NothingHere(d, p, Filled(bytes, fills));
    } else {
      var head := if bytes[0] == 0xff then FillBytes(fills[0]) + [0xff, 0] else [bytes[0]];
      BytesConcat(d, p, head, Filled(bytes[1..], fills[1..]));
      FilledRoundTrip(bytes[1..], fills[1..], d, p + |head|);
      HeadIsRead(bytes[0], fills[0], d, p);
      var rest := Destuff(d, p + |Filled(bytes, fills)|);
      assert ToBits(bytes[0], 8) + (BitsOf(bytes[1..]) + rest) == ToBits(bytes[0], 8) + BitsOf(bytes[1..]) + rest;
    }
  }

  lemma NothingHere(d: seq<Byte>, p: nat, b: seq<Byte>)
    requires BytesHere(d, p, b) && |b| == 0
    ensures p <= |d|
  {
  }

  lemma HeadIsRead(b: Byte, fill: nat, d: seq<Byte>, p: nat)
    requires BytesHere(d, p, if b == 0xff then FillBytes(fill) + [0xff, 0] else [b])
    ensures var q := p + if b == 0xff then fill + 2 else 1;
            q <= |d| && Destuff(d, p) == ToBits(b, 8) + Destuff(d, q) && NextMarker(d, p) == NextMarker(d, q)
  {
    hide ToBits, FillBytes;
    if b == 0xff {
      FillIsSkipped(d, p, fill, 0);
    } else {
      assert d[p..p + 1][0] == b;
    }
  }

  /** What may stand behind them: a marker with its fill bytes, the end of the data, or a
      last 0xff without the byte that decides, which counts as data. */
  lemma FilledEnds(d: seq<Byte>, p: nat, n: nat, m: Byte)
    requires p <= |d|
    ensures IsMarker(m) && BytesHere(d, p, FillBytes(n) + [0xff, m]) ==>
              Destuff(d, p) == [] && p + n + 2 <= |d| && NextMarker(d, p) == Some((m, p + n + 2 as nat))
    ensures p == |d| ==> Destuff(d, p) == [] && NextMarker(d, p) == None
    ensures n > 0 && d[p..] == FillBytes(n) ==> Destuff(d, p) == ToBits(0xff, 8) && NextMarker(d, p) == None
  {
    hide ToBits, FillBytes, FillEnd, BytesHere;
    if IsMarker(m) && BytesHere(d, p, FillBytes(n) + [0xff, m]) {
      FillIsSkipped(d, p, n, m);
    }
    if n > 0 && d[p..] == FillBytes(n) {
      forall j | p <= j < |d|
        ensures d[j] == 0xff
      {
        assert d[p..][j - p] == FillBytes(n)[j - p];
      }
    }
  }

  /** A segment as it is written: padded, stuffed and closed by a marker. */
  function Segment(bits: Bitstring, m: Byte): seq<Byte>
  {
    Stuff(Pack(PadOnes(bits))) + [0xff, m]
  }

  lemma SegmentRoundTrip(bits: Bitstring, m: Byte, d: seq<Byte>, p: nat)
    requires IsMarker(m) && BytesHere(d, p, Segment(bits, m))
    ensures p + |Segment(bits, m)| <= |d|
    ensures Destuff(d, p) == PadOnes(bits)
    ensures NextMarker(d, p) == Some((m, p + |Segment(bits, m)| as nat))
  {
    hide Pack, Stuff, PadOnes, Destuff, NextMarker, BitsOf;
    StuffingRoundTrip(Pack(PadOnes(bits)), m, d, p);
    PackBits(PadOnes(bits));
  }

  lemma PaddedHere(bits: Bitstring)
    ensures Here(PadOnes(bits), 0, bits) && |bits| <= |PadOnes(bits)| < |bits| + 8
  {
  }
}
