/** The entropy-coded segment as the decoder reads it: bytes are pulled from
    memory, byte stuffing is removed, and bits are handed out from the top of
    a 32-bit buffer. */
module BitReader {
  import opened Wrappers
  import opened Bits
  import opened Canonical
  import opened Huffman

  // ----- the byte stream -----

  /** First position at or after p that does not hold a fill byte. */
  function FillEnd(d: seq<Byte>, p: nat): (q: nat)
    requires p <= |d|
    ensures p <= q <= |d| && (q < |d| ==> d[q] != 0xff)
    ensures forall i :: p <= i < q ==> d[i] == 0xff
    decreases |d| - p
  {
    if p == |d| || d[p] != 0xff then p else FillEnd(d, p + 1)
  }

  /** The bits coded from position p on: stuffed zero bytes and fill bytes are
      dropped, a marker or the end of the data stops the segment. */
  function Destuff(d: seq<Byte>, p: nat): Bitstring
    requires p <= |d|
    decreases |d| - p
  {
    if p == |d| then []
    else if d[p] != 0xff then ToBits(d[p], 8) + Destuff(d, p + 1)
    else
      var q := FillEnd(d, p + 1);
      if q == |d| then ToBits(0xff, 8)
      else if d[q] == 0 then ToBits(0xff, 8) + Destuff(d, q + 1)
      else []
  }

  /** The marker that stops the segment, with the position after it. */
  function NextMarker(d: seq<Byte>, p: nat): (r: Option<(Byte, nat)>)
    requires p <= |d|
    ensures r.Some? ==> p < r.value.1 <= |d|
    decreases |d| - p
  {
    if p == |d| then None
    else if d[p] != 0xff then NextMarker(d, p + 1)
    else
      var q := FillEnd(d, p + 1);
      if q == |d| then None
      else if d[q] == 0 then NextMarker(d, q + 1)
      else Some((d[q], q + 1))
  }

  /** The stream from p on, by what the next read finds. */
  lemma StreamStep(d: seq<Byte>, p: nat)
    requires p <= |d|
    ensures p == |d| ==> Destuff(d, p) == []
    ensures p < |d| && d[p] != 0xff ==>
              Destuff(d, p) == ToBits(d[p], 8) + Destuff(d, p + 1) && NextMarker(d, p) == NextMarker(d, p + 1)
    ensures p < |d| && d[p] == 0xff ==>
              var q := FillEnd(d, p + 1);
              if q == |d| then Destuff(d, p) == ToBits(0xff, 8) + Destuff(d, q) && NextMarker(d, p) == NextMarker(d, q)
              else if d[q] == 0 then Destuff(d, p) == ToBits(0xff, 8) + Destuff(d, q + 1) && NextMarker(d, p) == NextMarker(d, q + 1)
              else Destuff(d, p) == [] && NextMarker(d, p) == Some((d[q], q + 1 as nat))
  {
    hide ToBits;
  }

  // ----- 32-bit words -----

  function OrWord(a: Bitstring, b: Bitstring): (r: Bitstring)
    requires |a| == |b|
    ensures |r| == |a|
  {
    seq(|a|, i requires 0 <= i < |a| => a[i] || b[i])
  }

  function ShlWord(w: Bitstring, n: nat): (r: Bitstring)
    requires n <= |w|
    ensures |r| == |w|
  {
    w[n..] + Zeros(n)
  }

  function RotlWord(w: Bitstring, n: nat): (r: Bitstring)
    requires n <= |w|
    ensures |r| == |w|
  {
    w[n..] + w[..n]
  }

  function ByteWord(b: Byte): (r: Bitstring)
    ensures |r| == 32
  {
    Zeros(24) + ToBits(b, 8)
  }

  /** Oring a byte in just below the n valid bits appends it to them. */
  lemma AppendByte(w: Bitstring, n: nat, b: Byte)
    requires |w| == 32 && n <= 24 && forall i :: n <= i < 32 ==> !w[i]
    ensures OrWord(w, ShlWord(ByteWord(b), 24 - n)) == w[..n] + ToBits(b, 8) + Zeros(24 - n)
  {
    hide ToBits;
    var s := ShlWord(ByteWord(b), 24 - n);
    assert s == Zeros(n) + ToBits(b, 8) + Zeros(24 - n);
  }

  /** The top n bits of w are the stream's next bits; the others are clear. */
  ghost predicate Holds(w: Bitstring, n: int, src: Bitstring, at: nat)
  {
    |w| == 32 && forall i :: 0 <= i < 32 ==> w[i] == (i < n && PadBit(src, at + i))
  }

  /** What is left of the stream after its first p bits. */
  function Remaining(src: Bitstring, p: nat): (r: Bitstring)
    ensures r == [] ==> p >= |src|
  {
    if p <= |src| then src[p..] else []
  }

  lemma AppendHolds(w: Bitstring, n: nat, src: Bitstring, at: nat, b: Byte, rest: Bitstring)
    requires Holds(w, n, src, at) && n <= 24
    requires Remaining(src, at + n) == ToBits(b, 8) + rest || (Remaining(src, at + n) == [] == rest && b == 0)
    ensures Holds(OrWord(w, ShlWord(ByteWord(b), 24 - n)), n + 8, src, at)
    ensures Remaining(src, at + n + 8) == rest
    ensures Remaining(src, at + n) == [] || at + n + 8 <= |src|
  {
    AppendByte(w, n, b);
    var byte := ToBits(b, 8);
    assert forall i :: 0 <= i < 8 ==> byte[i] == PadBit(src, at + n + i) by {
      if b == 0 {
        assert byte == Zeros(8) by { ZeroBits(8); }
      }
      hide ToBits;
      if Remaining(src, at + n) == byte + rest {
        assert forall i :: 0 <= i < 8 ==> src[at + n + i] == (byte + rest)[i];
      }
    }
    hide ToBits;
    if Remaining(src, at + n) == byte + rest {
      assert src[at + n + 8..] == (byte + rest)[8..];
    }
  }

  lemma {:induction false} ZeroBits(n: nat)
    ensures ToBits(0, n) == Zeros(n)
  {
    if n > 0 {
      ZeroBits(n - 1);
    }
  }

  /** Shifting n bits out leaves the bits after them on top. */
  lemma ShiftHolds(w: Bitstring, n: nat, bits: int, src: Bitstring, at: nat)
    requires Holds(w, bits, src, at) && n <= bits <= 32
    ensures Holds(ShlWord(w, n), bits - n, src, at + n)
  {
    assert forall i :: 0 <= i < 32 - n ==> ShlWord(w, n)[i] == w[n + i];
  }

  /** The top of a filled buffer is the zero-extended stream itself. */
  lemma TopWindow(w: Bitstring, n: nat, bits: int, src: Bitstring, at: nat)
    requires Holds(w, bits, src, at) && n <= 32 && 0 <= bits
    requires n <= bits || at + bits >= |src|
    ensures w[..n] == PadWindow(src, at, n)
  {
  }

  /** What extend_receive makes of n bits with value v (section F.2.2.1). */
  function Extend(v: nat, n: nat): int
    requires 1 <= n
  {
    if v < Pow2(n - 1) then v - Pow2(n) + 1 else v
  }

  class Reader {
    const data: seq<Byte>
    var pos: nat
    var buffer: Bitstring
    var bits: int
    var marker: Byte
    var nomore: bool

    ghost var src: Bitstring              // the bits of the current segment
    ghost var at: nat                     // how many of them have been handed out
    ghost var goal: Option<(Byte, nat)>   // the marker that ends the segment

    ghost function Rest(): Bitstring
      reads this
      requires pos <= |data|
    {
      if nomore then [] else Destuff(data, pos)
    }

    ghost function Ahead(): Option<(Byte, nat)>
      reads this
      requires pos <= |data|
    {
      if nomore then Some((marker, pos)) else NextMarker(data, pos)
    }

    /** The buffer holds the next `bits` bits of the zero-extended segment above
        zeros, and the bytes not yet read hold exactly what follows them. */
    ghost predicate Valid()
      reads this
    {
      && pos <= |data| && |buffer| == 32 && 0 <= bits <= 32
      && Holds(buffer, bits, src, at)
      && Rest() == Remaining(src, at + bits)
      && Ahead() == goal
      && (!nomore ==> marker == 0xff)
      && (at + bits > |src| ==> nomore || pos == |data|)   // only the end is padded
    }

    constructor (d: seq<Byte>)
      ensures Valid() && data == d && pos == 0 && at == 0
      ensures src == Destuff(d, 0) && goal == NextMarker(d, 0)
    {
      data := d;
      pos, buffer, bits, marker, nomore := 0, Zeros(32), 0, 0xff, false;
      src, at, goal := Destuff(d, 0), 0, NextMarker(d, 0);
    }

    /** Forget the buffered bits; a new segment starts at the read position. */
    method Reset()
      requires pos <= |data|
      modifies this
      ensures old(pos) <= pos <= |data|
      ensures Valid() && pos == old(pos) && at == 0
      ensures src == Destuff(data, pos) && goal == NextMarker(data, pos)
    {
      bits, buffer, nomore, marker := 0, Zeros(32), false, 0xff;
      src, at, goal := Destuff(data, pos), 0, NextMarker(data, pos);
    }

    method Get8() returns (b: Byte)
      requires pos <= |data|
      modifies `pos
      ensures old(pos) <= pos <= |data|
      ensures old(pos) < |data| ==> b == data[old(pos)] && pos == old(pos) + 1
      ensures old(pos) == |data| ==> b == 0 && pos == old(pos)
    {
      if pos < |data| {
        b := data[pos];
        pos := pos + 1;
      } else {
        b := 0;
      }
    }

    method Grow()
      requires Valid() && bits <= 24
      modifies `pos, `buffer, `bits, `marker, `nomore
      ensures old(pos) <= pos <= |data|
      ensures Valid() && bits >= old(bits)
      ensures bits > 24 || (nomore && at + bits >= |src|)
    {
      var more := true;
      while more
        invariant old(pos) <= pos <= |data|
        invariant Valid() && bits >= old(bits)
        invariant more ==> bits <= 24
        invariant !more ==> bits > 24 || (nomore && at + bits >= |src|)
        decreases if more then 25 - bits else 0
      {
        more := GrowByte();
      }
    }

    /** The byte after a run of fill bytes. */
    method SkipFill() returns (c: Byte)
      requires pos <= |data|
      modifies `pos
      ensures old(pos) <= pos <= |data|
      ensures c != 0xff
      ensures var q := FillEnd(data, old(pos));
              if q == |data| then c == 0 && pos == q else c == data[q] && pos == q + 1
    {
      c := Get8();
      while c == 0xff
        invariant old(pos) <= pos <= |data|
        invariant var q := FillEnd(data, old(pos));
                  if c == 0xff then q == FillEnd(data, pos) && old(pos) < pos
                  else if q == |data| then c == 0 && pos == q else c == data[q] && pos == q + 1
        decreases |data| - pos, c
      {
        c := Get8();
      }
    }

    /** Fetch the next data byte of the segment, or note its marker. */
    method NextByte() returns (b: Byte, stop: bool)
      requires pos <= |data| && (!nomore ==> marker == 0xff)
      modifies `pos, `marker, `nomore
      ensures old(pos) <= pos <= |data|
      ensures pos <= |data| && Ahead() == old(Ahead()) && (!nomore ==> marker == 0xff)
      ensures stop ==> old(Rest()) == [] && nomore
      ensures !stop ==> old(Rest()) == ToBits(b, 8) + Rest()
                        || (old(Rest()) == [] == Rest() && b == 0 && (nomore || pos == |data|))
    {
      hide ToBits, Destuff, NextMarker, FillEnd;
      StreamStep(data, pos);
      StreamStep(data, |data|);
      b := 0;
      if !nomore {
        b := Get8();
      }
      if b == 0xff {
        var c := SkipFill();
        if c != 0 {
          marker := c;
          nomore := true;
          return b, true;
        }
      }
      return b, false;
    }

    /** One turn of the refill loop. */
    method GrowByte() returns (more: bool)
      requires Valid() && bits <= 24
      modifies `pos, `buffer, `bits, `marker, `nomore
      ensures old(pos) <= pos <= |data|
      ensures Valid() && bits >= old(bits)
      ensures more ==> old(bits) < bits <= 24
      ensures !more ==> bits > 24 || (nomore && at + bits >= |src|)
    {
      hide Holds, ToBits, Destuff, NextMarker, OrWord, ShlWord, ByteWord, Remaining;
      var b, stop := NextByte();
      if stop {
        return false;
      }
      AppendHolds(buffer, bits, src, at, b, Rest());
      buffer := OrWord(buffer, ShlWord(ByteWord(b), 24 - bits));
      bits := bits + 8;
      return bits <= 24;
    }

    /** The buffer is deep enough for n bits, or the segment is used up. */
    ghost predicate Filled(n: nat)
      reads this
    {
      n <= bits || at + bits >= |src|
    }

    method Need(n: nat)
      requires Valid() && n <= 16
      modifies `pos, `buffer, `bits, `marker, `nomore
      ensures old(pos) <= pos <= |data|
      ensures Valid() && bits >= old(bits) && Filled(n)
    {
      if bits < n {
        Grow();
      }
    }

    /** At the end of a restart interval: once fewer than eight bits are left,
        refilling finds the marker that ends the segment, if there is one. */
    method FindMarker()
      requires Valid()
      modifies `pos, `buffer, `bits, `marker, `nomore
      ensures old(pos) <= pos <= |data|
      ensures Valid()
      ensures at <= |src| < at + 8 && goal.Some? ==> nomore && goal == Some((marker, pos))
      ensures goal.None? ==> !nomore && marker == 0xff
    {
      if bits < 24 {
        Grow();
      }
    }

    method Drop(n: nat)
      requires Valid() && n <= bits
      modifies `buffer, `bits, `at
      ensures Valid() && at == old(at) + n && bits == old(bits) - n
    {
      hide Holds, ShlWord, Destuff, NextMarker;
      ShiftHolds(buffer, n, bits, src, at);
      buffer := ShlWord(buffer, n);
      bits := bits - n;
      at := at + n;
    }

    /** Decode one symbol with the acceleration table or, failing that, the
        search of the preshifted limits.  Unless the stream is at the one code
        the acceleration table cannot hold, the outcome is that of the
        standard's bit-by-bit procedure whenever the segment is long enough;
        at that one code it always goes wrong. */
    method HuffDecode(h: Table, ghost c: Counts) returns (r: int)
      requires Valid() && h.Built(c)
      modifies `pos, `buffer, `bits, `marker, `nomore, `at
      ensures old(pos) <= pos <= |data|
      ensures r < 256 && (r >= 0 ==> Valid() && at > old(at))
      ensures !Blind(c, PadWindow(src, old(at), 16)) ==>
                match Decode(c, src, old(at))
                case Found(k, next) => k < 256 && r == h.values[k] && at == next
                case NoCode => r < 0
                case Short => r >= 0 ==> at > |src|
      ensures Blind(c, PadWindow(src, old(at), 16)) ==> r < 0 || at >= old(at) + 10
    {
      hide Holds, Destuff, NextMarker, Acceptable, Total, Num, Top, Kraft, Len, LenFrom, Val, CodeBits, Shl, ToBits, Decode, DecodeFrom, FastCell, InFastRange, Pow2;
      Need(16);
      ghost var w := PadWindow(src, at, 16);
      TopWindow(buffer, 9, bits, src, at);
      TopWindow(buffer, 16, bits, src, at);
      assert w[..9] == buffer[..9];
      var x := Val(buffer[..9]);
      assert Pow2(9) == 512 by { Powers(); }
      var k := h.fast[x];
      assert FastCell(c, Total(c), x, k);
      if k < 255 {
        FastHit(c, w, k);
        PaddedDecode(c, k, src, at);
        var s := h.size[k];
        if s > bits {
          return -1;
        }
        Drop(s);
        return h.values[k];
      }
      k := SearchLevels(h, c, w);
      if k == 17 {
        PaddedAbove(c, src, at, w);
        bits := bits - 16;
        return -1;
      }
      ghost var blind := Blind(c, w);
      if !blind {
        SlowHit(c, w, k, h.fast[x]);
        PaddedDecode(c, SymbolAt(c, k, w), src, at);
      }
      if k > bits {
        return -1;
      }
      TopWindow(buffer, k, bits, src, at);
      assert w[..k] == buffer[..k];
      var id := Val(buffer[..k]) + h.delta[k];
      if id < 0 || id >= 256 {
        return -1;
      }
      assert !blind ==> h.size[id] == k && Val(buffer[..k]) == h.code[id];
      Drop(k);
      return h.values[id];
    }

    /** Take n bits and sign-extend them (sections F.2.2.1 and F.1.2.1.1). */
    method ExtendReceive(n: nat) returns (r: int)
      requires Valid() && 1 <= n <= 15
      modifies `pos, `buffer, `bits, `marker, `nomore, `at
      ensures old(pos) <= pos <= |data|
      ensures Valid() && at >= old(at) && -32767 <= r <= 32767
      ensures old(at) + n <= |src| ==> at == old(at) + n && r == Extend(Val(Window(src, old(at), n)), n)
      ensures old(at) + n > |src| ==>
                (at == old(at) && r == 0) || (at == old(at) + n && r == Extend(Val(PadWindow(src, old(at), n)), n))
    {
      hide Holds, Destuff, NextMarker, Val, Pow2;
      Need(n);
      if bits < n {
        return 0;
      }
      TopWindow(buffer, n, bits, src, at);
      ghost var w := buffer[..n];
      PadWindowInside(src, at, n);
      LeadingBit(w);
      ExtendBound(w);
      var negative := !buffer[0];
      var rot := RotlWord(buffer, n);
      ShiftHolds(buffer, n, bits, src, at);
      assert rot[..32 - n] == buffer[n..];
      buffer := rot[..32 - n] + Zeros(n);
      bits := bits - n;
      at := at + n;
      var k := Val(rot[32 - n..]);
      assert rot[32 - n..] == w;
      return k + if negative then 1 - Pow2(n) else 0;
    }

    method GetBits(n: nat) returns (r: nat)
      requires Valid() && 1 <= n <= 16
      modifies `pos, `buffer, `bits, `marker, `nomore, `at
      ensures old(pos) <= pos <= |data|
      ensures Valid() && at >= old(at) && r < Pow2(n)
      ensures old(at) + n <= |src| ==> at == old(at) + n && r == Val(Window(src, old(at), n))
      ensures old(at) + n > |src| ==>
                (at == old(at) && r == 0) || (at == old(at) + n && r == Val(PadWindow(src, old(at), n)))
    {
      hide Holds, Destuff, NextMarker, Val, Pow2;
      Need(n);
      if bits < n {
        return 0;
      }
      TopWindow(buffer, n, bits, src, at);
      PadWindowInside(src, at, n);
      ghost var w := buffer[..n];
      var rot := RotlWord(buffer, n);
      ShiftHolds(buffer, n, bits, src, at);
      assert rot[..32 - n] == buffer[n..];
      buffer := rot[..32 - n] + Zeros(n);
      bits := bits - n;
      at := at + n;
      assert rot[32 - n..] == w;
      return Val(rot[32 - n..]);
    }

    method GetBit() returns (r: bool)
      requires Valid()
      modifies `pos, `buffer, `bits, `marker, `nomore, `at
      ensures old(pos) <= pos <= |data|
      ensures Valid() && at >= old(at)
      ensures old(at) < |src| ==> at == old(at) + 1 && r == src[old(at)]
      ensures old(at) >= |src| ==> !r && at <= old(at) + 1
    {
      Need(1);
      if bits < 1 {
        return false;
      }
      r := buffer[0];
      Drop(1);
    }

    /** The first length above nine bits whose limit exceeds the window. */
    method SearchLevels(h: Table, ghost c: Counts, ghost w: Bitstring) returns (k: nat)
      requires |buffer| == 32 && h.Built(c) && |w| == 16 && w == buffer[..16]
      ensures 10 <= k <= 17
      ensures k <= 16 ==> Val(w) < Limit(c, k)
      ensures k > 10 ==> Limit(c, k - 1) <= Val(w)
    {
      hide Val, Limit, Acceptable, Total;
      var temp := Val(buffer[..16]);
      assert Pow2(16) == 65536 by { Powers(); }
      k := FAST_BITS + 1;
      while temp >= h.maxcode[k]
        invariant 10 <= k <= 17
        invariant k > 10 ==> Limit(c, k - 1) <= temp
        decreases 17 - k
      {
        k := k + 1;
      }
    }
  }

  lemma SlowHit(c: Counts, w: Bitstring, k: nat, cell: int)
    requires Acceptable(c) && |w| == 16 && 10 <= k <= 16 && cell >= 255
    requires FastCell(c, Total(c), Val(w[..9]), cell) && !Blind(c, w)
    requires Val(w) < Limit(c, k) && (k > 10 ==> Limit(c, k - 1) <= Val(w))
    ensures 0 <= SymbolAt(c, k, w) < Total(c) <= 256
    ensures Len(c, SymbolAt(c, k, w)) == k
    ensures Val(w[..k]) == Code(c, SymbolAt(c, k, w)) < 65536
    ensures StartsWith(w, CodeBits(c, SymbolAt(c, k, w)))
  {
    hide Len, LenFrom, Val, CodeBits, Total, Blind, Limit, Code;
    FastMiss(c, w, cell);
    LevelSearch(c, k, w);
    Pow2Mono(k, 16);
    Powers();
  }

  /** A window above the last limit is neither blind nor the start of a code. */
  lemma PaddedAbove(c: Counts, src: Bitstring, at: nat, w: Bitstring)
    requires Acceptable(c) && w == PadWindow(src, at, 16) && Limit(c, 16) <= Val(w)
    ensures !Decode(c, src, at).Found? && !Blind(c, w)
  {
    hide Len, LenFrom, Val, CodeBits, FastCell, Limit, Code, Decode, Total;
    PaddedNoCode(c, src, at);
    CodesTile(c, w);
  }

  lemma PadWindowInside(src: Bitstring, at: nat, n: nat)
    ensures at + n <= |src| ==> PadWindow(src, at, n) == Window(src, at, n)
  {
  }

  /** The first bit of a magnitude tells on which side of the middle it lies. */
  lemma LeadingBit(w: Bitstring)
    requires |w| >= 1
    ensures w[0] <==> Val(w) >= Pow2(|w| - 1)
  {
    assert w == w[..1] + w[1..];
    ValConcat(w[..1], w[1..]);
    ShlOne(|w| - 1);
    assert Val(w[..1]) == BitOf(w[0]);
  }

  lemma ExtendBound(w: Bitstring)
    requires 1 <= |w| <= 15
    ensures -32767 <= Extend(Val(w), |w|) <= 32767
  {
    hide Val;
    Pow2Mono(|w|, 15);
    Powers();
  }

  lemma FastHit(c: Counts, w: Bitstring, k: int)
    requires Acceptable(c) && |w| == 16 && k < 255 && FastCell(c, Total(c), Val(w[..9]), k)
    ensures 0 <= k < Total(c) && Len(c, k) <= 9 && StartsWith(w, CodeBits(c, k)) && !Blind(c, w)
  {
    hide Acceptable, Len, LenFrom, Val, CodeBits, Total;
    FastRangeIsPrefix(c, k, w);
    if Blind(c, w) {
      PrefixFree(c, k, 255, w);
    }
  }

  lemma InsideData(j: Reader)
    requires j.Valid()
    ensures j.pos <= |j.data|
  {
  }
}
