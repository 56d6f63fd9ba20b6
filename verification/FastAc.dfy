/** One AC step of a scan: the reference reads a Huffman symbol and then its
    magnitude bits; the decoder tries a table that does both at once. */
module FastAc {
  import opened Machine
  import opened Bits
  import opened Canonical
  import opened Huffman
  import opened BitReader

  datatype AcStep =
    | Coef(run: nat, value: int, next: nat)   // run of zeros, then a value
    | Zero(run: nat, next: nat)               // symbol with magnitude category 0
    | Bad                                     // no such code
    | Out                                     // the segment ends first

  /** Section F.2.2.2: DECODE, then RECEIVE and EXTEND. */
  function ReadStep(code: HuffCode, src: Bitstring, at: nat): AcStep
  {
    match Decode(code.counts, src, at)
    case NoCode => Bad
    case Short => Out
    case Found(k, next) =>
      if k >= 256 then Bad else
      var rs := code.values[k];
      var s, r := rs % 16, rs / 16;
      if s == 0 then Zero(r, next)
      else if next + s <= |src| then Coef(r, Extend(Val(Window(src, next, s)), s), next + s)
      else Out
  }

  // ----- packed entries: value, run and total length in sixteen bits -----

  function EntryRun(e: int): nat { (e / 16) % 16 }

  function EntryLength(e: int): nat { e % 16 }

  function EntryValue(e: int): int { e / 256 }

  function Pack(value: int, run: int, length: int): int
  {
    value * 256 + run * 16 + length
  }

  lemma PackUnpack(value: int, run: int, length: int)
    requires 0 <= run < 16 && 0 < length < 16
    ensures var e := Pack(value, run, length);
            EntryRun(e) == run && EntryLength(e) == length && EntryValue(e) == value && e != 0
    ensures -128 <= value <= 127 ==> -32768 <= Pack(value, run, length) <= 32767
  {
    hide EntryRun, EntryLength, EntryValue;
    var e, q := Pack(value, run, length), value * 16 + run;
    assert e == q * 16 + length == value * 256 + (run * 16 + length);
    Split16(q, length);
    Split16(value, run);
    Split256(value, run * 16 + length);
    Unpacked(e, q);
  }

  lemma Unpacked(e: int, q: int)
    requires e / 16 == q
    ensures EntryRun(e) == q % 16 && EntryLength(e) == e % 16 && EntryValue(e) == e / 256
  {
  }

  lemma Split16(q: int, r: int)
    requires 0 <= r < 16
    ensures (q * 16 + r) / 16 == q && (q * 16 + r) % 16 == r
  {
  }

  lemma Split256(q: int, r: int)
    requires 0 <= r < 256
    ensures (q * 256 + r) / 256 == q && (q * 256 + r) % 256 == r
  {
  }

  /** A non-zero cell describes the code and magnitude that its index begins with. */
  ghost predicate Cell(code: HuffCode, w: Bitstring, k: nat, e: int)
    requires |w| == 9
  {
    && k < Total(code.counts) && k < 256
    && var len, rs := Len(code.counts, k), code.values[k];
    && rs % 16 > 0 && len + rs % 16 <= 9
    && StartsWith(w, CodeBits(code.counts, k))
    && e == Pack(Extend(Val(w[len..len + rs % 16]), rs % 16), rs / 16, len + rs % 16)
  }

  /** What stands at an index: a cell, or zero exactly when no cell for the index
      fits sixteen bits.  Symbol number 255 never has one: it is not in the
      acceleration table. */
  ghost predicate Entry(code: HuffCode, w: Bitstring, e: int)
    requires |w| == 9
  {
    && (e != 0 ==> exists k :: Cell(code, w, k, e))
    && (e == 0 ==> forall k, v :: Cell(code, w, k, v) && k < 255 ==> !Int16(v))
  }

  ghost predicate TableBuilt(code: HuffCode, fac: seq<int>)
  {
    |fac| == 512 && forall x :: 0 <= x < 512 ==> Entry(code, ToBits(x, 9), fac[x])
  }

  /** Fill the combined table from a Huffman table and its acceleration table. */
  method BuildFastAc(h: Table, code: HuffCode, fac: array<int>)
    requires h.Represents(code) && fac.Length == 512
    requires fac != h.fast && fac != h.size && fac != h.maxcode && fac != h.delta && fac != h.code
    modifies fac
    ensures TableBuilt(code, fac[..])
  {
    hide Entry;
    for i := 0 to 512
      invariant forall x :: 0 <= x < i ==> Entry(code, ToBits(x, 9), fac[x])
      invariant h.Represents(code)
    {
      var e := BuildEntry(h, code, i);
      fac[i] := e;
    }
  }

  method BuildEntry(h: Table, code: HuffCode, i: nat) returns (e: int)
    requires h.Represents(code) && i < 512
    ensures Entry(code, ToBits(i, 9), e)
  {
    hide Total, Acceptable, FastCell, Len, LenFrom, Code, InFastRange, Num, Top, CodeBits, Val, ToBits, Pow2, Entry, Cell;
    var fast := h.fast[i];
    assert FastCell(code.counts, Total(code.counts), i, fast);
    e := 0;
    if fast < 255 {
      CellSymbol(code.counts, i, fast);
      var rs := h.values[fast];
      var run, mag := (rs / 16) % 16, rs % 16;
      var len := h.size[fast];
      if mag != 0 && len + mag <= FAST_BITS {
        var w := ShlWord(ToBits(i, 9), len);
        assert w[..mag] == ToBits(i, 9)[len..len + mag];
        var k: int := Val(w[..mag]);
        var m := Pow2(mag - 1);
        if k < m {
          k := k + (1 - Pow2(mag));
        }
        if -128 <= k <= 127 {
          e := k * 256 + run * 16 + (len + mag);
        }
        EntryOf(code, i, fast, k, e);
      } else {
        NoEntry(code, i, fast);
      }
    } else {
      NoSymbol(code, i, fast);
    }
  }

  /** The symbol of the fast table is the only one that can have a cell. */
  lemma CellIsFast(code: HuffCode, i: nat, fast: int, k: nat, v: int)
    requires Acceptable(code.counts) && i < 512 && FastCell(code.counts, Total(code.counts), i, fast)
    requires Cell(code, ToBits(i, 9), k, v) && k < 255
    ensures fast < 255 && k == fast
  {
    hide Kraft, Len, LenFrom, Val, ToBits, CodeBits, Total, InFastRange, Extend, Pow2, Pack;
    var w := ToBits(i, 9);
    Powers();
    ValToBits(i, 9);
    assert w[..9] == w;
    FastRangeIsPrefix(code.counts, k, w);
    if fast < 255 {
      CellSymbol(code.counts, i, fast);
      PrefixFree(code.counts, fast, k, w);
    }
  }

  lemma NoSymbol(code: HuffCode, i: nat, fast: int)
    requires Acceptable(code.counts) && i < 512 && FastCell(code.counts, Total(code.counts), i, fast) && fast >= 255
    ensures Entry(code, ToBits(i, 9), 0)
  {
    hide Acceptable, FastCell, Cell, ToBits;
    forall k: nat, v: int
      ensures !(Cell(code, ToBits(i, 9), k, v) && k < 255)
    {
      if Cell(code, ToBits(i, 9), k, v) && k < 255 {
        CellIsFast(code, i, fast, k, v);
      }
    }
  }

  lemma NoEntry(code: HuffCode, i: nat, fast: nat)
    requires Acceptable(code.counts) && i < 512 && FastCell(code.counts, Total(code.counts), i, fast) && fast < 255
    requires fast < Total(code.counts)
    requires var mag := code.values[fast] % 16; mag == 0 || Len(code.counts, fast) + mag > 9
    ensures Entry(code, ToBits(i, 9), 0)
  {
    hide Acceptable, FastCell, ToBits, Len, Total, CodeBits, Val, Pow2, Extend, StartsWith, Pack;
    forall k: nat, v: int
      ensures !(Cell(code, ToBits(i, 9), k, v) && k < 255)
    {
      if Cell(code, ToBits(i, 9), k, v) && k < 255 {
        CellIsFast(code, i, fast, k, v);
      }
    }
  }

  /** The entry packed for the fast symbol; zero when its value has no room. */
  lemma EntryOf(code: HuffCode, i: nat, fast: nat, value: int, e: int)
    requires Acceptable(code.counts) && i < 512 && FastCell(code.counts, Total(code.counts), i, fast) && fast < 255
    requires fast < Total(code.counts) && StartsWith(ToBits(i, 9), CodeBits(code.counts, fast))
    requires var len, rs := Len(code.counts, fast), code.values[fast];
             && rs % 16 > 0 && len + rs % 16 <= 9
             && value == Extend(Val(ToBits(i, 9)[len..len + rs % 16]), rs % 16)
             && e == if -128 <= value <= 127 then Pack(value, rs / 16, len + rs % 16) else 0
    ensures Entry(code, ToBits(i, 9), e)
  {
    hide Acceptable, FastCell, ToBits, Len, Total, CodeBits, Val, Pow2, Extend, StartsWith;
    var len, rs := Len(code.counts, fast), code.values[fast];
    var p := Pack(value, rs / 16, len + rs % 16);
    assert Cell(code, ToBits(i, 9), fast, p);
    PackUnpack(value, rs / 16, len + rs % 16);
    forall k, v | e == 0 && Cell(code, ToBits(i, 9), k, v) && k < 255
      ensures !Int16(v)
    {
      CellIsFast(code, i, fast, k, v);
    }
  }

  lemma CellSymbol(c: Counts, i: nat, cell: int)
    requires Acceptable(c) && i < 512 && cell < 255 && FastCell(c, Total(c), i, cell)
    ensures 0 <= cell < Total(c) && Len(c, cell) <= 9 && StartsWith(ToBits(i, 9), CodeBits(c, cell))
  {
    hide Acceptable, Len, LenFrom, Val, ToBits, CodeBits, Total;
    Powers();
    ValToBits(i, 9);
    assert ToBits(i, 9)[..9] == ToBits(i, 9);
    FastRangeIsPrefix(c, cell, ToBits(i, 9));
  }

  /** The combined table refines symbol decoding followed by sign extension:
      where it has an entry for the next nine bits, that entry is the step the
      reference takes, or the segment is too short for it. */
  lemma FastAcRefines(code: HuffCode, fac: seq<int>, src: Bitstring, at: nat)
    requires Acceptable(code.counts) && TableBuilt(code, fac)
    ensures var x := Val(PadWindow(src, at, 9));
            && x < 512
            && (fac[x] != 0 ==>
                  && 0 < EntryLength(fac[x]) <= 9
                  && ReadStep(code, src, at) ==
                       if at + EntryLength(fac[x]) <= |src|
                       then Coef(EntryRun(fac[x]), EntryValue(fac[x]), at + EntryLength(fac[x]))
                       else Out)
  {
    hide ReadStep, Cell, Pack, Val, Pow2, PadWindow, ToBits, CodeBits, Total, Acceptable, Int16, EntryRun, EntryLength, EntryValue;
    var w := PadWindow(src, at, 9);
    Powers();
    var x := Val(w);
    ToBitsVal(w);
    if fac[x] != 0 {
      assert Entry(code, ToBits(x, 9), fac[x]);
      var k :| Cell(code, ToBits(x, 9), k, fac[x]);
      CellRefines(code, src, at, k, fac[x]);
    }
  }

  lemma CellRefines(code: HuffCode, src: Bitstring, at: nat, k: nat, e: int)
    requires Acceptable(code.counts)
    requires Cell(code, PadWindow(src, at, 9), k, e)
    ensures 0 < EntryLength(e) <= 9
    ensures ReadStep(code, src, at) ==
              if at + EntryLength(e) <= |src| then Coef(EntryRun(e), EntryValue(e), at + EntryLength(e)) else Out
  {
    hide Val, Pow2, ToBits, CodeBits, Total, Acceptable, Len, LenFrom, Extend, Pack, EntryRun, EntryLength, EntryValue, Decode, DecodeFrom;
    var w := PadWindow(src, at, 9);
    var c := code.counts;
    var len, rs := Len(c, k), code.values[k];
    var mag := rs % 16;
    PackUnpack(Extend(Val(w[len..len + mag]), mag), rs / 16, len + mag);
    assert StartsWith(PadWindow(src, at, 16), CodeBits(c, k)) by {
      assert PadWindow(src, at, 16)[..len] == w[..len];
    }
    PaddedDecode(c, k, src, at);
    if at + len + mag <= |src| {
      assert w[len..len + mag] == Window(src, at + len, mag);
    }
  }
}
