/** The decoder's loop over the blocks of a progressive AC scan. */
module BandScan {
  import opened Bits
  import opened Huffman
  import opened BitReader
  import opened FastAc
  import opened Zigzag
  import opened Block
  import opened Progressive
  import opened Scans

  ghost predicate BandReady(p: Pass, h: Table, fac: array<int>, data: array<int>)
    reads h.size, h.maxcode, h.delta, h.code, h.fast, h.values, fac
  {
    && p.Valid() && data.Length == 64 && h.Realizes(p.code)
    && fac.Length == 512 && TableBuilt(p.code, fac[..]) && Apart(data, h) && data != fac
  }

  /** One block of the scan, by its kind. */
  method DecodeBandBlock(j: Reader, data: array<int>, h: Table, fac: array<int>, p: Pass, eob: nat) returns (ok: bool, eob': nat)
    requires j.Valid() && BandReady(p, h, fac, data)
    modifies j`pos, j`buffer, j`bits, j`marker, j`nomore, j`at, data
    ensures old(j.pos) <= j.pos <= |j.data|
    ensures BandReady(p, h, fac, data) && (ok ==> j.Valid())
    ensures AcOutcome(Step(p, j.src, old(j.at), old(data[..]), eob), ok, data[..], eob', j.at)
  {
    hide Destuff, NextMarker, Holds, TableBuilt, AcRefine, AcFirst, AcOutcome;
    if p.refine {
      ok, eob' := DecodeAcRefine(j, data, h, p.ss, p.se, p.al, eob, p.code);
    } else {
      ok, eob' := DecodeAcFirst(j, data, h, fac, p.ss, p.se, p.al, eob, p.code);
    }
  }

  /** The coefficients of a block are brought into the working block. */
  method Load(data: array<int>, cells: Cells, p: Pass, h: Table, fac: array<int>)
    requires BandReady(p, h, fac, data)
    modifies data
    ensures BandReady(p, h, fac, data) && data[..] == cells
  {
    hide TableBuilt, Table.Built, HuffCode.Safe;
    for i := 0 to 64
      invariant forall x :: 0 <= x < i ==> data[x] == cells[x]
    {
      data[i] := cells[i];
    }
  }

  /** What is still to come completes what has been decoded. */
  ghost predicate Completes(goal: BandResult, done: seq<Cells>, rest: BandResult)
  {
    goal.Band? ==> rest.Band? && goal.blocks == done + rest.blocks && goal.eob == rest.eob && goal.next == rest.next
  }

  /** Some block of the scan is corrupt. */
  ghost predicate Corrupt(p: Pass, src: Bitstring, at: nat, blocks: seq<Cells>, eob: nat)
    requires p.ss <= p.se < 64
    decreases |blocks|
  {
    |blocks| > 0 &&
    var r := Step(p, src, at, blocks[0], eob);
    r.ProgCorrupt? || (r.Refined? && Corrupt(p, src, r.next, blocks[1..], r.eob))
  }

  lemma CorruptStep(p: Pass, src: Bitstring, at: nat, blocks: seq<Cells>, i: nat, eob: nat)
    requires p.ss <= p.se < 64 && i < |blocks| && Corrupt(p, src, at, blocks[i..], eob)
    ensures var r := Step(p, src, at, blocks[i], eob);
            r.ProgCorrupt? || (r.Refined? && Corrupt(p, src, r.next, blocks[i + 1..], r.eob))
  {
    hide Step;
    assert blocks[i..][0] == blocks[i] && blocks[i..][1..] == blocks[i + 1..];
  }

  lemma NothingCorrupt(p: Pass, src: Bitstring, at: nat, eob: nat)
    requires p.ss <= p.se < 64
    ensures !Corrupt(p, src, at, [], eob)
  {
  }

  lemma CompletesStart(goal: BandResult)
    ensures Completes(goal, [], goal)
  {
    assert goal.Band? ==> [] + goal.blocks == goal.blocks;
  }

  lemma CompletesStep(p: Pass, src: Bitstring, at: nat, blocks: seq<Cells>, i: nat, eob: nat, goal: BandResult, done: seq<Cells>)
    requires p.ss <= p.se < 64 && i < |blocks| && Completes(goal, done, DecodeBand(p, src, at, blocks[i..], eob))
    ensures var r := Step(p, src, at, blocks[i], eob);
            goal.Band? ==> r.Refined? && Completes(goal, done + [r.cells], DecodeBand(p, src, r.next, blocks[i + 1..], r.eob))
  {
    hide Step;
    var r := Step(p, src, at, blocks[i], eob);
    assert blocks[i..][0] == blocks[i] && blocks[i..][1..] == blocks[i + 1..];
    if goal.Band? {
      var rest := DecodeBand(p, src, r.next, blocks[i + 1..], r.eob);
      assert done + ([r.cells] + rest.blocks) == done + [r.cells] + rest.blocks;
    }
  }

  lemma CompletesEnd(p: Pass, src: Bitstring, at: nat, blocks: seq<Cells>, eob: nat, goal: BandResult, done: seq<Cells>)
    requires p.ss <= p.se < 64 && |blocks| == 0 && Completes(goal, done, DecodeBand(p, src, at, blocks, eob))
    ensures goal.Band? ==> goal == Band(done, eob, at)
  {
    assert done + [] == done;
  }

  /** A scan of one band over the given blocks: the EOB run is carried from
      block to block. */
  method ParseBand(j: Reader, data: array<int>, h: Table, fac: array<int>, p: Pass, blocks: seq<Cells>)
    returns (ok: bool, out: seq<Cells>, eob: nat)
    requires j.Valid() && BandReady(p, h, fac, data)
    modifies j`pos, j`buffer, j`bits, j`marker, j`nomore, j`at, data
    ensures old(j.pos) <= j.pos <= |j.data|
    ensures var r := DecodeBand(p, j.src, old(j.at), blocks, 0);
            r.Band? ==> ok && out == r.blocks && eob == r.eob && j.at == r.next
    ensures Corrupt(p, j.src, old(j.at), blocks, 0) ==> !ok
  {
    hide Destuff, NextMarker, Holds, BandReady, Step, DecodeBand, Completes, Corrupt, Reader.Valid;
    ok, out, eob := true, [], 0;
    InBand(p, h, fac, data);
    InsideData(j);
    ghost var goal := DecodeBand(p, j.src, j.at, blocks, 0);
    ghost var bad := Corrupt(p, j.src, j.at, blocks, 0);
    assert blocks[0..] == blocks;
    CompletesStart(goal);
    for i := 0 to |blocks|
      invariant old(j.pos) <= j.pos <= |j.data|
      invariant ok && j.Valid() && BandReady(p, h, fac, data)
      invariant bad ==> Corrupt(p, j.src, j.at, blocks[i..], eob)
      invariant goal.Band? ==> Completes(goal, out, DecodeBand(p, j.src, j.at, blocks[i..], eob))
    {
      Load(data, blocks[i], p, h, fac);
      if goal.Band? {
        CompletesStep(p, j.src, j.at, blocks, i, eob, goal, out);
      }
      if bad {
        CorruptStep(p, j.src, j.at, blocks, i, eob);
      }
      ok, eob := DecodeBandBlock(j, data, h, fac, p, eob);
      if !ok {
        return;
      }
      out := out + [data[..]];
    }
    assert blocks[|blocks|..] == [];
    NothingCorrupt(p, j.src, j.at, eob);
    if goal.Band? {
      CompletesEnd(p, j.src, j.at, blocks[|blocks|..], eob, goal, out);
    }
  }

  lemma InBand(p: Pass, h: Table, fac: array<int>, data: array<int>)
    requires BandReady(p, h, fac, data)
    ensures 1 <= p.ss <= p.se < 64 && data.Length == 64
  {
  }
}
