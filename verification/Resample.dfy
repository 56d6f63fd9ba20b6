/** The vertical walk of the upsampler: which two stored rows each output row
    is interpolated from. */
module Resample {
  import opened Geometry

  function Min(a: int, b: int): int { if a < b then a else b }

  /** The row above or below, for the upper and lower part of a row group. */
  function Neighbour(j: nat, vs: nat): int
    requires 1 <= vs <= 4
  {
    if j % vs < vs - vs / 2 then j / vs - 1 else j / vs + 1
  }

  function Clamp(r: int, rows: nat): int
  {
    if r < 0 then 0 else if r >= rows then rows - 1 else r
  }

  /** Output row j and the stored rows as points on one line, a stored row vs units
      apart from the next: twice the distance from the centre of stored row r. */
  function Beyond(j: nat, vs: nat, r: int): int
  {
    2 * j + 1 - vs * (2 * r + 1)
  }

  /** The near row is the one whose group holds the output row.  The far row is next to
      it, on the output row's side of its centre; at the centre it is the row above. */
  lemma NeighbourIsBeyond(j: nat, vs: nat)
    requires 1 <= vs <= 4
    ensures var near, far := j / vs, Neighbour(j, vs);
            && 0 - vs < Beyond(j, vs, near) < vs
            && far == if Beyond(j, vs, near) > 0 then near + 1 else near - 1
  {
    DivSplit(j, vs);
    var q, r := j / vs, j % vs;
    assert vs * (2 * q + 1) == 2 * (q * vs) + vs;
    assert Beyond(j, vs, q) == 2 * r + 1 - vs;
  }

  /** The two rows that output row j is interpolated from: its own and the nearest
      stored row to the one beyond. */
  lemma RowsOf(j: nat, vs: nat, rows: nat)
    requires 1 <= vs <= 4 && j / vs < rows
    ensures var near, far := j / vs, Clamp(Neighbour(j, vs), rows);
            if Beyond(j, vs, near) > 0 then far == (if near + 1 < rows then near + 1 else near)
            else far == if near > 0 then near - 1 else 0
  {
    hide Neighbour, Beyond;
    NeighbourIsBeyond(j, vs);
  }

  class Walk {
    const vs: nat      // vertical expansion
    const w2: nat      // stride of the plane
    const rows: nat    // rows of the component
    var ystep: nat
    var ypos: nat
    var line0: nat
    var line1: nat
    ghost var j: nat   // output rows produced so far

    ghost predicate Valid()
      reads this
    {
      && 1 <= vs <= 4 && rows >= 1 && ystep < vs
      && ypos * vs + ystep == j + vs / 2
      && line1 == w2 * Min(ypos, rows - 1)
      && line0 == w2 * Clamp(ypos - 1, rows)
    }

    constructor (vs: nat, w2: nat, rows: nat)
      requires 1 <= vs <= 4 && rows >= 1
      ensures Valid() && j == 0 && this.vs == vs && this.w2 == w2 && this.rows == rows
    {
      this.vs, this.w2, this.rows := vs, w2, rows;
      ystep, ypos, line0, line1 := vs / 2, 0, 0, 0;
      j := 0;
    }

    /** One output row: offsets of the near and the far row, then the step. */
    method Next() returns (near: nat, far: nat)
      requires Valid() && j < rows * vs
      modifies this
      ensures Valid() && j == old(j) + 1
      ensures near == w2 * (old(j) / vs) && old(j) / vs < rows
      ensures far == w2 * Clamp(Neighbour(old(j), vs), rows)
    {
      Phase(j, vs, ypos, ystep, rows);
      var bottom := ystep >= vs / 2;
      near, far := if bottom then line1 else line0, if bottom then line0 else line1;
      ystep := ystep + 1;
      if ystep >= vs {
        ystep := 0;
        line0 := line1;
        ypos := ypos + 1;
        if ypos < rows {
          line1 := line1 + w2;
          assert w2 * ypos == w2 * (ypos - 1) + w2;
        }
      }
      j := j + 1;
    }
  }

  /** Position and phase of the walk at output row j. */
  lemma Phase(j: nat, vs: nat, ypos: nat, ystep: nat, rows: nat)
    requires 1 <= vs <= 4 && ystep < vs && ypos * vs + ystep == j + vs / 2 && j < rows * vs
    ensures j / vs < rows
    ensures ystep >= vs / 2 ==> ypos == j / vs && j % vs < vs - vs / 2
    ensures ystep < vs / 2 ==> ypos == j / vs + 1 && j % vs >= vs - vs / 2
  {
    DivSplit(j, vs);
    Less(j / vs, j % vs, vs, rows);
    if ystep >= vs / 2 {
      QuotRem(ypos, vs, ystep - vs / 2);
    } else {
      assert ypos >= 1;
      MulMono(ypos, ypos, vs);
      QuotRem(ypos - 1, vs, vs + ystep - vs / 2);
    }
  }

  /** The whole walk over an image of the given height: output row j takes row
      floor(j/vs) as near row; the far row is the next one on the output row's side of
      the near row's centre, or the near row itself at the edge of the plane. */
  method WalkRows(a: Axis, w2: nat) returns (rows: seq<(nat, nat)>)
    requires a.Valid()
    ensures |rows| == a.size
    ensures var vs := a.top / a.factor;
            && 1 <= vs <= 4
            && forall j :: 0 <= j < a.size ==>
                 && j / vs < a.Samples()
                 && rows[j].0 == w2 * (j / vs)
                 && rows[j].1 == w2 * (if Beyond(j, vs, j / vs) > 0 then (if j / vs + 1 < a.Samples() then j / vs + 1 else j / vs)
                                       else if j / vs > 0 then j / vs - 1 else 0)
  {
    hide Axis.Samples, Clamp, Neighbour, Beyond;
    LineBufferFits(a);
    var vs := a.top / a.factor;
    CeilDivIsLeast(a.size, vs, a.Samples());
    EnoughRows(a.size, vs, a.Samples());
    var w := new Walk(vs, w2, a.Samples());
    rows := [];
    for j := 0 to a.size
      invariant w.Valid() && w.j == j == |rows| && w.vs == vs && w.w2 == w2 && w.rows == a.Samples()
      invariant fresh(w)
      invariant forall i :: 0 <= i < j ==> i / vs < a.Samples() && rows[i].0 == w2 * (i / vs)
      invariant forall i :: 0 <= i < j ==>
                  rows[i].1 == w2 * (if Beyond(i, vs, i / vs) > 0 then (if i / vs + 1 < a.Samples() then i / vs + 1 else i / vs)
                                     else if i / vs > 0 then i / vs - 1 else 0)
    {
      var near, far := w.Next();
      RowsOf(j, vs, a.Samples());
      rows := rows + [(near, far)];
    }
  }

  lemma EnoughRows(n: nat, d: nat, q: nat)
    requires d > 0 && n >= 1 && n <= q * d
    ensures q >= 1
  {
  }
}
