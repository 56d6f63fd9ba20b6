/** The zigzag order of section A.3.6 of T.81, extended by fifteen entries so
    that a corrupt run may overshoot the block. */
module Zigzag {

  type Cell = x: nat | x < 64

  /** The 64 coefficients of a block. */
  type Cells = s: seq<int> | |s| == 64 witness seq(64, _ => 0)

  /** Row-major position of the k-th coefficient of the stream. */
  function Zig(k: nat): Cell
    requires k < 79
  {
    if k < 8 then (match k case 0 => 0 case 1 => 1 case 2 => 8 case 3 => 16 case 4 => 9 case 5 => 2 case 6 => 3 case _ => 10)
    else if k < 16 then (match k case 8 => 17 case 9 => 24 case 10 => 32 case 11 => 25 case 12 => 18 case 13 => 11 case 14 => 4 case _ => 5)
    else if k < 24 then (match k case 16 => 12 case 17 => 19 case 18 => 26 case 19 => 33 case 20 => 40 case 21 => 48 case 22 => 41 case _ => 34)
    else if k < 32 then (match k case 24 => 27 case 25 => 20 case 26 => 13 case 27 => 6 case 28 => 7 case 29 => 14 case 30 => 21 case _ => 28)
    else if k < 40 then (match k case 32 => 35 case 33 => 42 case 34 => 49 case 35 => 56 case 36 => 57 case 37 => 50 case 38 => 43 case _ => 36)
    else if k < 48 then (match k case 40 => 29 case 41 => 22 case 42 => 15 case 43 => 23 case 44 => 30 case 45 => 37 case 46 => 44 case _ => 51)
    else if k < 56 then (match k case 48 => 58 case 49 => 59 case 50 => 52 case 51 => 45 case 52 => 38 case 53 => 31 case 54 => 39 case _ => 46)
    else if k < 64 then (match k case 56 => 53 case 57 => 60 case 58 => 61 case 59 => 54 case 60 => 47 case 61 => 55 case 62 => 62 case _ => 63)
    else 63
  }

  /** Place in the stream of the coefficient at a row-major position. */
  function Zag(k: nat): Cell
    requires k < 64
  {
    if k < 8 then (match k case 0 => 0 case 1 => 1 case 2 => 5 case 3 => 6 case 4 => 14 case 5 => 15 case 6 => 27 case _ => 28)
    else if k < 16 then (match k case 8 => 2 case 9 => 4 case 10 => 7 case 11 => 13 case 12 => 16 case 13 => 26 case 14 => 29 case _ => 42)
    else if k < 24 then (match k case 16 => 3 case 17 => 8 case 18 => 12 case 19 => 17 case 20 => 25 case 21 => 30 case 22 => 41 case _ => 43)
    else if k < 32 then (match k case 24 => 9 case 25 => 11 case 26 => 18 case 27 => 24 case 28 => 31 case 29 => 40 case 30 => 44 case _ => 53)
    else if k < 40 then (match k case 32 => 10 case 33 => 19 case 34 => 23 case 35 => 32 case 36 => 39 case 37 => 45 case 38 => 52 case _ => 54)
    else if k < 48 then (match k case 40 => 20 case 41 => 22 case 42 => 33 case 43 => 38 case 44 => 46 case 45 => 51 case 46 => 55 case _ => 60)
    else if k < 56 then (match k case 48 => 21 case 49 => 34 case 50 => 37 case 51 => 47 case 52 => 50 case 53 => 56 case 54 => 59 case _ => 61)
    else (match k case 56 => 35 case 57 => 36 case 58 => 48 case 59 => 49 case 60 => 57 case 61 => 58 case 62 => 62 case _ => 63)
  }

  /** The order is a permutation of the block. */
  lemma ZigPermutes(k: nat)
    requires k < 64
    ensures Zag(Zig(k)) == k && Zig(Zag(k)) == k
  {
    hide Zig, Zag;
    if k < 16 {
      Rows01(k);
    } else if k < 32 {
      Rows23(k);
    } else if k < 48 {
      Rows45(k);
    } else {
      Rows67(k);
    }
  }

  lemma Rows01(k: nat)
    requires 0 <= k < 16
    ensures Zag(Zig(k)) == k && Zig(Zag(k)) == k
  {
  }

  lemma Rows23(k: nat)
    requires 16 <= k < 32
    ensures Zag(Zig(k)) == k && Zig(Zag(k)) == k
  {
  }

  lemma Rows45(k: nat)
    requires 32 <= k < 48
    ensures Zag(Zig(k)) == k && Zig(Zag(k)) == k
  {
  }

  lemma Rows67(k: nat)
    requires 48 <= k < 64
    ensures Zag(Zig(k)) == k && Zig(Zag(k)) == k
  {
  }

  // ----- the order itself -----

  /** Cells on the anti-diagonals before number s. */
  function Earlier(s: nat): nat
    requires s <= 15
  {
    match s
    case 0 => 0 case 1 => 1 case 2 => 3 case 3 => 6 case 4 => 10 case 5 => 15 case 6 => 21 case 7 => 28
    case 8 => 36 case 9 => 43 case 10 => 49 case 11 => 54 case 12 => 58 case 13 => 61 case 14 => 63 case _ => 64
  }

  function Diagonal(k: nat): nat
  {
    k / 8 + k % 8
  }

  /** Place on the diagonal: odd ones go down, even ones up. */
  function Along(k: nat): int
    requires k < 64
  {
    var s := Diagonal(k);
    (if s % 2 == 1 then k / 8 else k % 8) - if s > 7 then s - 7 else 0
  }

  lemma DiagonalPlace0(k: nat)
    requires k < 8
    ensures Zag(k) == Earlier(Diagonal(k)) + Along(k)
  {
    hide Zig, Zag, Earlier;
    assert k / 8 == 0 && k % 8 == k;
    TopRow(k);
  }

  lemma TopRow(k: nat)
    requires k < 8
    ensures Zag(k) == Earlier(k) + if k % 2 == 1 then 0 else k
  {
    hide Zig;
  }

  lemma DiagonalPlace1(k: nat)
    requires 8 <= k < 16
    ensures Zag(k) == Earlier(Diagonal(k)) + Along(k)
  {
    hide Zig;
    assert k / 8 == 1 && k % 8 == k - 8;
  }

  lemma DiagonalPlace23(k: nat)
    requires 16 <= k < 32
    ensures Zag(k) == Earlier(Diagonal(k)) + Along(k)
  {
  }

  lemma DiagonalPlace45(k: nat)
    requires 32 <= k < 48
    ensures Zag(k) == Earlier(Diagonal(k)) + Along(k)
  {
  }

  lemma DiagonalPlace67(k: nat)
    requires 48 <= k < 64
    ensures Zag(k) == Earlier(Diagonal(k)) + Along(k)
  {
  }

  lemma DiagonalPlace(k: nat)
    requires k < 64
    ensures Diagonal(k) <= 14 && Zag(k) == Earlier(Diagonal(k)) + Along(k)
    ensures Earlier(Diagonal(k)) <= Zag(k) < Earlier(Diagonal(k) + 1)
  {
    hide Zag;
    if k < 8 {
      DiagonalPlace0(k);
    } else if k < 16 {
      DiagonalPlace1(k);
    } else if k < 32 {
      DiagonalPlace23(k);
    } else if k < 48 {
      DiagonalPlace45(k);
    } else {
      DiagonalPlace67(k);
    }
    OnDiagonal(k);
  }

  lemma OnDiagonal(k: nat)
    requires k < 64
    ensures Diagonal(k) <= 14 && 0 <= Along(k) < Earlier(Diagonal(k) + 1) - Earlier(Diagonal(k))
  {
  }

  lemma {:induction false} EarlierGrows(s: nat, t: nat)
    requires s <= t <= 15
    ensures Earlier(s) <= Earlier(t)
    decreases t - s
  {
    if s < t {
      EarlierGrows(s, t - 1);
    }
  }

  /** The order of section A.3.6 of T.81: diagonal by diagonal, odd ones downwards and
      even ones upwards; what overshoots the block goes to its last cell. */
  lemma ZigzagOrder(a: nat, b: nat, k: nat)
    requires a < 64 && b < 64 && 64 <= k < 79
    ensures Zag(a) < Zag(b) <==>
              || a / 8 + a % 8 < b / 8 + b % 8
              || (a / 8 + a % 8 == b / 8 + b % 8 && if (a / 8 + a % 8) % 2 == 1 then a / 8 < b / 8 else a / 8 > b / 8)
    ensures Zig(k) == 63
  {
    hide Zag, Earlier;
    DiagonalPlace(a);
    DiagonalPlace(b);
    if Diagonal(a) < Diagonal(b) {
      EarlierGrows(Diagonal(a) + 1, Diagonal(b));
    } else if Diagonal(b) < Diagonal(a) {
      EarlierGrows(Diagonal(b) + 1, Diagonal(a));
    }
  }
}
