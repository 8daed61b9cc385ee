/** The piece catalog (the seven kinds and their 5x5 rotation masks) and the
    active piece: a kind, a rotation index and an integer origin. */
module Tetromino {

  /** The index of a kind in the catalog: 0 = I, 1 = O, 2 = T, 3 = S, 4 = Z, 5 = J, 6 = L. */
  type Kind = k: int | 0 <= k < 7

  /** A rotation state: rows of characters, 'O' for an occupied cell, '.' for an empty one. */
  type Mask = seq<string>

  const I: seq<Mask> := [
    [".....", ".....", "OOOO.", ".....", "....."],
    [".....", "..O..", "..O..", "..O..", "..O.."],
    [".....", ".....", "OOOO.", ".....", "....."],
    [".....", "..O..", "..O..", "..O..", "..O.."]]

  const O: seq<Mask> := [
    [".....", ".....", ".OO..", ".OO..", "....."]]

  const T: seq<Mask> := [
    [".....", ".....", "..O..", ".OOO.", "....."],
    [".....", "..O..", "..OO.", "..O..", "....."],
    [".....", ".....", ".OOO.", "..O..", "....."],
    [".....", "..O..", ".OO..", "..O..", "....."]]

  const S: seq<Mask> := [
    [".....", ".....", "..OO.", ".OO..", "....."],
    [".....", "..O..", "..OO.", "...O.", "....."],
    [".....", ".....", "..OO.", ".OO..", "....."],
    [".....", "..O..", "..OO.", "...O.", "....."]]

  const Z: seq<Mask> := [
    [".....", ".....", ".OO..", "..OO.", "....."],
    [".....", "...O.", "..OO.", "..O..", "....."],
    [".....", ".....", ".OO..", "..OO.", "....."],
    [".....", "...O.", "..OO.", "..O..", "....."]]

  const J: seq<Mask> := [
    [".....", ".....", ".O...", ".OOO.", "....."],
    [".....", "..O..", "..O..", ".OO..", "....."],
    [".....", ".....", ".OOO.", "...O.", "....."],
    [".....", ".OO..", "..O..", "..O..", "....."]]

  const L: seq<Mask> := [
    [".....", ".....", "...O.", ".OOO.", "....."],
    [".....", "..OO.", "...O.", "...O.", "....."],
    [".....", ".....", ".OOO.", ".O...", "....."],
    [".....", "..O..", "..O..", "..OO.", "....."]]

  /** The class attribute `shapes`: the rotation states of every kind, in catalog order. */
  const Shapes: seq<seq<Mask>> := [I, O, T, S, Z, J, L]

  function Cell(c: char): nat
  {
    if c == 'O' then 1 else 0
  }

  /** Number of 'O' cells in a row of five characters. */
  function RowCells(row: string): nat
    requires |row| == 5
  {
    Cell(row[0]) + Cell(row[1]) + Cell(row[2]) + Cell(row[3]) + Cell(row[4])
  }

  /** A well-formed rotation state: 5 rows of 5 characters, an empty first
      row, and exactly four 'O' cells. */
  predicate WellFormed(m: Mask)
  {
    |m| == 5 && (forall i :: 0 <= i < 5 ==> |m[i]| == 5) && m[0] == "....." &&
    RowCells(m[0]) + RowCells(m[1]) + RowCells(m[2]) + RowCells(m[3]) + RowCells(m[4]) == 4
  }

  /** Every state of one kind is well formed. */
  predicate AllWellFormed(states: seq<Mask>)
  {
    forall r :: 0 <= r < |states| ==> WellFormed(states[r])
  }

  /** `WellFormed` for a mask given row by row. */
  lemma CheckMask(m: Mask)
    requires |m| == 5 && |m[0]| == 5 && |m[1]| == 5 && |m[2]| == 5 && |m[3]| == 5 && |m[4]| == 5
    requires m[0] == "....."
    requires RowCells(m[0]) + RowCells(m[1]) + RowCells(m[2]) + RowCells(m[3]) + RowCells(m[4]) == 4
    ensures WellFormed(m)
  {
    forall i | 0 <= i < 5 ensures |m[i]| == 5 {}
  }

  lemma IFacts() ensures |I| == 4 && AllWellFormed(I) {
    CheckMask(I[0]); CheckMask(I[1]); CheckMask(I[2]); CheckMask(I[3]);
  }

  lemma OFacts() ensures |O| == 1 && AllWellFormed(O) {
    CheckMask(O[0]);
  }

  lemma TFacts() ensures |T| == 4 && AllWellFormed(T) {
    CheckMask(T[0]); CheckMask(T[1]); CheckMask(T[2]); CheckMask(T[3]);
  }

  lemma SFacts() ensures |S| == 4 && AllWellFormed(S) {
    CheckMask(S[0]); CheckMask(S[1]); CheckMask(S[2]); CheckMask(S[3]);
  }

  lemma ZFacts() ensures |Z| == 4 && AllWellFormed(Z) {
    CheckMask(Z[0]); CheckMask(Z[1]); CheckMask(Z[2]); CheckMask(Z[3]);
  }

  lemma JFacts() ensures |J| == 4 && AllWellFormed(J) {
    CheckMask(J[0]); CheckMask(J[1]); CheckMask(J[2]); CheckMask(J[3]);
  }

  lemma LFacts() ensures |L| == 4 && AllWellFormed(L) {
    CheckMask(L[0]); CheckMask(L[1]); CheckMask(L[2]); CheckMask(L[3]);
  }

  lemma CatalogFacts()
    ensures |Shapes| == 7
    ensures |Shapes[1]| == 1
    ensures forall k :: 0 <= k < 7 && k != 1 ==> |Shapes[k]| == 4
    ensures forall k :: 0 <= k < 7 ==> AllWellFormed(Shapes[k])
  {
    IFacts(); OFacts(); TFacts(); SFacts(); ZFacts(); JFacts(); LFacts();
  }

  /** Number of rotation states of a kind: one for O, four for the others. */
  function NumStates(k: Kind): (n: nat)
    ensures n == if k == 1 then 1 else 4
  {
    CatalogFacts();
    |Shapes[k]|
  }

  /** The mask of rotation state `r` of kind `k` (`shape[rotation]`). */
  function MaskOf(k: Kind, r: nat): (m: Mask)
    requires r < NumStates(k)
    ensures WellFormed(m)
  {
    CatalogFacts();
    Shapes[k][r]
  }

  /** Cell (i, j) of a mask (row i, column j) holds an 'O'. */
  predicate Occupied(m: Mask, i: int, j: int)
  {
    0 <= i < |m| && 0 <= j < |m[i]| && m[i][j] == 'O'
  }

  /** No state of any kind occupies its first row. */
  lemma TopRowEmpty(m: Mask, j: int)
    requires WellFormed(m)
    ensures !Occupied(m, 0, j)
  {
  }

  /** The rotation index after one rotation: `(rotation + 1) % len(shape)`. */
  function NextRotation(k: Kind, r: nat): (r': nat)
    requires r < NumStates(k)
    ensures r' < NumStates(k)
  {
    (r + 1) % NumStates(k)
  }

  /** The rotation index after `n` rotations starting from `r`. */
  function RotateN(k: Kind, r: nat, n: nat): (r': nat)
    requires r < NumStates(k)
    ensures r' < NumStates(k)
  {
    if n == 0 then r else NextRotation(k, RotateN(k, r, n - 1))
  }

  /** One more step modulo 1 or 4. */
  lemma StepMod(a: nat, s: nat)
    requires s == 1 || s == 4
    ensures (a % s + 1) % s == (a + 1) % s
  {
    if s == 4 {
      assert a % 4 + 1 == 4 ==> (a + 1) % 4 == 0;
    }
  }

  /** `n` rotations add `n` to the index, modulo the number of states. */
  lemma {:induction false} RotateNIsSum(k: Kind, r: nat, n: nat)
    requires r < NumStates(k)
    ensures RotateN(k, r, n) == (r + n) % NumStates(k)
  {
    if n > 0 {
      RotateNIsSum(k, r, n - 1);
      StepMod(r + n - 1, NumStates(k));
    }
  }

  /** Rotating a piece as many times as its kind has states restores both its
      rotation index and its mask. */
  lemma RotationCycle(k: Kind, r: nat)
    requires r < NumStates(k)
    ensures RotateN(k, r, NumStates(k)) == r
    ensures MaskOf(k, RotateN(k, r, NumStates(k))) == MaskOf(k, r)
  {
    RotateNIsSum(k, r, NumStates(k));
    assert (r + NumStates(k)) % NumStates(k) == r;
  }

  /** The active piece: `x`, `y` is the board position of the mask's top-left
      cell, `kind` is `shape_idx` and `rotation` indexes the kind's states. */
  class Tetromino {
    var x: int
    var y: int
    const kind: Kind
    var rotation: nat

    ghost predicate Valid()
      reads this
    {
      rotation < NumStates(kind)
    }

    /** `self.shape[self.rotation]` */
    function Shape(): (m: Mask)
      reads this
      requires Valid()
      ensures WellFormed(m)
    {
      MaskOf(kind, rotation)
    }

    constructor (x0: int, y0: int, k: Kind)
      ensures Valid()
      ensures x == x0 && y == y0 && kind == k && rotation == 0
    {
      x := x0;
      y := y0;
      kind := k;
      rotation := 0;
    }

    /** Steps the rotation index and returns the new mask. */
    method Rotate() returns (m: Mask)
      requires Valid()
      modifies this`rotation
      ensures Valid()
      ensures rotation == NextRotation(kind, old(rotation))
      ensures m == MaskOf(kind, rotation)
    {
      rotation := (rotation + 1) % NumStates(kind);
      m := MaskOf(kind, rotation);
    }
  }
}
