/** `generateAvatar`: a 16x16 pixel avatar, mirror-symmetric about its
    vertical centre line, drawn from the generator seeded with `hash[2]`. */
module Avatars {
  import opened Lcg
  import opened Bytes

  /** Cell (y, x) of the avatar drawn from `seed`. The left half is drawn
      row by row, one value per cell, so cell (y, x) with x < 8 uses the
      (y * 8 + x + 1)-th state; a right-half cell copies its mirror image. */
  function Cell(seed: Word, y: nat, x: nat): (v: Byte)
    requires y < 16 && x < 16
    ensures v == 0 || v == 1
  {
    var c := if x < 8 then x else 15 - x;
    if TopByte(State(seed, y * 8 + c + 1)) > 120 then 1 else 0
  }

  /** The 256 cells, row-major: index y * 16 + x holds cell (y, x). */
  function Avatar(seed: Word): (cells: seq<Byte>)
    ensures |cells| == 256
  {
    seq(256, i requires 0 <= i < 256 => Cell(seed, i / 16, i % 16))
  }

  lemma AvatarAt(seed: Word, y: nat, x: nat)
    requires y < 16 && x < 16
    ensures Avatar(seed)[y * 16 + x] == Cell(seed, y, x)
  {
    assert (y * 16 + x) / 16 == y && (y * 16 + x) % 16 == x;
  }

  lemma CellDraw(seed: Word, y: nat, x: nat, state: Word)
    requires y < 16 && x < 8
    requires state == Step(State(seed, y * 8 + x))
    ensures Cell(seed, y, x) == Cell(seed, y, 15 - x) == if TopByte(state) > 120 then 1 else 0
  {
  }

  /** The pixel buffer once the first `y` rows are drawn: those rows hold
      the avatar, the rest are still 0. */
  function AvatarRows(seed: Word, y: nat): (r: seq<Byte>)
    requires y <= 16
    ensures |r| == 256
  {
    seq(256, i requires 0 <= i < 256 => if i < y * 16 then Avatar(seed)[i] else 0)
  }

  /** `s` with the first `x` cells of row `row / 16` from each end replaced
      by `cells`. */
  function RowPartial(s: seq<Byte>, cells: seq<Byte>, row: nat, x: nat): (r: seq<Byte>)
    requires |cells| == 16
    ensures |r| == |s|
  {
    seq(|s|, i requires 0 <= i < |s| =>
      if row <= i < row + 16 && (i - row < x || 16 - x <= i - row) then cells[i - row] else s[i])
  }

  lemma RowPartialStep(s: seq<Byte>, cells: seq<Byte>, row: nat, x: nat, v: Byte)
    requires |cells| == 16 && row + 16 <= |s| && x < 8
    requires cells[x] == v && cells[15 - x] == v
    ensures RowPartial(s, cells, row, x)[row + x := v][row + 15 - x := v] == RowPartial(s, cells, row, x + 1)
  {
  }

  lemma RowPartialDone(seed: Word, y: nat, cells: seq<Byte>)
    requires y < 16 && |cells| == 16
    requires forall c :: 0 <= c < 16 ==> cells[c] == Cell(seed, y, c)
    ensures RowPartial(AvatarRows(seed, y), cells, y * 16, 8) == AvatarRows(seed, y + 1)
  {
    forall i | y * 16 <= i < y * 16 + 16
      ensures cells[i - y * 16] == Avatar(seed)[i]
    {
      AvatarAt(seed, y, i - y * 16);
    }
  }

  /** `pixels[i] = v; pixels[j] = v;` */
  method SetPair(pixels: array<Byte>, i: nat, j: nat, v: Byte)
    requires i < pixels.Length && j < pixels.Length
    modifies pixels
    ensures pixels[..] == old(pixels[..])[i := v][j := v]
  {
    pixels[i] := v;
    pixels[j] := v;
  }

  /** One row of the drawing loop of `generateAvatar`: eight draws, each
      written to a left-half cell and to its mirror image. */
  method DrawRow(pixels: array<Byte>, seed0: Word, y: nat, state: Word) returns (next: Word)
    requires y < 16 && pixels[..] == AvatarRows(seed0, y)
    requires state == State(seed0, y * 8)
    modifies pixels
    ensures next == State(seed0, y * 8 + 8)
    ensures pixels[..] == AvatarRows(seed0, y + 1)
  {
    ghost var s0 := pixels[..];
    ghost var cells: seq<Byte> := seq(16, c requires 0 <= c < 16 => Cell(seed0, y, c));
    var row := y * 16;
    next := state;
    var x := 0;
    while x < 8
      invariant 0 <= x <= 8
      invariant next == State(seed0, y * 8 + x)
      invariant pixels[..] == RowPartial(s0, cells, row, x)
    {
      next := Step(next);
      assert next == State(seed0, y * 8 + x + 1);
      var on: Byte := if TopByte(next) > 120 then 1 else 0;
      CellDraw(seed0, y, x, next);
      RowPartialStep(s0, cells, row, x, on);
      SetPair(pixels, row + x, row + 15 - x, on);
      x := x + 1;
    }
    RowPartialDone(seed0, y, cells);
  }

  /** `generateAvatar(hash)`. The digest is always eight words. */
  method GenerateAvatar(hash: seq<Word>) returns (pixels: array<Byte>)
    requires |hash| == 8
    ensures fresh(pixels)
    ensures pixels[..] == Avatar(hash[2])
  {
    pixels := new Byte[256](_ => 0);
    var seed := hash[2];
    var y := 0;
    assert pixels[..] == AvatarRows(hash[2], 0);
    while y < 16
      invariant 0 <= y <= 16
      invariant seed == State(hash[2], y * 8)
      invariant pixels[..] == AvatarRows(hash[2], y)
    {
      seed := DrawRow(pixels, hash[2], y, seed);
      y := y + 1;
    }
    assert AvatarRows(hash[2], 16) == Avatar(hash[2]);
  }

  /** Mirror symmetry: each row reads the same from the right. */
  lemma AvatarMirror(seed: Word, y: nat, x: nat)
    requires y < 16 && x < 16
    ensures Avatar(seed)[y * 16 + x] == Avatar(seed)[y * 16 + (15 - x)]
  {
    AvatarAt(seed, y, x);
    AvatarAt(seed, y, 15 - x);
  }

  /** A left-half cell is on exactly when the top byte of its draw
      exceeds 120. */
  lemma AvatarLeftCell(seed: Word, y: nat, x: nat)
    requires y < 16 && x < 8
    ensures Avatar(seed)[y * 16 + x] == 1 <==> TopByte(State(seed, y * 8 + x + 1)) > 120
    ensures Avatar(seed)[y * 16 + x] == 0 <==> TopByte(State(seed, y * 8 + x + 1)) <= 120
  {
    AvatarAt(seed, y, x);
  }

  /** Every cell of the avatar is 0 or 1. */
  lemma AvatarIsBinary(seed: Word)
    ensures forall i :: 0 <= i < 256 ==> Avatar(seed)[i] in {0, 1}
  {
  }

  /** Row y is the first row of the avatar drawn from the state reached
      after the 8 * y draws of the rows above it. */
  lemma AvatarRowShift(seed: Word, y: nat, x: nat)
    requires y < 16 && x < 16
    ensures Avatar(seed)[y * 16 + x] == Avatar(State(seed, y * 8))[x]
  {
    var c := if x < 8 then x else 15 - x;
    AvatarAt(seed, y, x);
    AvatarAt(State(seed, y * 8), 0, x);
    StateAdd(seed, y * 8, c + 1);
  }
}
