/** Geometry of the two 8x upscaling loops in `generate`. The canvas is 256
    pixels wide; pixel P = Y * 256 + X occupies bytes 4P .. 4P + 3.

    Knot loop: for y, x < 32 and sy, sx < 8 it paints pixel
    (Y, X) = (y * 8 + sy, x * 8 + sx) with the colour of knot cell
    y * 32 + x. Its step number, counting in loop order, is
    t = y * 2048 + x * 64 + sy * 8 + sx.

    Avatar loop: for ay, ax < 16 and sy, sx < 8 it paints pixel
    (Y, X) = (272 + ay * 8 + sy, 40 + ax * 8 + sx) with the colour of
    avatar cell ay * 16 + ax, at step t = ay * 1024 + ax * 64 + sy * 8 + sx. */
module Upscale {
  import opened Bytes
  import opened Canvas

  /** Bytes in a 256 x 256 canvas. */
  const KnotCanvasBytes: nat := 262144

  /** First canvas row of the avatar: `32 * 8 + 16`. */
  const AvatarTop: nat := 272

  /** First canvas column of the avatar. */
  const AvatarLeft: nat := 40

  /** `on ? [255, 255, 255, 255] : [0, 0, 0, 0]`. */
  function KnotColour(on: Byte): (c: seq<Byte>)
    ensures |c| == 4
    ensures forall k :: 0 <= k < 4 ==> c[k] == if on != 0 then 255 else 0
  {
    if on != 0 then [255, 255, 255, 255] else [0, 0, 0, 0]
  }

  /** `on ? [180, 100, 255, 255] : [0, 0, 0, 0]`. */
  function AvatarColour(on: Byte): (c: seq<Byte>)
    ensures |c| == 4
    ensures on == 0 <==> c == [0, 0, 0, 0]
    ensures on != 0 ==> c == [180, 100, 255, 255]
  {
    if on != 0 then [180, 100, 255, 255] else [0, 0, 0, 0]
  }

  // ---- Digits of the step numbers and pixel indexes ----------------------

  lemma Radix4(a: nat, b: nat)
    requires b < 4
    ensures (a * 4 + b) / 4 == a && (a * 4 + b) % 4 == b
  {
  }

  lemma Radix8(a: nat, b: nat)
    requires b < 8
    ensures (a * 8 + b) / 8 == a && (a * 8 + b) % 8 == b
  {
  }

  lemma Radix16(a: nat, b: nat)
    requires b < 16
    ensures (a * 16 + b) / 16 == a && (a * 16 + b) % 16 == b
  {
  }

  lemma Radix32(a: nat, b: nat)
    requires b < 32
    ensures (a * 32 + b) / 32 == a && (a * 32 + b) % 32 == b
  {
  }

  lemma Radix256(a: nat, b: nat)
    requires b < 256
    ensures (a * 256 + b) / 256 == a && (a * 256 + b) % 256 == b
  {
  }

  // ---- Knot loop ---------------------------------------------------------

  /** The knot cell whose colour pixel P of the top 256 rows shows. */
  function KnotCellOf(p: nat): (cell: nat)
    requires p < 65536
    ensures cell < 1024
  {
    var row, col := p / 256, p % 256;
    (row / 8) * 32 + col / 8
  }

  /** The step of the knot loop that paints pixel P. */
  function KnotOrder(p: nat): nat
    requires p < 65536
  {
    var row, col := p / 256, p % 256;
    (KnotCellOf(p) * 8 + row % 8) * 8 + col % 8
  }

  /** The pixel the knot loop paints at step t. */
  function KnotPixelAt(t: nat): (p: nat)
    requires t < 65536
    ensures p < 65536
  {
    var sx, u := t % 8, t / 8;
    var sy, v := u % 8, u / 8;
    var x, y := v % 32, v / 32;
    (y * 8 + sy) * 256 + x * 8 + sx
  }

  lemma KnotStepPixel(y: nat, x: nat, sy: nat, sx: nat, t: nat)
    requires y < 32 && x < 32 && sy < 8 && sx < 8
    requires t == y * 2048 + x * 64 + sy * 8 + sx
    ensures t < 65536 && KnotPixelAt(t) == (y * 8 + sy) * 256 + x * 8 + sx
  {
    assert t == ((y * 32 + x) * 8 + sy) * 8 + sx;
    Radix8((y * 32 + x) * 8 + sy, sx);
    Radix8(y * 32 + x, sy);
    Radix32(y, x);
  }

  lemma KnotPixelStep(y: nat, x: nat, sy: nat, sx: nat, p: nat)
    requires y < 32 && x < 32 && sy < 8 && sx < 8
    requires p == (y * 8 + sy) * 256 + x * 8 + sx
    ensures p < 65536
    ensures KnotCellOf(p) == y * 32 + x
    ensures KnotOrder(p) == y * 2048 + x * 64 + sy * 8 + sx
  {
    Radix256(y * 8 + sy, x * 8 + sx);
    Radix8(y, sy);
    Radix8(x, sx);
  }

  /** Step `t` of the knot loop, at `y, x, sy, sx`, paints pixel `p`, and
      `p` is painted at step `t`. */
  lemma KnotStep(y: nat, x: nat, sy: nat, sx: nat, t: nat, p: nat)
    requires y < 32 && x < 32 && sy < 8 && sx < 8
    requires t == y * 2048 + x * 64 + sy * 8 + sx
    requires p == (y * 8 + sy) * 256 + x * 8 + sx
    ensures t < 65536 && p < 65536
    ensures KnotPixelAt(t) == p
    ensures KnotOrder(p) == t
    ensures KnotCellOf(p) == y * 32 + x
  {
    KnotStepPixel(y, x, sy, sx, t);
    KnotPixelStep(y, x, sy, sx, p);
  }

  lemma KnotOrderThenPixel(p: nat)
    requires p < 65536
    ensures KnotOrder(p) < 65536 && KnotPixelAt(KnotOrder(p)) == p
  {
    var row, col := p / 256, p % 256;
    KnotStep(row / 8, col / 8, row % 8, col % 8, KnotOrder(p), p);
  }

  lemma KnotPixelThenOrder(t: nat)
    requires t < 65536
    ensures KnotPixelAt(t) < 65536 && KnotOrder(KnotPixelAt(t)) == t
  {
    var sx, u := t % 8, t / 8;
    var sy, v := u % 8, u / 8;
    var x, y := v % 32, v / 32;
    KnotStep(y, x, sy, sx, t, KnotPixelAt(t));
  }

  /** The knot loop visits every pixel of the 256 x 256 canvas exactly
      once: step t paints pixel KnotPixelAt(t), and pixel P is painted at
      step KnotOrder(P) and at no other. */
  lemma KnotVisitsEachPixelOnce(p: nat, t: nat)
    requires p < 65536 && t < 65536
    ensures KnotOrder(p) < 65536 && KnotPixelAt(KnotOrder(p)) == p
    ensures KnotPixelAt(t) < 65536 && KnotOrder(KnotPixelAt(t)) == t
    ensures KnotPixelAt(t) == p <==> KnotOrder(p) == t
  {
    KnotOrderThenPixel(p);
    KnotPixelThenOrder(t);
  }

  /** Every byte the knot loop writes lies inside a 256 x 256 canvas. */
  lemma KnotWritesInBounds(t: nat)
    requires t < 65536
    ensures 4 * KnotPixelAt(t) + 4 <= KnotCanvasBytes
  {
  }

  /** The canvas after the first t steps of the knot loop, from `s`. */
  function KnotPartial(s: seq<Byte>, knot: seq<Byte>, t: nat): (r: seq<Byte>)
    requires |knot| == 1024
    ensures |r| == |s|
  {
    seq(|s|, i requires 0 <= i < |s| =>
      if i < KnotCanvasBytes && KnotOrder(i / 4) < t then KnotColour(knot[KnotCellOf(i / 4)])[i % 4] else s[i])
  }

  /** The canvas once the knot loop has run: the top 256 rows show the
      knot, every byte below is as it was. */
  function KnotPainted(s: seq<Byte>, knot: seq<Byte>): (r: seq<Byte>)
    requires |knot| == 1024
    ensures |r| == |s|
  {
    seq(|s|, i requires 0 <= i < |s| =>
      if i < KnotCanvasBytes then KnotColour(knot[KnotCellOf(i / 4)])[i % 4] else s[i])
  }

  /** Byte `k` of pixel `p` once the knot loop has run. */
  lemma KnotPaintedAt(s: seq<Byte>, knot: seq<Byte>, p: nat, k: nat)
    requires |knot| == 1024 && k < 4 && p * 4 + k < |s|
    ensures KnotPainted(s, knot)[p * 4 + k] ==
      if p < 65536 then KnotColour(knot[KnotCellOf(p)])[k] else s[p * 4 + k]
  {
    Radix4(p, k);
  }

  /** Byte `i` after step t of the knot loop: the pixel written at step t
      takes its colour, every other byte keeps its value. */
  lemma KnotPartialStepAt(s: seq<Byte>, knot: seq<Byte>, t: nat, i: nat)
    requires |knot| == 1024 && t < 65536 && |s| >= KnotCanvasBytes && i < |s|
    ensures var p := KnotPixelAt(t);
      && 4 * p + 4 <= KnotCanvasBytes
      && KnotPartial(s, knot, t + 1)[i] ==
        if 4 * p <= i < 4 * p + 4 then KnotColour(knot[KnotCellOf(p)])[i - 4 * p] else KnotPartial(s, knot, t)[i]
  {
    var p := KnotPixelAt(t);
    KnotPixelThenOrder(t);
    if 4 * p <= i < 4 * p + 4 {
      assert i / 4 == p && i % 4 == i - 4 * p;
    } else if i < KnotCanvasBytes {
      KnotVisitsEachPixelOnce(i / 4, t);
    }
  }

  /** One step of the knot loop extends the painted part by its pixel. */
  lemma KnotPartialStep(s: seq<Byte>, knot: seq<Byte>, t: nat)
    requires |knot| == 1024 && t < 65536 && |s| >= KnotCanvasBytes
    ensures var p := KnotPixelAt(t);
      && 4 * p + 4 <= |s|
      && Overwrite(KnotPartial(s, knot, t), KnotColour(knot[KnotCellOf(p)]), 4 * p) == KnotPartial(s, knot, t + 1)
  {
    var p := KnotPixelAt(t);
    KnotPartialStepAt(s, knot, t, 0);
    var after := Overwrite(KnotPartial(s, knot, t), KnotColour(knot[KnotCellOf(p)]), 4 * p);
    forall i | 0 <= i < |s|
      ensures after[i] == KnotPartial(s, knot, t + 1)[i]
    {
      KnotPartialStepAt(s, knot, t, i);
    }
  }

  /** The write of the knot loop body at `y, x, sy, sx`, in the loop's
      own terms: the colour of knot cell `y * 32 + x` at byte
      `((y * 8 + sy) * 256 + x * 8 + sx) * 4`. */
  lemma KnotBlitStep(s: seq<Byte>, knot: seq<Byte>, y: nat, x: nat, sy: nat, sx: nat, t: nat, idx: nat)
    requires |knot| == 1024 && |s| >= KnotCanvasBytes
    requires y < 32 && x < 32 && sy < 8 && sx < 8
    requires t == y * 2048 + x * 64 + sy * 8 + sx
    requires idx == ((y * 8 + sy) * 256 + (x * 8 + sx)) * 4
    ensures t < 65536 && idx + 4 <= |s|
    ensures Overwrite(KnotPartial(s, knot, t), KnotColour(knot[y * 32 + x]), idx) == KnotPartial(s, knot, t + 1)
  {
    var p := (y * 8 + sy) * 256 + (x * 8 + sx);
    KnotStep(y, x, sy, sx, t, p);
    KnotPartialStep(s, knot, t);
  }

  lemma KnotPartialDone(s: seq<Byte>, knot: seq<Byte>)
    requires |knot| == 1024
    ensures KnotPartial(s, knot, 65536) == KnotPainted(s, knot)
  {
    forall i | 0 <= i < |s| && i < KnotCanvasBytes
      ensures KnotOrder(i / 4) < 65536
    {
      KnotVisitsEachPixelOnce(i / 4, 0);
    }
  }

  lemma KnotPartialStart(s: seq<Byte>, knot: seq<Byte>)
    requires |knot| == 1024
    ensures KnotPartial(s, knot, 0) == s
  {
  }

  // ---- Avatar loop -------------------------------------------------------

  /** Pixel P lies in the 128 x 128 square the avatar loop paints: rows
      272 .. 399, columns 40 .. 167. */
  predicate InAvatarRect(p: nat)
  {
    272 * 256 <= p < 400 * 256 && 40 <= p % 256 < 168
  }

  /** The avatar cell whose colour pixel P of the square shows. */
  function AvatarCellOf(p: nat): (cell: nat)
    requires InAvatarRect(p)
    ensures cell < 256
  {
    var row, col := p / 256 - 272, p % 256 - 40;
    (row / 8) * 16 + col / 8
  }

  /** The step of the avatar loop that paints pixel P. */
  function AvatarOrder(p: nat): nat
    requires InAvatarRect(p)
  {
    var row, col := p / 256 - 272, p % 256 - 40;
    (AvatarCellOf(p) * 8 + row % 8) * 8 + col % 8
  }

  /** The pixel the avatar loop paints at step t. */
  function AvatarPixelAt(t: nat): (p: nat)
    requires t < 16384
    ensures InAvatarRect(p)
  {
    var sx, u := t % 8, t / 8;
    var sy, v := u % 8, u / 8;
    var ax, ay := v % 16, v / 16;
    assert u < 2048 && v < 256 && ay < 16 && ax < 16 && sy < 8 && sx < 8;
    var row, col := 272 + ay * 8 + sy, 40 + ax * 8 + sx;
    assert 272 <= row < 400 && 40 <= col < 168;
    Radix256(row, col);
    row * 256 + col
  }

  lemma AvatarStepPixel(ay: nat, ax: nat, sy: nat, sx: nat, t: nat)
    requires ay < 16 && ax < 16 && sy < 8 && sx < 8
    requires t == ay * 1024 + ax * 64 + sy * 8 + sx
    ensures t < 16384 && AvatarPixelAt(t) == (272 + ay * 8 + sy) * 256 + 40 + ax * 8 + sx
  {
    assert t == ((ay * 16 + ax) * 8 + sy) * 8 + sx;
    Radix8((ay * 16 + ax) * 8 + sy, sx);
    Radix8(ay * 16 + ax, sy);
    Radix16(ay, ax);
  }

  lemma AvatarPixelStep(ay: nat, ax: nat, sy: nat, sx: nat, p: nat)
    requires ay < 16 && ax < 16 && sy < 8 && sx < 8
    requires p == (272 + ay * 8 + sy) * 256 + 40 + ax * 8 + sx
    ensures InAvatarRect(p) && p / 256 == 272 + ay * 8 + sy
    ensures AvatarCellOf(p) == ay * 16 + ax
    ensures AvatarOrder(p) == ay * 1024 + ax * 64 + sy * 8 + sx
  {
    Radix256(272 + ay * 8 + sy, 40 + ax * 8 + sx);
    Radix8(ay, sy);
    Radix8(ax, sx);
  }

  /** Step `t` of the avatar loop, at `ay, ax, sy, sx`, paints pixel `p`,
      and `p` is painted at step `t`. */
  lemma AvatarStep(ay: nat, ax: nat, sy: nat, sx: nat, t: nat, p: nat)
    requires ay < 16 && ax < 16 && sy < 8 && sx < 8
    requires t == ay * 1024 + ax * 64 + sy * 8 + sx
    requires p == (272 + ay * 8 + sy) * 256 + 40 + ax * 8 + sx
    ensures t < 16384 && InAvatarRect(p)
    ensures p / 256 == 272 + ay * 8 + sy
    ensures AvatarPixelAt(t) == p
    ensures AvatarOrder(p) == t
    ensures AvatarCellOf(p) == ay * 16 + ax
  {
    AvatarStepPixel(ay, ax, sy, sx, t);
    AvatarPixelStep(ay, ax, sy, sx, p);
  }

  lemma AvatarOrderThenPixel(p: nat)
    requires InAvatarRect(p)
    ensures AvatarOrder(p) < 16384 && AvatarPixelAt(AvatarOrder(p)) == p
  {
    var row, col := p / 256 - 272, p % 256 - 40;
    AvatarStep(row / 8, col / 8, row % 8, col % 8, AvatarOrder(p), p);
  }

  lemma AvatarPixelThenOrder(t: nat)
    requires t < 16384
    ensures InAvatarRect(AvatarPixelAt(t)) && AvatarOrder(AvatarPixelAt(t)) == t
  {
    var sx, u := t % 8, t / 8;
    var sy, v := u % 8, u / 8;
    var ax, ay := v % 16, v / 16;
    AvatarStep(ay, ax, sy, sx, t, AvatarPixelAt(t));
  }

  /** The avatar loop visits every pixel of its square exactly once, and
      nothing outside it. */
  lemma AvatarVisitsEachPixelOnce(p: nat, t: nat)
    requires InAvatarRect(p) && t < 16384
    ensures AvatarOrder(p) < 16384 && AvatarPixelAt(AvatarOrder(p)) == p
    ensures InAvatarRect(AvatarPixelAt(t)) && AvatarOrder(AvatarPixelAt(t)) == t
    ensures AvatarPixelAt(t) == p <==> AvatarOrder(p) == t
  {
    AvatarOrderThenPixel(p);
    AvatarPixelThenOrder(t);
  }

  /** The first step of the avatar loop whose write falls past the end of
      a canvas `height` rows tall; 16384, one past the last step, when
      there is none. */
  function FirstFailingStep(height: nat): (t: nat)
    ensures t <= 16384
    ensures t == 16384 <==> height >= 400
  {
    if height <= 272 then 0
    else if height >= 400 then 16384
    else ((height - 272) / 8) * 1024 + ((height - 272) % 8) * 8
  }

  /** In loop order, band `ay` row `sy` is first written at column 0, so a
      step before band a0 row s0 writes a row above it, and that step
      itself writes the row. */
  lemma FirstFailureDigits(a0: nat, s0: nat, ay: nat, ax: nat, sy: nat, sx: nat)
    requires s0 < 8 && ax < 16 && sy < 8 && sx < 8
    ensures ay * 1024 + ax * 64 + sy * 8 + sx < a0 * 1024 + s0 * 8 ==> ay * 8 + sy < a0 * 8 + s0
    ensures ay * 1024 + ax * 64 + sy * 8 + sx == a0 * 1024 + s0 * 8 ==> ay * 8 + sy == a0 * 8 + s0
  {
    var t := ay * 1024 + ax * 64 + sy * 8 + sx;
    if ay < a0 {
      assert ay * 8 + sy < a0 * 8;
    } else if ay > a0 {
      assert t >= a0 * 1024 + 1024;
    } else {
      assert ax * 64 + sy * 8 + sx <= s0 * 8 ==> ax == 0;
    }
  }

  /** Every step before the first failing one writes a row inside the
      canvas, and the first failing one writes a row past its end. */
  lemma AvatarFirstFailure(height: nat, t: nat)
    requires t < 16384
    ensures t < FirstFailingStep(height) ==> AvatarPixelAt(t) / 256 < height
    ensures t == FirstFailingStep(height) ==> AvatarPixelAt(t) / 256 >= height
  {
    var sx, u := t % 8, t / 8;
    var sy, v := u % 8, u / 8;
    var ax, ay := v % 16, v / 16;
    AvatarStep(ay, ax, sy, sx, t, AvatarPixelAt(t));
    if 272 < height < 400 {
      var a0, s0 := (height - 272) / 8, (height - 272) % 8;
      FirstFailureDigits(a0, s0, ay, ax, sy, sx);
    }
  }

  /** Every write of the avatar loop lands in rows 272 .. 399 and
      columns 40 .. 167, so none of them lies inside a 256 x 256 canvas. */
  lemma AvatarWritesBelowKnotCanvas(t: nat)
    requires t < 16384
    ensures 272 <= AvatarPixelAt(t) / 256 < 400
    ensures 40 <= AvatarPixelAt(t) % 256 < 168
    ensures 4 * AvatarPixelAt(t) >= KnotCanvasBytes + 16 * 1024
  {
  }

  /** The very first write of the avatar loop: pixel (272, 40), byte
      offset 278688, past the end of the 262144 bytes of a 256-row
      canvas; on such a canvas the loop fails at its first step. */
  lemma AvatarFirstWriteOutOfRange()
    ensures AvatarPixelAt(0) == 272 * 256 + 40
    ensures 4 * AvatarPixelAt(0) == 278688
    ensures 4 * AvatarPixelAt(0) + 4 > KnotCanvasBytes
    ensures FirstFailingStep(256) == 0
  {
  }

  /** The canvas after the first t steps of the avatar loop, from `s`. */
  function AvatarPartial(s: seq<Byte>, avatar: seq<Byte>, t: nat): (r: seq<Byte>)
    requires |avatar| == 256
    ensures |r| == |s|
  {
    seq(|s|, i requires 0 <= i < |s| =>
      if InAvatarRect(i / 4) && AvatarOrder(i / 4) < t then AvatarColour(avatar[AvatarCellOf(i / 4)])[i % 4] else s[i])
  }

  /** The canvas once the avatar loop has run: the square shows the
      avatar, every other byte is as it was. */
  function AvatarPainted(s: seq<Byte>, avatar: seq<Byte>): (r: seq<Byte>)
    requires |avatar| == 256
    ensures |r| == |s|
  {
    seq(|s|, i requires 0 <= i < |s| =>
      if InAvatarRect(i / 4) then AvatarColour(avatar[AvatarCellOf(i / 4)])[i % 4] else s[i])
  }

  /** Byte `k` of pixel `p` once the avatar loop has run. */
  lemma AvatarPaintedAt(s: seq<Byte>, avatar: seq<Byte>, p: nat, k: nat)
    requires |avatar| == 256 && k < 4 && p * 4 + k < |s|
    ensures AvatarPainted(s, avatar)[p * 4 + k] ==
      if InAvatarRect(p) then AvatarColour(avatar[AvatarCellOf(p)])[k] else s[p * 4 + k]
  {
    Radix4(p, k);
  }

  /** Byte `i` after step t of the avatar loop: the pixel written at step
      t takes its colour, every other byte keeps its value. */
  lemma AvatarPartialStepAt(s: seq<Byte>, avatar: seq<Byte>, t: nat, i: nat)
    requires |avatar| == 256 && t < 16384 && i < |s|
    ensures var p := AvatarPixelAt(t);
      && InAvatarRect(p)
      && AvatarPartial(s, avatar, t + 1)[i] ==
        if 4 * p <= i < 4 * p + 4 then AvatarColour(avatar[AvatarCellOf(p)])[i - 4 * p] else AvatarPartial(s, avatar, t)[i]
  {
    var p := AvatarPixelAt(t);
    AvatarPixelThenOrder(t);
    if 4 * p <= i < 4 * p + 4 {
      assert i / 4 == p && i % 4 == i - 4 * p;
    } else if InAvatarRect(i / 4) {
      AvatarVisitsEachPixelOnce(i / 4, t);
    }
  }

  /** One step of the avatar loop extends the painted part by its pixel. */
  lemma AvatarPartialStep(s: seq<Byte>, avatar: seq<Byte>, t: nat)
    requires |avatar| == 256 && t < 16384 && 4 * AvatarPixelAt(t) + 4 <= |s|
    ensures var p := AvatarPixelAt(t);
      Overwrite(AvatarPartial(s, avatar, t), AvatarColour(avatar[AvatarCellOf(p)]), 4 * p) == AvatarPartial(s, avatar, t + 1)
  {
    var p := AvatarPixelAt(t);
    AvatarPixelThenOrder(t);
    var after := Overwrite(AvatarPartial(s, avatar, t), AvatarColour(avatar[AvatarCellOf(p)]), 4 * p);
    forall i | 0 <= i < |s|
      ensures after[i] == AvatarPartial(s, avatar, t + 1)[i]
    {
      AvatarPartialStepAt(s, avatar, t, i);
    }
  }

  /** The write of the avatar loop body at `ay, ax, sy, sx`, in the
      loop's own terms: the colour of avatar cell `ay * 16 + ax` at byte
      `(py * 256 + px) * 4`. It fits exactly when row `py` exists. */
  lemma AvatarBlitStep(s: seq<Byte>, avatar: seq<Byte>, height: nat, ay: nat, ax: nat, sy: nat, sx: nat, t: nat, idx: nat)
    requires |avatar| == 256 && |s| == 1024 * height
    requires ay < 16 && ax < 16 && sy < 8 && sx < 8
    requires t == ay * 1024 + ax * 64 + sy * 8 + sx
    requires idx == ((272 + ay * 8 + sy) * 256 + (40 + ax * 8 + sx)) * 4
    ensures t < 16384
    ensures idx + 4 <= |s| <==> 272 + ay * 8 + sy < height
    ensures t < FirstFailingStep(height) ==> idx + 4 <= |s|
    ensures t == FirstFailingStep(height) ==> idx + 4 > |s|
    ensures idx + 4 <= |s| ==>
      Overwrite(AvatarPartial(s, avatar, t), AvatarColour(avatar[ay * 16 + ax]), idx) == AvatarPartial(s, avatar, t + 1)
  {
    var p := (272 + ay * 8 + sy) * 256 + 40 + ax * 8 + sx;
    AvatarStep(ay, ax, sy, sx, t, p);
    AvatarFirstFailure(height, t);
    if idx + 4 <= |s| {
      AvatarPartialStep(s, avatar, t);
    }
  }

  lemma AvatarPartialDone(s: seq<Byte>, avatar: seq<Byte>)
    requires |avatar| == 256
    ensures AvatarPartial(s, avatar, 16384) == AvatarPainted(s, avatar)
  {
    forall i | 0 <= i < |s| && InAvatarRect(i / 4)
      ensures AvatarOrder(i / 4) < 16384
    {
      AvatarVisitsEachPixelOnce(i / 4, 0);
    }
  }

  lemma AvatarPartialStart(s: seq<Byte>, avatar: seq<Byte>)
    requires |avatar| == 256
    ensures AvatarPartial(s, avatar, 0) == s
  {
  }
}
