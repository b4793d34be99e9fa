/** The slice of the canvas API that `generate` writes through:
    `ctx.createImageData(width, height)` and `imgData.data.set(col, idx)`. */
module Canvas {
  import opened Bytes

  /** The exception `TypedArray.prototype.set` throws when the source does
      not fit at the offset. */
  datatype JsError = RangeError

  datatype Status = Done | Threw(error: JsError)

  /** `s` with `src` copied over it from index `offset` on. */
  function Overwrite(s: seq<Byte>, src: seq<Byte>, offset: nat): (r: seq<Byte>)
    requires offset + |src| <= |s|
    ensures |r| == |s|
    ensures forall i :: 0 <= i < |s| ==> r[i] == if offset <= i < offset + |src| then src[i - offset] else s[i]
  {
    s[..offset] + src + s[offset + |src|..]
  }

  /** An `ImageData`: `width * height` pixels, four bytes (red, green,
      blue, alpha) each, row after row. */
  class ImageData {
    const width: nat
    const height: nat
    const data: array<Byte>

    ghost predicate Valid()
      reads this
    {
      data.Length == 4 * width * height
    }

    /** `ctx.createImageData(w, h)`: every pixel transparent black. */
    constructor (w: nat, h: nat)
      ensures Valid() && width == w && height == h
      ensures fresh(data)
      ensures forall i :: 0 <= i < data.Length ==> data[i] == 0
    {
      width, height := w, h;
      data := new Byte[4 * w * h](_ => 0);
    }

    /** `data.set(src, offset)`: copies `src` in from `offset`, or throws
      a RangeError and writes nothing when it would run past the end. */
    method Set(src: seq<Byte>, offset: nat) returns (r: Status)
      modifies data
      ensures r == Done <==> offset + |src| <= data.Length
      ensures r == Done ==> data[..] == Overwrite(old(data[..]), src, offset)
      ensures r != Done ==> r == Threw(RangeError) && data[..] == old(data[..])
    {
      if offset + |src| > data.Length {
        return Threw(RangeError);
      }
      forall i | 0 <= i < |src| {
        data[offset + i] := src[i];
      }
      return Done;
    }
  }
}
