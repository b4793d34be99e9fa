/** `generate`: from the typed username and the SHA-256 digest of the
    normalised name, the 256-pixel-wide canvas with the knot on top and the
    avatar under it, and the member number. */
module Generate {
  import opened Bytes
  import opened Lcg
  import opened Username
  import opened Knot
  import opened Avatars
  import opened Canvas
  import opened Upscale
  import opened Numerals
  import opened JsString

  /** The SHA-256 digest of the username, as the eight 32-bit words of
      `new Uint32Array(hashBuf)`. */
  type Hash = h: seq<Word> | |h| == 8 witness [0, 0, 0, 0, 0, 0, 0, 0]

  /** What a call of `generate` leaves behind: an alert, a rejected
      promise, or the rendered canvas with the badge and caption texts. */
  datatype Outcome =
    | Alerted(message: string)
    | Rejected(error: JsError)
    | Rendered(image: seq<Byte>, badge: string, caption: string)

  /** The badge text `Member #${memberId}/1000`. */
  function Badge(memberId: nat): string
  {
    "Member #" + Decimal(memberId) + "/1000"
  }

  /** The caption text shown under the canvas. */
  function Caption(username: string, memberId: nat): string
  {
    "Congratulations @" + username + ", you are ritualized! #" + Decimal(memberId) + "/1000 Knot Avatar"
  }

  /** `createImageData(256, height).data` as a value: every byte 0, as the
      `Canvas.ImageData` constructor leaves its data. */
  function Blank(height: nat): (b: seq<Byte>)
    ensures |b| == 1024 * height
    ensures forall i :: 0 <= i < |b| ==> b[i] == 0
  {
    seq(1024 * height, _ => 0)
  }

  /** The image data of a 256-pixel-wide canvas `height` rows tall once
      both loops have run: the knot over the top 256 rows, the avatar in
      its square, transparent black everywhere else. */
  function Picture(avatar: seq<Byte>, height: nat): (img: seq<Byte>)
    requires |avatar| == 256 && height >= 400
    ensures |img| == 1024 * height
  {
    AvatarPainted(KnotPainted(Blank(height), GetKnotPixels()), avatar)
  }

  /** The outcome of `generate` on a canvas `height` rows tall, for the
      typed `input`, with `digest` standing for SHA-256 of the username. */
  function Generated(input: string, digest: string -> Hash, height: nat): Outcome
    requires height >= 256
  {
    match Normalize(input)
    case None => Alerted(EmptyUsernameMessage)
    case Some(username) =>
      var hash := digest(username);
      if height < 400 then Rejected(RangeError)
      else Rendered(Picture(Avatar(hash[2]), height), Badge(MemberId(hash[1])), Caption(username, MemberId(hash[1])))
  }

  /** The two inner knot loops of `generate`: the 8 x 8 block of knot
      cell (y, x), at canvas pixel (y * 8, x * 8), in colour `col`. */
  method BlitKnotCell(img: ImageData, knot: seq<Byte>, y: nat, x: nat, col: seq<Byte>, ghost s0: seq<Byte>)
    requires img.data.Length == |s0| >= KnotCanvasBytes
    requires |knot| == 1024 && y < 32 && x < 32
    requires col == KnotColour(knot[y * 32 + x])
    requires img.data[..] == KnotPartial(s0, knot, y * 2048 + x * 64)
    modifies img.data
    ensures img.data[..] == KnotPartial(s0, knot, y * 2048 + x * 64 + 64)
  {
    ghost var t := y * 2048 + x * 64;
    var sy := 0;
    while sy < 8
      invariant 0 <= sy <= 8
      invariant t == y * 2048 + x * 64 + sy * 8
      invariant img.data[..] == KnotPartial(s0, knot, t)
    {
      var sx := 0;
      while sx < 8
        invariant 0 <= sx <= 8
        invariant t == y * 2048 + x * 64 + sy * 8 + sx
        invariant img.data[..] == KnotPartial(s0, knot, t)
      {
        var idx := ((y * 8 + sy) * 256 + (x * 8 + sx)) * 4;
        KnotBlitStep(s0, knot, y, x, sy, sx, t, idx);
        ghost var before := img.data[..];
        var status := img.Set(col, idx);
        assert status == Done;
        assert img.data[..] == Overwrite(before, col, idx);
        t := t + 1;
        sx := sx + 1;
      }
      sy := sy + 1;
    }
  }

  /** The knot loop of `generate`: paints knot cell (y, x) as an 8 x 8
      block at canvas pixel (y * 8, x * 8). */
  method BlitKnot(img: ImageData, knot: seq<Byte>)
    requires img.Valid() && img.width == 256 && img.height >= 256
    requires |knot| == 1024
    modifies img.data
    ensures img.data[..] == KnotPainted(old(img.data[..]), knot)
  {
    ghost var s0 := img.data[..];
    assert img.data.Length >= KnotCanvasBytes;
    var y := 0;
    while y < 32
      invariant 0 <= y <= 32
      invariant img.data[..] == KnotPartial(s0, knot, y * 2048)
    {
      var x := 0;
      while x < 32
        invariant 0 <= x <= 32
        invariant img.data[..] == KnotPartial(s0, knot, y * 2048 + x * 64)
      {
        var on := knot[y * 32 + x];
        var col := KnotColour(on);
        BlitKnotCell(img, knot, y, x, col, s0);
        x := x + 1;
      }
      y := y + 1;
    }
    KnotPartialDone(s0, knot);
  }

  /** The two inner avatar loops of `generate`: the 8 x 8 block of avatar
      cell (ay, ax), at canvas pixel (272 + ay * 8, 40 + ax * 8), in
      colour `col`, up to the first write that does not fit. */
  method BlitAvatarCell(img: ImageData, avatar: seq<Byte>, ay: nat, ax: nat, col: seq<Byte>, ghost s0: seq<Byte>)
    returns (r: Status)
    requires img.data.Length == |s0| == 1024 * img.height
    requires |avatar| == 256 && ay < 16 && ax < 16
    requires col == AvatarColour(avatar[ay * 16 + ax])
    requires ay * 1024 + ax * 64 <= FirstFailingStep(img.height)
    requires img.data[..] == AvatarPartial(s0, avatar, ay * 1024 + ax * 64)
    modifies img.data
    ensures r == Done ==> ay * 1024 + ax * 64 + 64 <= FirstFailingStep(img.height)
    ensures r == Done ==> img.data[..] == AvatarPartial(s0, avatar, ay * 1024 + ax * 64 + 64)
    ensures r != Done ==> r == Threw(RangeError)
    ensures r != Done ==> FirstFailingStep(img.height) < ay * 1024 + ax * 64 + 64
    ensures r != Done ==> img.data[..] == AvatarPartial(s0, avatar, FirstFailingStep(img.height))
  {
    var avatarTop := 32 * 8 + 16;
    ghost var t := ay * 1024 + ax * 64;
    var sy := 0;
    while sy < 8
      invariant 0 <= sy <= 8
      invariant t == ay * 1024 + ax * 64 + sy * 8
      invariant t <= FirstFailingStep(img.height)
      invariant img.data[..] == AvatarPartial(s0, avatar, t)
    {
      var sx := 0;
      while sx < 8
        invariant 0 <= sx <= 8
        invariant t == ay * 1024 + ax * 64 + sy * 8 + sx
        invariant t <= FirstFailingStep(img.height)
        invariant img.data[..] == AvatarPartial(s0, avatar, t)
      {
        var py := avatarTop + ay * 8 + sy;
        var px := 40 + ax * 8 + sx;
        var idx := (py * 256 + px) * 4;
        AvatarBlitStep(s0, avatar, img.height, ay, ax, sy, sx, t, idx);
        ghost var before := img.data[..];
        var status := img.Set(col, idx);
        if status != Done {
          return status;
        }
        assert img.data[..] == Overwrite(before, col, idx);
        t := t + 1;
        sx := sx + 1;
      }
      sy := sy + 1;
    }
    return Done;
  }

  /** The avatar loop of `generate`: paints avatar cell (ay, ax) as an
      8 x 8 block at canvas pixel (272 + ay * 8, 40 + ax * 8). The first
      write past the end of the canvas throws, and the loop stops there
      with the writes before it in place. */
  method BlitAvatar(img: ImageData, avatar: seq<Byte>) returns (r: Status)
    requires img.Valid() && img.width == 256
    requires |avatar| == 256
    modifies img.data
    ensures r == Done <==> img.height >= 400
    ensures r == Done ==> img.data[..] == AvatarPainted(old(img.data[..]), avatar)
    ensures r != Done ==> r == Threw(RangeError)
    ensures r != Done ==> img.data[..] == AvatarPartial(old(img.data[..]), avatar, FirstFailingStep(img.height))
  {
    ghost var s0 := img.data[..];
    assert |s0| == 1024 * img.height;
    var ay := 0;
    while ay < 16
      invariant 0 <= ay <= 16
      invariant ay * 1024 <= FirstFailingStep(img.height)
      invariant img.data[..] == AvatarPartial(s0, avatar, ay * 1024)
    {
      var ax := 0;
      while ax < 16
        invariant 0 <= ax <= 16
        invariant ay * 1024 + ax * 64 <= FirstFailingStep(img.height)
        invariant img.data[..] == AvatarPartial(s0, avatar, ay * 1024 + ax * 64)
      {
        var on := avatar[ay * 16 + ax];
        var col := AvatarColour(on);
        var status := BlitAvatarCell(img, avatar, ay, ax, col, s0);
        if status != Done {
          return status;
        }
        ax := ax + 1;
      }
      ay := ay + 1;
    }
    AvatarPartialDone(s0, avatar);
    return Done;
  }

  // ---- The badge and the caption ----------------------------------------

  /** The badge reads "Member #", the member number, "/1000", and the
      number can be read back from it. */
  lemma BadgeShowsMemberId(memberId: nat)
    ensures var b := Badge(memberId);
      && |b| == |Decimal(memberId)| + 13
      && b[..8] == "Member #" && b[|b| - 5..] == "/1000"
      && (forall i :: 8 <= i < |b| - 5 ==> IsDigit(b[i]))
      && Value(b[8..|b| - 5]) == memberId
  {
    var b := Badge(memberId);
    assert b[8..|b| - 5] == Decimal(memberId);
    DecimalValue(memberId);
  }

  /** The caption names the user right after "Congratulations @" and
      shows the member number between "#" and "/1000 Knot Avatar". */
  lemma CaptionNamesUser(username: string, memberId: nat)
    ensures |Caption(username, memberId)| == |username| + |Decimal(memberId)| + 57
    ensures Caption(username, memberId)[..17] == "Congratulations @"
    ensures Caption(username, memberId)[17..17 + |username|] == username
    ensures Caption(username, memberId)[40 + |username|..40 + |username| + |Decimal(memberId)|] == Decimal(memberId)
    ensures Caption(username, memberId)[40 + |username| + |Decimal(memberId)|..] == "/1000 Knot Avatar"
  {
    var d := Decimal(memberId);
    var head := "Congratulations @" + username + ", you are ritualized! #";
    assert Caption(username, memberId) == head + d + "/1000 Knot Avatar";
    assert |head| == 40 + |username|;
  }

  // ---- The picture -------------------------------------------------------

  /** Byte `k` of pixel `p` of the picture: the avatar colour of its cell
      inside the avatar square, opaque white in the top 256 rows (the knot
      is all on), 0 everywhere else. */
  lemma PictureAt(avatar: seq<Byte>, height: nat, p: nat, k: nat)
    requires |avatar| == 256 && height >= 400 && p < 256 * height && k < 4
    ensures p * 4 + k < 1024 * height
    ensures Picture(avatar, height)[p * 4 + k] ==
      if InAvatarRect(p) then AvatarColour(avatar[AvatarCellOf(p)])[k]
      else if p < 65536 then 255
      else 0
  {
    var knot := GetKnotPixels();
    var base := Blank(height);
    var painted := KnotPainted(base, knot);
    AvatarPaintedAt(painted, avatar, p, k);
    KnotPaintedAt(base, knot, p, k);
    if p < 65536 {
      assert knot[KnotCellOf(p)] == 1;
    }
  }

  /** The top 256 rows are the knot: every pixel opaque white. */
  lemma PictureKnot(avatar: seq<Byte>, height: nat, p: nat, k: nat)
    requires |avatar| == 256 && height >= 400 && p < 65536 && k < 4
    ensures p * 4 + k < 1024 * height
    ensures Picture(avatar, height)[p * 4 + k] == 255
  {
    PictureAt(avatar, height, p, k);
  }

  /** Below the knot, outside the avatar square, every byte is 0. */
  lemma PictureBackground(avatar: seq<Byte>, height: nat, p: nat, k: nat)
    requires |avatar| == 256 && height >= 400 && 65536 <= p < 256 * height && k < 4
    requires !InAvatarRect(p)
    ensures p * 4 + k < 1024 * height
    ensures Picture(avatar, height)[p * 4 + k] == 0
  {
    PictureAt(avatar, height, p, k);
  }

  /** Avatar cell (ay, ax) fills the 8 x 8 block at pixel
      (272 + ay * 8, 40 + ax * 8) with the avatar colour when it is on and
      with transparent black when it is off. */
  lemma PictureAvatar(avatar: seq<Byte>, height: nat, ay: nat, ax: nat, sy: nat, sx: nat, k: nat)
    requires |avatar| == 256 && height >= 400 && ay < 16 && ax < 16 && sy < 8 && sx < 8 && k < 4
    ensures ((272 + ay * 8 + sy) * 256 + 40 + ax * 8 + sx) * 4 + k < 1024 * height
    ensures Picture(avatar, height)[((272 + ay * 8 + sy) * 256 + 40 + ax * 8 + sx) * 4 + k] == AvatarColour(avatar[ay * 16 + ax])[k]
  {
    var p := (272 + ay * 8 + sy) * 256 + 40 + ax * 8 + sx;
    AvatarPixelStep(ay, ax, sy, sx, p);
    PictureAt(avatar, height, p, k);
  }

  /** Byte `k` at offset (sy, sx) of avatar cell (ay, ax) and byte `k` at
      the mirror-image offset (sy, 7 - sx) of cell (ay, 15 - ax) are equal
      when the two cells agree. */
  lemma PictureMirrorCell(avatar: seq<Byte>, height: nat, ay: nat, ax: nat, sy: nat, sx: nat, k: nat)
    requires |avatar| == 256 && height >= 400 && ay < 16 && ax < 16 && sy < 8 && sx < 8 && k < 4
    requires avatar[ay * 16 + ax] == avatar[ay * 16 + (15 - ax)]
    ensures ((272 + ay * 8 + sy) * 256 + 40 + ax * 8 + sx) * 4 + k < 1024 * height
    ensures ((272 + ay * 8 + sy) * 256 + 40 + (15 - ax) * 8 + (7 - sx)) * 4 + k < 1024 * height
    ensures Picture(avatar, height)[((272 + ay * 8 + sy) * 256 + 40 + ax * 8 + sx) * 4 + k]
         == Picture(avatar, height)[((272 + ay * 8 + sy) * 256 + 40 + (15 - ax) * 8 + (7 - sx)) * 4 + k]
  {
    PictureAvatar(avatar, height, ay, ax, sy, sx, k);
    PictureAvatar(avatar, height, ay, 15 - ax, sy, 7 - sx, k);
    var c := AvatarColour(avatar[ay * 16 + ax])[k];
    assert Picture(avatar, height)[((272 + ay * 8 + sy) * 256 + 40 + ax * 8 + sx) * 4 + k] == c;
  }

  /** Pixel (y, x) is byte-for-byte pixel (272 + ay * 8 + sy, 40 + ax * 8 + sx),
      and its mirror image (y, 207 - x) the one in cell 15 - ax. */
  lemma MirrorIndexes(pic: seq<Byte>, y: nat, x: nat, ay: nat, ax: nat, sy: nat, sx: nat, k: nat)
    requires y == 272 + ay * 8 + sy && x == 40 + ax * 8 + sx && 40 <= x < 168
    requires ((272 + ay * 8 + sy) * 256 + 40 + ax * 8 + sx) * 4 + k < |pic|
    requires ((272 + ay * 8 + sy) * 256 + 40 + (15 - ax) * 8 + (7 - sx)) * 4 + k < |pic|
    requires pic[((272 + ay * 8 + sy) * 256 + 40 + ax * 8 + sx) * 4 + k]
          == pic[((272 + ay * 8 + sy) * 256 + 40 + (15 - ax) * 8 + (7 - sx)) * 4 + k]
    ensures (y * 256 + x) * 4 + k < |pic| && (y * 256 + (207 - x)) * 4 + k < |pic|
    ensures pic[(y * 256 + x) * 4 + k] == pic[(y * 256 + (207 - x)) * 4 + k]
  {
    assert 207 - x == 40 + (15 - ax) * 8 + (7 - sx);
  }

  /** The avatar square is mirror-symmetric: pixel (y, x) and pixel
      (y, 207 - x) have the same colour. */
  lemma PictureMirror(seed: Word, height: nat, y: nat, x: nat, k: nat)
    requires height >= 400 && 272 <= y < 400 && 40 <= x < 168 && k < 4
    ensures (y * 256 + x) * 4 + k < 1024 * height
    ensures (y * 256 + (207 - x)) * 4 + k < 1024 * height
    ensures Picture(Avatar(seed), height)[(y * 256 + x) * 4 + k] == Picture(Avatar(seed), height)[(y * 256 + (207 - x)) * 4 + k]
  {
    var ay, sy := (y - 272) / 8, (y - 272) % 8;
    var ax, sx := (x - 40) / 8, (x - 40) % 8;
    AvatarMirror(seed, ay, ax);
    PictureMirrorCell(Avatar(seed), height, ay, ax, sy, sx, k);
    MirrorIndexes(Picture(Avatar(seed), height), y, x, ay, ax, sy, sx, k);
  }

  // ---- The outcome -------------------------------------------------------

  /** `generate` alerts exactly when the trimmed input is empty or a lone
      `@`, and then with "Enter a username!". */
  lemma GeneratedAlerts(input: string, digest: string -> Hash, height: nat)
    requires height >= 256
    ensures Generated(input, digest, height).Alerted? <==> (Trim(input) == "" || Trim(input) == "@")
    ensures Generated(input, digest, height).Alerted? ==> Generated(input, digest, height).message == "Enter a username!"
  {
    NormalizeRejects(input);
  }

  /** On the 256-row canvas `generate` creates, nothing is ever rendered:
      every accepted name ends in a RangeError. */
  lemma AsWrittenNeverRenders(input: string, digest: string -> Hash)
    ensures !Generated(input, digest, 256).Rendered?
    ensures Normalize(input).Some? ==> Generated(input, digest, 256) == Rejected(RangeError)
  {
  }

  /** On a canvas tall enough for the avatar, every accepted name renders:
      the knot on top, the avatar of `hash[2]` in its square, the member
      number of `hash[1]` in the badge and the username in the caption. */
  lemma CorrectedRenders(input: string, username: string, digest: string -> Hash, height: nat)
    requires height >= 400 && Normalize(input) == Some(username)
    ensures Generated(input, digest, height).Rendered?
    ensures Generated(input, digest, height).image == Picture(Avatar(digest(username)[2]), height)
    ensures 1 <= MemberId(digest(username)[1]) <= 1000
    ensures Generated(input, digest, height).badge == Badge(MemberId(digest(username)[1]))
    ensures Generated(input, digest, height).caption == Caption(username, MemberId(digest(username)[1]))
    ensures |Generated(input, digest, height).caption| >= 17 + |username|
    ensures Generated(input, digest, height).caption[17..17 + |username|] == username
  {
    CaptionNamesUser(username, MemberId(digest(username)[1]));
  }

  /** Letter case does not change the outcome. */
  lemma GeneratedIgnoresCase(input: string, digest: string -> Hash, height: nat)
    requires height >= 256
    ensures Generated(ToLower(input), digest, height) == Generated(input, digest, height)
  {
    NormalizeIgnoresCase(input);
  }

  /** White space around the name does not change the outcome. */
  lemma GeneratedIgnoresPadding(a: string, input: string, b: string, digest: string -> Hash, height: nat)
    requires height >= 256 && AllWhitespace(a) && AllWhitespace(b)
    ensures Generated(a + input + b, digest, height) == Generated(input, digest, height)
  {
    NormalizeIgnoresPadding(a, input, b);
  }

  /** Steps 3, 5 and 6 of `generate`: a fresh canvas, the knot, then the
      avatar drawn from `hash[2]`. */
  method Draw(hash: Hash, height: nat) returns (status: Status, image: seq<Byte>)
    requires height >= 256
    ensures status == Done <==> height >= 400
    ensures status != Done ==> status == Threw(RangeError)
    ensures status == Done ==> image == Picture(Avatar(hash[2]), height)
  {
    var img := new ImageData(256, height);
    assert img.data[..] == Blank(height);
    var knotPixels := GetKnotPixels();
    BlitKnot(img, knotPixels);
    var avatar := GenerateAvatar(hash);
    status := BlitAvatar(img, avatar[..]);
    image := img.data[..];
  }

  /** `generate`, on a canvas `height` rows tall (256 as written). The
      digest is a parameter: the model does not compute SHA-256. */
  method Generate(input: string, digest: string -> Hash, height: nat) returns (r: Outcome)
    requires height >= 256
    ensures r == Generated(input, digest, height)
  {
    var raw := StripLeadingAt(Trim(input));
    if raw == [] {
      return Alerted(EmptyUsernameMessage);
    }
    var username := ToLower(raw);
    assert Normalize(input) == Some(username);
    var hash := digest(username);
    var memberId := MemberId(hash[1]);
    var status, image := Draw(hash, height);
    if status != Done {
      return Rejected(status.error);
    }
    r := Rendered(image, Badge(memberId), Caption(username, memberId));
  }
}
