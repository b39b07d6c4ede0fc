/** How a surface's images are laid out in a guest buffer (svga3d_surfacedefs.h:219-925). */
module Surface {

  import Arith
  import opened Basics

  const MAX: nat := U32 - 1
  const FACES: nat := 6

  /** The u32 a computation leaves. */
  function Wrap(n: nat): (r: nat)
    ensures r <= MAX
    ensures n <= MAX ==> r == n
  {
    n % U32
  }

  function Clamp(n: nat): nat {
    if n > MAX then MAX else n
  }

  /** clamped_umul32 */
  function ClampedMul(a: nat, b: nat): nat {
    Clamp(a * b)
  }

  // --- Formats ---

  /** A side of a block. */
  type Side = n: nat | n == 1 || n == 2 || n == 4 || n == 8 witness 1

  /** The columns of svga3d_surface_desc that say how much room a block takes. */
  datatype Desc = Desc(planar: bool, width: Side, height: Side, depth: Side, bytes: nat, pitchBytes: nat)

  datatype Size = Size(width: nat, height: nat, depth: nat)

  /** The block of a kind of format. The descriptor table has twelve kinds. */
  function Kind(c: char): Desc {
    match c
    case 'b' => Desc(false, 1, 1, 1, 4, 4)
    case 'c' => Desc(false, 1, 1, 1, 2, 2)
    case 'd' => Desc(false, 1, 1, 1, 1, 1)
    case 'e' => Desc(false, 4, 4, 1, 8, 8)
    case 'f' => Desc(false, 4, 4, 1, 16, 16)
    case 'g' => Desc(false, 1, 1, 1, 3, 3)
    case 'h' => Desc(false, 1, 1, 1, 8, 8)
    case 'i' => Desc(false, 1, 1, 1, 16, 16)
    case 'j' => Desc(true, 2, 2, 1, 6, 2)
    case 'k' => Desc(false, 1, 1, 1, 12, 12)
    case 'l' => Desc(false, 8, 1, 1, 1, 1)
    case _ => Desc(false, 1, 1, 1, 0, 0)
  }

  /** The kinds of the formats from SVGA3D_FORMAT_INVALID on. */
  const KINDS: string :=
    "a" + "bbccccbcbcddcceffffccbghibcbcbbdcbbhdbbbhccjbiiikkkkhhhhhhhhhhhbbbbbbbbbbbbbbbbbbbcccccccccdddddlbcceeffffeeefffbbbbbcbbjiib"

  /** svga3dsurface_get_desc */
  function GetDesc(format: nat): (d: Desc)
    ensures Regular(d)
  {
    Kind(if format < |KINDS| then KINDS[format] else KINDS[0])
  }

  /** A row of blocks takes its blocks' bytes, except that a planar format's pitch is that of its first plane. */
  predicate Regular(d: Desc) {
    d.planar || d.pitchBytes == d.bytes
  }

  /** The bits a pixel of a kind takes, by the bit depth column: a compressed block of 64 or 128 bits has
      16 pixels, a planar one of 48 bits has 4, and a pixel of R1_UNORM is one bit. The spare bits of
      X1R5G5B5 and of the X8 formats are counted. */
  function PixelBits(c: char): nat {
    if c == 'b' then 32 else if c == 'c' then 16 else if c in "df" then 8 else if c == 'e' then 4
    else if c == 'g' then 24 else if c == 'h' then 64 else if c == 'i' then 128 else if c == 'j' then 12
    else if c == 'k' then 96 else if c == 'l' then 1 else 0
  }

  /** A block has room for the bits of its pixels, and for no more. A row of a planar format's first plane
      has a byte for each pixel. A format that is not in the table takes no room. */
  lemma BlockHoldsPixels(c: char, format: nat)
    ensures var d := Kind(c); 8 * d.bytes == PixelBits(c) * Product(d.width, d.height, d.depth)
    ensures Kind(c).planar ==> Kind(c).pitchBytes == Kind(c).width
    ensures format >= |KINDS| ==> GetDesc(format).bytes == 0
  {
    assert KINDS[0] == 'a';
  }

  // --- Sizes ---

  function Halved(n: nat, times: nat): (r: nat)
    ensures r <= n
  {
    if times == 0 then n else Halved(n / 2, times - 1)
  }

  function Least(n: nat): nat { if n == 0 then 1 else n }

  /** svga3dsurface_get_mip_size; shifting right is halving that often. */
  function MipSize(base: Size, mip: nat): Size {
    Size(Least(Halved(base.width, mip)), Least(Halved(base.height, mip)), Least(Halved(base.depth, mip)))
  }

  /** A mip level's side is the base level's divided by a power of two, rounded down, but at least 1. */
  lemma {:induction false} HalvedIsDivided(n: nat, times: nat)
    ensures Halved(n, times) == n / Pow2(times)
    decreases times
  {
    if times > 0 {
      HalvedIsDivided(n / 2, times - 1);
      DivTwice(n, Pow2(times - 1));
    }
  }

  /** Each side of a mip level: that of the base level divided by a power of two, but at least 1. */
  lemma MipSides(base: Size, mip: nat)
    ensures MipSize(base, mip) == SizeOf(base, Pow2(mip))
  {
    HalvedIsDivided(base.width, mip);
    HalvedIsDivided(base.height, mip);
    HalvedIsDivided(base.depth, mip);
  }

  function SizeOf(base: Size, divisor: nat): Size
    requires divisor > 0
  {
    Size(AtLeastOne(base.width / divisor), AtLeastOne(base.height / divisor), AtLeastOne(base.depth / divisor))
  }

  function AtLeastOne(n: nat): (r: nat)
    ensures r >= 1 && r >= n && (r == n || r == 1)
  {
    if n > 1 then n else 1
  }

  lemma DivTwice(n: nat, p: nat)
    requires p > 0
    ensures n / 2 / p == n / (2 * p)
  {
    var q, r := n / 2 / p, n / 2 % p;
    assert n / 2 == q * p + r;
    assert n == q * (2 * p) + (2 * r + n % 2);
    Arith.DivModUnique(n, q, 2 * p, 2 * r + n % 2);
  }

  /** DIV_ROUND_UP in u32 arithmetic. */
  function DivRoundUp(n: nat, d: Side): nat {
    Wrap(n + d - 1) / d
  }

  /** svga3dsurface_get_size_in_blocks */
  function SizeInBlocks(d: Desc, s: Size): Size {
    Size(DivRoundUp(s.width, d.width), DivRoundUp(s.height, d.height), DivRoundUp(s.depth, d.depth))
  }

  /** svga3dsurface_calculate_pitch */
  function Pitch(d: Desc, s: Size): nat {
    Wrap(SizeInBlocks(d, s).width * d.pitchBytes)
  }

  /** svga3dsurface_get_image_buffer_size */
  function ImageBufferSize(d: Desc, s: Size, pitch: nat): nat {
    var blocks := SizeInBlocks(d, s);
    if d.planar then
      ClampedMul(ClampedMul(ClampedMul(blocks.width, blocks.height), blocks.depth), d.bytes)
    else
      ClampedMul(ClampedMul(blocks.height, if pitch == 0 then Pitch(d, s) else pitch), blocks.depth)
  }

  // --- The true size ---

  function Blocks(n: nat, d: Side): (r: nat)
    ensures n > 0 <==> r > 0
  {
    (n + d - 1) / d
  }

  /** The fewest blocks that cover a side. */
  lemma BlocksCover(n: nat, d: Side)
    ensures Blocks(n, d) * d >= n && forall fewer: nat :: fewer < Blocks(n, d) ==> fewer * d < n
  {
  }

  function TrueBlocks(d: Desc, s: Size): Size {
    Size(Blocks(s.width, d.width), Blocks(s.height, d.height), Blocks(s.depth, d.depth))
  }

  function Product(a: nat, b: nat, c: nat): nat { a * b * c }

  /** The bytes of all blocks of an image. */
  function TrueBytes(d: Desc, s: Size): nat {
    var b := TrueBlocks(d, s);
    Product(b.width, b.height, b.depth) * d.bytes
  }

  /** Rounding up to whole blocks stays within 32 bits. */
  predicate RoundsFit(d: Desc, s: Size) {
    s.width + d.width - 1 <= MAX && s.height + d.height - 1 <= MAX && s.depth + d.depth - 1 <= MAX
  }

  predicate IsU32(s: Size) {
    s.width <= MAX && s.height <= MAX && s.depth <= MAX
  }

  lemma ClampTwice(a: nat, b: nat)
    ensures Clamp(Clamp(a) * b) == Clamp(a * b)
  {
    if a > MAX && b > 0 {
      assert MAX * b >= MAX;
      assert a * b >= a by { Arith.MulLeft(1, b, a); }
    }
  }

  /** The clamped products are the clamped product, whatever the block counts and the pitch are. */
  lemma BufferSizeIs(d: Desc, s: Size, pitch: nat)
    ensures var b, p := SizeInBlocks(d, s), if pitch == 0 then Pitch(d, s) else pitch;
      ImageBufferSize(d, s, pitch) ==
        Clamp(if d.planar then Times(Product(b.width, b.height, b.depth), d.bytes) else Product(b.height, p, b.depth))
  {
    var b, p := SizeInBlocks(d, s), if pitch == 0 then Pitch(d, s) else pitch;
    ClampTwice(b.width * b.height, b.depth);
    ClampTwice(b.width * b.height * b.depth, d.bytes);
    ClampTwice(Clamp(b.width * b.height) * b.depth, d.bytes);
    ClampTwice(b.height * p, b.depth);
  }

  lemma RoundWraps(n: nat, d: Side)
    requires n <= MAX
    ensures n + d - 1 <= MAX ==> DivRoundUp(n, d) == Blocks(n, d)
    ensures n + d - 1 > MAX ==> DivRoundUp(n, d) == 0 && n > 0
  {
  }

  lemma ZeroFactor(a: nat, b: nat, c: nat, e: nat)
    ensures a == 0 || b == 0 || c == 0 || e == 0 <==> Product(a, b, c) * e == 0
    ensures Product(a, b, c) * e == b * (a * e) * c
  {
    assert a > 0 && b > 0 ==> a * b > 0;
    assert a * b > 0 && c > 0 ==> a * b * c > 0;
    assert a * b * c > 0 && e > 0 ==> a * b * c * e > 0;
    assert a * b * c * e == b * (a * e) * c;
  }

  /** svga3dsurface_get_image_buffer_size says it is overflow-safe. It returns the true size, or the
      largest u32 if that is smaller, exactly when the image is empty, or rounding to blocks stays within
      32 bits and so does the pitch of a format that has one, or what the wrapped pitch leaves is still
      too large (svga3d_surfacedefs.h:800-844). */
  lemma SizeIsExact(d: Desc, s: Size)
    requires Regular(d) && IsU32(s)
    ensures var b := TrueBlocks(d, s);
      ImageBufferSize(d, s, 0) == Clamp(TrueBytes(d, s)) <==>
        || TrueBytes(d, s) == 0
        || (RoundsFit(d, s) && (d.planar || b.width * d.bytes <= MAX || b.height * Wrap(b.width * d.bytes) * b.depth >= MAX))
  {
    var b, w := TrueBlocks(d, s), SizeInBlocks(d, s);
    BufferSizeIs(d, s, 0);
    RoundWraps(s.width, d.width);
    RoundWraps(s.height, d.height);
    RoundWraps(s.depth, d.depth);
    ZeroFactor(b.width, b.height, b.depth, d.bytes);
    if !RoundsFit(d, s) {
      ZeroFactor(w.width, w.height, w.depth, d.bytes);
      ZeroFactor(1, w.height, w.depth, Pitch(d, s));
      assert ImageBufferSize(d, s, 0) == 0;
    } else if !d.planar && b.width * d.bytes > MAX && TrueBytes(d, s) > 0 {
      PitchTooLarge(b.height, b.width * d.bytes, b.depth);
    }
  }

  lemma PitchTooLarge(h: nat, pitch: nat, d: nat)
    requires pitch > MAX && h > 0 && d > 0
    ensures h * pitch * d > MAX
  {
    Arith.MulLeft(1, h, pitch);
    Arith.MulLeft(1, d, h * pitch);
  }

  /** A row of 2^30 four-byte pixels has a pitch that wraps to 0, and an image of it is said to take no room. */
  lemma WideImageTakesNoRoom()
    ensures var d, s := Kind('b'), Size(0x4000_0000, 1, 1);
      ImageBufferSize(d, s, 0) == 0 && TrueBytes(d, s) == U32
  {
    var d, s := Kind('b'), Size(0x4000_0000, 1, 1);
    BufferSizeIs(d, s, 0);
  }

  // --- Images of a surface ---

  /** The bytes of the first n mip levels, as the buffer sizes of the code and as they truly are. */
  function Chain(d: Desc, base: Size, n: nat): nat {
    if n == 0 then 0 else Chain(d, base, n - 1) + ImageBufferSize(d, MipSize(base, n - 1), 0)
  }

  function TrueChain(d: Desc, base: Size, n: nat): nat {
    if n == 0 then 0 else TrueChain(d, base, n - 1) + TrueBytes(d, MipSize(base, n - 1))
  }

  function SerializedSize(d: Desc, base: Size, mips: nat, faces: nat): nat {
    Wrap(Chain(d, base, mips) * faces)
  }

  function Faces(cubemap: bool): nat { if cubemap then FACES else 1 }

  lemma Accumulates(d: Desc, base: Size, i: nat)
    ensures Wrap(Wrap(Chain(d, base, i)) + ImageBufferSize(d, MipSize(base, i), 0)) == Wrap(Chain(d, base, i + 1))
  {
    WrapAdd(Chain(d, base, i), ImageBufferSize(d, MipSize(base, i), 0));
  }

  lemma WrapAdd(a: nat, b: nat)
    ensures Wrap(Wrap(a) + b) == Wrap(a + b)
  {
  }

  lemma WrapTimes(a: nat)
    ensures Wrap(Wrap(a) * FACES) == Wrap(a * FACES)
  {
  }

  /** svga3dsurface_get_serialized_size of a format's descriptor. A shift by 32 or more is undefined in C. */
  method GetSerializedSize(d: Desc, base: Size, mips: nat, cubemap: bool) returns (total: nat)
    requires mips <= 32
    ensures total == SerializedSize(d, base, mips, Faces(cubemap))
  {
    total := 0;
    var mip := 0;
    while mip < mips
      invariant mip <= mips && total == Wrap(Chain(d, base, mip))
    {
      Accumulates(d, base, mip);
      total := Wrap(total + ImageBufferSize(d, MipSize(base, mip), 0));
      mip := mip + 1;
    }
    WrapTimes(Chain(d, base, mips));
    if cubemap {
      total := Wrap(total * FACES);
    }
  }

  function Lesser(a: nat, b: nat): nat { if a < b then a else b }

  function FaceOffset(chain: nat, face: nat, toLevel: nat): nat {
    Wrap(Wrap(chain * face) + toLevel)
  }

  /** What svga3dsurface_get_image_offset computes. */
  function ImageOffset(d: Desc, base: Size, mips: nat, face: nat, mip: nat): nat {
    FaceOffset(Wrap(Chain(d, base, mips)), face, Wrap(Chain(d, base, Lesser(mip, mips))))
  }

  method GetImageOffset(d: Desc, base: Size, mips: nat, face: nat, mip: nat) returns (offset: nat)
    requires mips <= 32
    ensures offset == ImageOffset(d, base, mips, face, mip)
  {
    var chain, toLevel := MipChain(d, base, mips, mip);
    offset := FaceOffset(chain, face, toLevel);
  }

  /** The loop of svga3dsurface_get_image_offset. */
  method MipChain(d: Desc, base: Size, mips: nat, mip: nat) returns (chain: nat, toLevel: nat)
    requires mips <= 32
    ensures chain == Wrap(Chain(d, base, mips)) && toLevel == Wrap(Chain(d, base, Lesser(mip, mips)))
  {
    chain, toLevel := 0, 0;
    var i := 0;
    while i < mips
      invariant i <= mips && chain == Wrap(Chain(d, base, i))
      invariant toLevel == Wrap(Chain(d, base, Lesser(mip, i)))
    {
      var bytes := ImageBufferSize(d, MipSize(base, i), 0);
      Accumulates(d, base, i);
      chain := Wrap(chain + bytes);
      if i < mip {
        toLevel := Wrap(toLevel + bytes);
      }
      i := i + 1;
    }
  }

  /** Nothing wraps: the base level rounds to blocks within 32 bits and all images fit in them. */
  predicate Fits(d: Desc, base: Size, mips: nat, faces: nat) {
    RoundsFit(d, base) && TrueChain(d, base, mips) * faces <= MAX
  }

  lemma {:induction false} ChainGrows(d: Desc, base: Size, m: nat, n: nat)
    requires m < n
    ensures TrueChain(d, base, m) + TrueBytes(d, MipSize(base, m)) <= TrueChain(d, base, n)
  {
    if m < n - 1 {
      ChainGrows(d, base, m, n - 1);
    }
  }

  /** An image that fits in 32 bits has its true size. */
  lemma SizeIsTrue(d: Desc, s: Size)
    requires Regular(d) && RoundsFit(d, s) && TrueBytes(d, s) <= MAX
    ensures ImageBufferSize(d, s, 0) == TrueBytes(d, s)
  {
    var b := TrueBlocks(d, s);
    SizeIsExact(d, s);
    ZeroFactor(b.width, b.height, b.depth, d.bytes);
    if TrueBytes(d, s) > 0 && b.width * d.bytes > MAX {
      PitchTooLarge(b.height, b.width * d.bytes, b.depth);
    }
  }

  lemma {:induction false} ChainIsTrue(d: Desc, base: Size, n: nat)
    requires Regular(d) && RoundsFit(d, base) && TrueChain(d, base, n) <= MAX
    ensures Chain(d, base, n) == TrueChain(d, base, n)
  {
    if n > 0 {
      ChainIsTrue(d, base, n - 1);
      SizeIsTrue(d, MipSize(base, n - 1));
    }
  }

  /** Where an image truly starts. */
  function TrueOffset(d: Desc, base: Size, mips: nat, face: nat, mip: nat): nat {
    TrueChain(d, base, mips) * face + TrueChain(d, base, mip)
  }

  /** Image (face, mip) starts where the images before it end and ends inside the surface. */
  lemma ImageInside(d: Desc, base: Size, mips: nat, faces: nat, face: nat, mip: nat)
    requires Regular(d) && Fits(d, base, mips, faces) && face < faces && mip < mips
    ensures ImageOffset(d, base, mips, face, mip) == TrueOffset(d, base, mips, face, mip)
    ensures ImageBufferSize(d, MipSize(base, mip), 0) == TrueBytes(d, MipSize(base, mip))
    ensures TrueOffset(d, base, mips, face, mip) + TrueBytes(d, MipSize(base, mip)) <= TrueChain(d, base, mips) * (face + 1)
    ensures TrueChain(d, base, mips) * (face + 1) <= TrueChain(d, base, mips) * faces
  {
    var chain := TrueChain(d, base, mips);
    Arith.MulLeft(1, faces, chain);
    Arith.MulLeft(face + 1, faces, chain);
    assert chain * (face + 1) == chain * face + chain;
    ChainGrows(d, base, mip, mips);
    ChainIsTrue(d, base, mips);
    ChainIsTrue(d, base, mip);
    SizeIsTrue(d, MipSize(base, mip));
  }

  /** When nothing wraps, the images of a surface lie in its serialized size and do not overlap
      (svga3d_surfacedefs.h:846-867, 894-925). */
  lemma ImagesDisjoint(d: Desc, base: Size, mips: nat, faces: nat, face: nat, mip: nat, face': nat, mip': nat)
    requires Regular(d) && Fits(d, base, mips, faces) && face < faces && mip < mips && face' < faces && mip' < mips
    requires face < face' || (face == face' && mip < mip')
    ensures ImageOffset(d, base, mips, face, mip) + ImageBufferSize(d, MipSize(base, mip), 0) <= ImageOffset(d, base, mips, face', mip')
    ensures ImageOffset(d, base, mips, face', mip') + ImageBufferSize(d, MipSize(base, mip'), 0) <= SerializedSize(d, base, mips, faces)
  {
    ImageInside(d, base, mips, faces, face, mip);
    ImageInside(d, base, mips, faces, face', mip');
    var chain := TrueChain(d, base, mips);
    Arith.MulLeft(1, faces, chain);
    ChainIsTrue(d, base, mips);
    if face < face' {
      Arith.MulLeft(face + 1, face', chain);
    } else {
      ChainGrows(d, base, mip, mip');
    }
  }

  /** And they leave no room: the first one starts at 0, each next one, of the same face or of the
      face after, where the last one ends, and the last one ends where the surface does. */
  lemma ImagesTile(d: Desc, base: Size, mips: nat, faces: nat, face: nat, mip: nat)
    requires Regular(d) && Fits(d, base, mips, faces) && face < faces && mip < mips
    ensures ImageOffset(d, base, mips, 0, 0) == 0
    ensures var end := ImageOffset(d, base, mips, face, mip) + ImageBufferSize(d, MipSize(base, mip), 0);
      end == if mip + 1 < mips then ImageOffset(d, base, mips, face, mip + 1)
             else if face + 1 < faces then ImageOffset(d, base, mips, face + 1, 0)
             else SerializedSize(d, base, mips, faces)
  {
    ImageInside(d, base, mips, faces, 0, 0);
    ImageInside(d, base, mips, faces, face, mip);
    if mip + 1 < mips {
      ImageInside(d, base, mips, faces, face, mip + 1);
    } else {
      FaceEnds(d, base, mips, faces, face);
    }
  }

  /** A level that the surface does not have is taken to start where the face ends. */
  lemma PastLastLevel(d: Desc, base: Size, mips: nat, faces: nat, face: nat, mip: nat)
    requires Regular(d) && Fits(d, base, mips, faces) && face < faces && 0 < mips <= mip
    ensures ImageOffset(d, base, mips, face, mip) ==
      ImageOffset(d, base, mips, face, mips - 1) + ImageBufferSize(d, MipSize(base, mips - 1), 0)
  {
    var chain := TrueChain(d, base, mips);
    ImageInside(d, base, mips, faces, face, mips - 1);
    Arith.MulLeft(1, faces, chain);
    Arith.MulLeft(face + 1, faces, chain);
    ChainIsTrue(d, base, mips);
    assert chain * (face + 1) == chain * face + chain;
  }

  /** Where the last image of a face truly ends. */
  lemma FaceEnds(d: Desc, base: Size, mips: nat, faces: nat, face: nat)
    requires Regular(d) && Fits(d, base, mips, faces) && face < faces && 0 < mips
    ensures TrueOffset(d, base, mips, face, mips - 1) + TrueBytes(d, MipSize(base, mips - 1)) ==
      if face + 1 < faces then ImageOffset(d, base, mips, face + 1, 0) else SerializedSize(d, base, mips, faces)
  {
    var chain := TrueChain(d, base, mips);
    assert chain * (face + 1) == chain * face + chain;
    if face + 1 < faces {
      ImageInside(d, base, mips, faces, face + 1, 0);
    } else {
      Arith.MulLeft(1, faces, chain);
      ChainIsTrue(d, base, mips);
    }
  }

  /** A row of a planar image has a byte for each pixel of the first plane, up to an even number; of
      another, the bytes of its blocks. */
  lemma PitchCovers(c: char, s: Size)
    requires RoundsFit(Kind(c), s) && Blocks(s.width, Kind(c).width) * Kind(c).pitchBytes <= MAX
    ensures Kind(c).planar ==> Pitch(Kind(c), s) % 2 == 0 && s.width <= Pitch(Kind(c), s) <= s.width + 1
    ensures !Kind(c).planar ==> Pitch(Kind(c), s) == Times(Blocks(s.width, Kind(c).width), Kind(c).bytes)
  {
    RoundWraps(s.width, Kind(c).width);
  }

  // --- Pixels of an image ---

  /** A block, counted from the first of the image. */
  datatype At = At(x: nat, y: nat, z: nat)

  function BlockOf(d: Desc, x: nat, y: nat, z: nat): At {
    At(x / d.width, y / d.height, z / d.depth)
  }

  predicate Within(b: Size, a: At) {
    a.x < b.width && a.y < b.height && a.z < b.depth
  }

  /** The blocks before this one: by slice, then by row. */
  function Index(b: Size, a: At): nat {
    (a.z * b.height + a.y) * b.width + a.x
  }

  /** svga3dsurface_get_pixel_offset */
  function PixelOffset(d: Desc, s: Size, x: nat, y: nat, z: nat): nat {
    var row := Scaled(DivRoundUp(s.width, d.width), d.bytes);
    var image := Scaled(DivRoundUp(s.height, d.height), row);
    Strided(BlockOf(d, x, y, z), image, row, d.bytes)
  }

  function Scaled(a: nat, b: nat): (r: nat)
    ensures a * b <= MAX ==> r == a * b
  {
    Wrap(a * b)
  }

  function Strided(a: At, image: nat, row: nat, bytes: nat): nat {
    Wrap(Wrap(Scaled(a.z, image) + Scaled(a.y, row)) + Scaled(a.x, bytes))
  }

  lemma StridedIs(a: At, image: nat, row: nat, bytes: nat)
    requires a.z * image + a.y * row + a.x * bytes <= MAX
    ensures Strided(a, image, row, bytes) == a.z * image + a.y * row + a.x * bytes
  {
    assert a.z * image >= 0 && a.y * row >= 0 && a.x * bytes >= 0;
  }

  lemma PixelInBlocks(d: Desc, s: Size, x: nat, y: nat, z: nat)
    requires x < s.width && y < s.height && z < s.depth
    ensures Within(TrueBlocks(d, s), BlockOf(d, x, y, z))
  {
  }

  lemma IndexBelow(b: Size, a: At)
    requires Within(b, a)
    ensures Index(b, a) + 1 <= Product(b.width, b.height, b.depth)
  {
    var rows := a.z * b.height + a.y;
    Arith.MulLeft(a.z + 1, b.depth, b.height);
    assert (a.z + 1) * b.height == a.z * b.height + b.height;
    Arith.MulLeft(rows + 1, b.depth * b.height, b.width);
    assert (rows + 1) * b.width == rows * b.width + b.width;
    assert b.depth * b.height * b.width == Product(b.width, b.height, b.depth);
  }

  /** Different blocks have different places. */
  lemma IndexUnique(b: Size, a: At, c: At)
    requires Within(b, a) && Within(b, c) && Index(b, a) == Index(b, c)
    ensures a == c
  {
    Arith.DivModUnique(Index(b, a), a.z * b.height + a.y, b.width, a.x);
    Arith.DivModUnique(Index(b, c), c.z * b.height + c.y, b.width, c.x);
    Arith.DivModUnique(a.z * b.height + a.y, a.z, b.height, a.y);
    Arith.DivModUnique(c.z * b.height + c.y, c.z, b.height, c.y);
  }

  /** Strides of an image that fits do not wrap. */
  lemma StridesFit(w: nat, h: nat, d: nat, bytes: nat)
    requires h > 0 && d > 0 && Product(w, h, d) * bytes <= MAX
    ensures w * bytes <= MAX && h * (w * bytes) <= MAX
  {
    assert w * h * d * bytes == h * (w * bytes) * d;
    Arith.MulLeft(1, d, h * (w * bytes));
    Arith.MulLeft(1, h, w * bytes);
  }

  lemma Parts(b: Size, a: At, bytes: nat)
    ensures a.z * (b.height * (b.width * bytes)) + a.y * (b.width * bytes) + a.x * bytes == Index(b, a) * bytes
  {
    assert a.z * (b.height * (b.width * bytes)) == a.z * b.height * b.width * bytes;
    assert a.y * (b.width * bytes) == a.y * b.width * bytes;
    assert Index(b, a) == a.z * b.height * b.width + a.y * b.width + a.x;
  }

  lemma BlockPlace(b: Size, a: At, bytes: nat)
    requires Within(b, a)
    ensures Index(b, a) * bytes + bytes <= Product(b.width, b.height, b.depth) * bytes
  {
    IndexBelow(b, a);
    Arith.MulLeft(Index(b, a) + 1, Product(b.width, b.height, b.depth), bytes);
    assert (Index(b, a) + 1) * bytes == Index(b, a) * bytes + bytes;
  }

  /** The strides of an image that fits lead to the place of a block. */
  lemma StridesLead(b: Size, a: At, bytes: nat)
    requires Within(b, a) && Product(b.width, b.height, b.depth) * bytes <= MAX
    ensures Strided(a, Scaled(b.height, Scaled(b.width, bytes)), Scaled(b.width, bytes), bytes) == Index(b, a) * bytes
  {
    StridesFit(b.width, b.height, b.depth, bytes);
    BlockPlace(b, a, bytes);
    Parts(b, a, bytes);
    StridedIs(a, b.height * (b.width * bytes), b.width * bytes, bytes);
  }

  /** The block of a pixel of an image that fits starts behind the blocks before it, and ends inside the image. */
  lemma PixelInside(d: Desc, s: Size, x: nat, y: nat, z: nat)
    requires RoundsFit(d, s) && TrueBytes(d, s) <= MAX && x < s.width && y < s.height && z < s.depth
    ensures PixelOffset(d, s, x, y, z) == Times(Index(TrueBlocks(d, s), BlockOf(d, x, y, z)), d.bytes)
    ensures PixelOffset(d, s, x, y, z) + d.bytes <= TrueBytes(d, s)
  {
    var b, a := TrueBlocks(d, s), BlockOf(d, x, y, z);
    PixelInBlocks(d, s, x, y, z);
    RoundWraps(s.width, d.width);
    RoundWraps(s.height, d.height);
    StridesLead(b, a, d.bytes);
    BlockPlace(b, a, d.bytes);
  }

  function Times(a: nat, b: nat): nat { a * b }

  lemma OneFurther(n: nat, d: Side)
    ensures (n + d) / d == n / d + 1
  {
  }

  /** An image begins with its first pixel's block, and the next block of a row is next to it. */
  lemma NextInRow(d: Desc, s: Size, x: nat, y: nat, z: nat)
    requires RoundsFit(d, s) && TrueBytes(d, s) <= MAX && x + d.width < s.width && y < s.height && z < s.depth
    ensures PixelOffset(d, s, 0, 0, 0) == 0 && PixelOffset(d, s, x + d.width, y, z) == PixelOffset(d, s, x, y, z) + d.bytes
  {
    PixelInside(d, s, 0, 0, 0);
    PixelInside(d, s, x, y, z);
    PixelInside(d, s, x + d.width, y, z);
    OneFurther(x, d.width);
    Further(Index(TrueBlocks(d, s), BlockOf(d, x, y, z)), 1, d.bytes);
  }

  /** The next row is a row of blocks further. */
  lemma NextRow(d: Desc, s: Size, x: nat, y: nat, z: nat)
    requires RoundsFit(d, s) && TrueBytes(d, s) <= MAX && x < s.width && y + d.height < s.height && z < s.depth
    ensures PixelOffset(d, s, x, y + d.height, z) == PixelOffset(d, s, x, y, z) + Times(TrueBlocks(d, s).width, d.bytes)
  {
    PixelInside(d, s, x, y, z);
    PixelInside(d, s, x, y + d.height, z);
    OneFurther(y, d.height);
    IndexRow(TrueBlocks(d, s), BlockOf(d, x, y, z));
    Further(Index(TrueBlocks(d, s), BlockOf(d, x, y, z)), TrueBlocks(d, s).width, d.bytes);
  }

  /** And the next slice as many rows. */
  lemma NextSlice(d: Desc, s: Size, x: nat, y: nat, z: nat)
    requires RoundsFit(d, s) && TrueBytes(d, s) <= MAX && x < s.width && y < s.height && z + d.depth < s.depth
    ensures var b := TrueBlocks(d, s);
      PixelOffset(d, s, x, y, z + d.depth) == PixelOffset(d, s, x, y, z) + Times(Times(b.width, b.height), d.bytes)
  {
    var b := TrueBlocks(d, s);
    PixelInside(d, s, x, y, z);
    PixelInside(d, s, x, y, z + d.depth);
    OneFurther(z, d.depth);
    IndexSlice(b, BlockOf(d, x, y, z));
    Further(Index(b, BlockOf(d, x, y, z)), Times(b.width, b.height), d.bytes);
  }

  lemma Further(i: nat, n: nat, bytes: nat)
    ensures Times(i + n, bytes) == Times(i, bytes) + Times(n, bytes) && Times(1, bytes) == bytes
  {
  }

  lemma IndexRow(b: Size, a: At)
    ensures Index(b, a.(y := a.y + 1)) == Index(b, a) + b.width
  {
    Further(a.z * b.height + a.y, 1, b.width);
  }

  lemma IndexSlice(b: Size, a: At)
    ensures Index(b, a.(z := a.z + 1)) == Index(b, a) + Times(b.width, b.height)
  {
    Further(a.z, 1, b.height);
    Further(a.z * b.height + a.y, b.height, b.width);
    assert Times(b.height, b.width) == Times(b.width, b.height);
  }

  /** Stretches of `bytes` bytes from here and from there have none in common. */
  predicate Disjoint(here: nat, there: nat, bytes: nat) {
    here + bytes <= there || there + bytes <= here
  }

  /** Two pixels share a block or have disjoint ones. */
  lemma PixelsDisjoint(d: Desc, s: Size, x: nat, y: nat, z: nat, x': nat, y': nat, z': nat)
    requires RoundsFit(d, s) && TrueBytes(d, s) <= MAX
    requires x < s.width && y < s.height && z < s.depth && x' < s.width && y' < s.height && z' < s.depth
    requires BlockOf(d, x, y, z) != BlockOf(d, x', y', z')
    ensures Disjoint(PixelOffset(d, s, x, y, z), PixelOffset(d, s, x', y', z'), d.bytes)
  {
    var b := TrueBlocks(d, s);
    var i, j := Index(b, BlockOf(d, x, y, z)), Index(b, BlockOf(d, x', y', z'));
    PixelInside(d, s, x, y, z);
    PixelInside(d, s, x', y', z');
    PixelInBlocks(d, s, x, y, z);
    PixelInBlocks(d, s, x', y', z');
    if i == j {
      IndexUnique(b, BlockOf(d, x, y, z), BlockOf(d, x', y', z'));
    }
    Apart(i, j, d.bytes);
  }

  lemma Apart(i: nat, j: nat, bytes: nat)
    requires i != j
    ensures Disjoint(Times(i, bytes), Times(j, bytes), bytes)
  {
    if i < j { Arith.MulLeft(i + 1, j, bytes); } else { Arith.MulLeft(j + 1, i, bytes); }
    assert (i + 1) * bytes == i * bytes + bytes && (j + 1) * bytes == j * bytes + bytes;
  }

  /** A pixel of a surface: face, mip level and place in that image. */
  datatype Texel = Texel(face: nat, mip: nat, x: nat, y: nat, z: nat)

  predicate InSurface(base: Size, mips: nat, faces: nat, t: Texel) {
    var s := MipSize(base, t.mip);
    t.face < faces && t.mip < mips && t.x < s.width && t.y < s.height && t.z < s.depth
  }

  function Address(d: Desc, base: Size, mips: nat, t: Texel): nat {
    ImageOffset(d, base, mips, t.face, t.mip) + PixelOffset(d, MipSize(base, t.mip), t.x, t.y, t.z)
  }

  predicate SameBlock(d: Desc, t: Texel, u: Texel) {
    t.face == u.face && t.mip == u.mip && BlockOf(d, t.x, t.y, t.z) == BlockOf(d, u.x, u.y, u.z)
  }

  lemma TexelInImage(d: Desc, base: Size, mips: nat, faces: nat, t: Texel)
    requires Regular(d) && Fits(d, base, mips, faces) && InSurface(base, mips, faces, t)
    ensures ImageOffset(d, base, mips, t.face, t.mip) <= Address(d, base, mips, t)
    ensures Address(d, base, mips, t) + d.bytes <=
      ImageOffset(d, base, mips, t.face, t.mip) + ImageBufferSize(d, MipSize(base, t.mip), 0) <= SerializedSize(d, base, mips, faces)
  {
    ImageInside(d, base, mips, faces, t.face, t.mip);
    ChainIsTrue(d, base, mips) by { Arith.MulLeft(1, faces, TrueChain(d, base, mips)); }
    PixelInside(d, MipSize(base, t.mip), t.x, t.y, t.z);
  }

  /** When nothing wraps, pixels of a surface that are not in the same block of the same image have no
      byte in common, and every block lies in the serialized size, compressed and planar formats included. */
  lemma TexelsDisjoint(d: Desc, base: Size, mips: nat, faces: nat, t: Texel, u: Texel)
    requires Regular(d) && Fits(d, base, mips, faces)
    requires InSurface(base, mips, faces, t) && InSurface(base, mips, faces, u) && !SameBlock(d, t, u)
    ensures Disjoint(Address(d, base, mips, t), Address(d, base, mips, u), d.bytes)
    ensures Address(d, base, mips, t) + d.bytes <= SerializedSize(d, base, mips, faces)
  {
    TexelInImage(d, base, mips, faces, t);
    TexelInImage(d, base, mips, faces, u);
    if t.face == u.face && t.mip == u.mip {
      ImageInside(d, base, mips, faces, t.face, t.mip);
      PixelsDisjoint(d, MipSize(base, t.mip), t.x, t.y, t.z, u.x, u.y, u.z);
    } else if t.face < u.face || (t.face == u.face && t.mip < u.mip) {
      ImagesDisjoint(d, base, mips, faces, t.face, t.mip, u.face, u.mip);
    } else {
      ImagesDisjoint(d, base, mips, faces, u.face, u.mip, t.face, t.mip);
    }
  }
}