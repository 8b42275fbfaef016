/** `process_image_data` (image_processing.py): open the bytes, flatten
    transparency to RGB, shrink so neither edge exceeds `max_size`, save as
    JPEG at quality 85 and base64 the result, reporting any failure under
    one prefix. PIL is a parameter: its decoder, resampler and encoder are
    not modelled, only what this code asks of them. */
module ImageProcessing {
  import opened Wrappers

  /** Default longest allowed edge, in pixels. */
  const DefaultMaxSize: int := 1536

  /** Default `max_file_size_mb`; accepted and never consulted. */
  const DefaultMaxFileSizeMb: int := 4

  /** JPEG quality of every saved image. */
  const JpegQuality: int := 85

  /** What every error message of `process_image_data` starts with. */
  const ErrorPrefix := "Failed to process image data: "

  /** What Python reports when `max_size / width` divides by zero. */
  const DivisionByZero := "division by zero"

  /** The image attributes this code reads: mode, the keys of `info`, and size. */
  datatype Image = Image(mode: string, info: set<string>, width: nat, height: nat)

  // ---------------------------------------------------------------- colour

  /** Modes carrying transparency that JPEG cannot store: `RGBA`, `LA`,
      and a palette image with a `transparency` entry. */
  predicate NeedsRgb(mode: string, info: set<string>) {
    mode == "RGBA" || mode == "LA" || (mode == "P" && "transparency" in info)
  }

  /** The mode after the conversion step. */
  function ConvertedMode(mode: string, info: set<string>): (m: string)
    ensures m == mode || m == "RGB"
    ensures m != mode <==> NeedsRgb(mode, info)
  {
    if NeedsRgb(mode, info) then "RGB" else mode
  }

  /** Conversion is needed exactly for the three transparent cases; every
      other mode, `P` without transparency included, is kept. */
  lemma ConvertedModeCases(mode: string, info: set<string>)
    ensures ConvertedMode(mode, info) == "RGB" <==>
      mode == "RGB" || mode == "RGBA" || mode == "LA" || (mode == "P" && "transparency" in info)
    ensures mode !in {"RGBA", "LA", "P"} ==> ConvertedMode(mode, info) == mode
  {
  }

  /** Conversion is idempotent, and an image converted to RGB needs no
      further conversion whatever its `info` has become. */
  lemma ConvertedModeIdempotent(mode: string, info: set<string>, info2: set<string>)
    ensures ConvertedMode(ConvertedMode(mode, info), info) == ConvertedMode(mode, info)
    ensures NeedsRgb(mode, info) ==> !NeedsRgb(ConvertedMode(mode, info), info2)
  {
  }

  /** Which images the conversion step touches: only `RGBA`, `LA` and `P`
      ever do, `RGBA` and `LA` always, `P` exactly when its `info` has a
      `transparency` entry, and `info` matters for no other mode. */
  lemma NeedsRgbModes(mode: string, info: set<string>, info2: set<string>)
    ensures NeedsRgb(mode, info) ==> mode in {"RGBA", "LA", "P"}
    ensures mode == "RGBA" || mode == "LA" ==> NeedsRgb(mode, info)
    ensures mode == "P" ==> (NeedsRgb(mode, info) <==> "transparency" in info)
    ensures mode != "P" ==> NeedsRgb(mode, info) == NeedsRgb(mode, info2)
  {
  }

  // ---------------------------------------------------------------- size

  /** Python's `int(x)` on a float: truncation toward zero. Floats are
      idealised as exact reals. */
  function Trunc(x: real): int {
    if x >= 0.0 then x.Floor else -((-x).Floor)
  }

  /** `int(x)` drops the fraction toward zero: it lies within one of `x`,
      on the side of zero, and keeps the sign. */
  lemma TruncTowardZero(x: real)
    ensures x >= 0.0 ==> Trunc(x) >= 0 && Trunc(x) as real <= x < Trunc(x) as real + 1.0
    ensures x < 0.0 ==> Trunc(x) <= 0 && Trunc(x) as real - 1.0 < x <= Trunc(x) as real
  {
  }

  /** Truncation never lands above an integer bound the value respects. */
  lemma TruncAtMost(x: real, n: int)
    requires x <= n as real
    ensures Trunc(x) <= n
  {
  }

  /** A truncated value below a positive integer is below it too. */
  lemma TruncBelow(x: real, n: int)
    requires x < n as real && n > 0
    ensures Trunc(x) < n
  {
  }

  /** Python's `min(a, b)`. */
  function Min(a: real, b: real): (m: real)
    ensures m <= a && m <= b && (m == a || m == b)
  {
    if a <= b then a else b
  }

  /** `min(max_size / width, max_size / height)`, for non-zero sizes. */
  function Ratio(w: nat, h: nat, maxSize: int): (r: real)
    requires w > 0 && h > 0
    ensures r <= maxSize as real / w as real && r <= maxSize as real / h as real
    ensures r == maxSize as real / w as real || r == maxSize as real / h as real
  {
    Min(maxSize as real / w as real, maxSize as real / h as real)
  }

  /** The outcome of the resize rule. */
  datatype SizeDecision = Keep | Scale(width: int, height: int)

  /** The resize rule: an image with both edges within `maxSize` is kept;
      otherwise both edges are multiplied by the one ratio and truncated.
      A zero edge then divides by zero. */
  function DecideSize(w: nat, h: nat, maxSize: int): (r: Result<SizeDecision, string>)
    ensures r == Success(Keep) <==> w <= maxSize && h <= maxSize
    ensures r.Failure? <==> (w > maxSize || h > maxSize) && (w == 0 || h == 0)
    ensures r.Failure? ==> r.error == DivisionByZero
    ensures r.Success? && r.value.Scale? ==>
      && r.value.width <= maxSize && r.value.height <= maxSize
      && r.value.width < w && r.value.height < h
  {
    if w > maxSize || h > maxSize then
      if w == 0 || h == 0 then Failure(DivisionByZero)
      else Success(Shrink(w, h, maxSize))
    else Success(Keep)
  }

  /** `(int(width * ratio), int(height * ratio))`: both edges within
      `maxSize` and below their originals. */
  function Shrink(w: nat, h: nat, maxSize: int): (d: SizeDecision)
    requires w > 0 && h > 0 && (w > maxSize || h > maxSize)
    ensures d.Scale?
    ensures d.width <= maxSize && d.height <= maxSize && d.width < w && d.height < h
  {
    var r := Ratio(w, h, maxSize);
    RatioBelowOne(w, h, maxSize);
    EdgeWithin(w, r, maxSize);
    EdgeWithin(h, r, maxSize);
    Scale(Trunc(w as real * r), Trunc(h as real * r))
  }

  /** When the rule shrinks, the ratio is below one. */
  lemma RatioBelowOne(w: nat, h: nat, maxSize: int)
    requires w > 0 && h > 0 && (w > maxSize || h > maxSize)
    ensures Ratio(w, h, maxSize) < 1.0
  {
    var r := Ratio(w, h, maxSize);
    if w > maxSize {
      DivBelowOne(maxSize, w);
    } else {
      DivBelowOne(maxSize, h);
    }
  }

  /** `m / d < 1` for `m < d`, `d > 0`. */
  lemma DivBelowOne(m: int, d: int)
    requires 0 < d && m < d
    ensures m as real / d as real < 1.0
  {
  }

  /** `d * r <= m` when `r <= m / d`, `d > 0`. */
  lemma MulBelow(d: int, r: real, m: int)
    requires d > 0 && r <= m as real / d as real
    ensures d as real * r <= m as real
  {
    assert d as real * (m as real / d as real) == m as real;
  }

  /** `d * r < d` when `r < 1`, `d > 0`. */
  lemma MulShrinks(d: int, r: real)
    requires d > 0 && r < 1.0
    ensures d as real * r < d as real
  {
  }

  /** One edge scaled by a ratio at most `maxSize / e` and below one ends
      within `maxSize` and below `e`. */
  lemma EdgeWithin(e: int, r: real, maxSize: int)
    requires e > 0 && r <= maxSize as real / e as real && r < 1.0
    ensures Trunc(e as real * r) <= maxSize && Trunc(e as real * r) < e
  {
    MulBelow(e, r, maxSize);
    MulShrinks(e, r);
    TruncAtMost(e as real * r, maxSize);
    TruncBelow(e as real * r, e);
  }

  /** With a non-negative limit, the longer edge of a shrunk image becomes
      exactly the limit and the shorter one its share of it, rounded down:
      `max * short / long` (under exact arithmetic). */
  lemma ShrinkExact(w: nat, h: nat, maxSize: int)
    requires maxSize >= 0 && w > 0 && h > 0 && (w > maxSize || h > maxSize)
    ensures DecideSize(w, h, maxSize).Success?
    ensures w >= h ==> DecideSize(w, h, maxSize).value == Scale(maxSize, h * maxSize / w)
    ensures h >= w ==> DecideSize(w, h, maxSize).value == Scale(w * maxSize / h, maxSize)
  {
    ShrinkUnfold(w, h, maxSize);
    if w >= h {
      WideEdges(w, h, maxSize);
    }
    if h >= w {
      TallEdges(w, h, maxSize);
    }
  }

  /** For a landscape (or square) image the ratio is `maxSize / w`. */
  lemma WideEdges(w: nat, h: nat, maxSize: int)
    requires maxSize >= 0 && w >= h > 0
    ensures Trunc(w as real * Ratio(w, h, maxSize)) == maxSize
    ensures Trunc(h as real * Ratio(w, h, maxSize)) == h * maxSize / w
  {
    DivAntitone(maxSize, h, w);
    var r := Ratio(w, h, maxSize);
    assert r == maxSize as real / w as real;
    EdgesAtRatio(w, h, maxSize);
  }

  /** For a portrait (or square) image the ratio is `maxSize / h`. */
  lemma TallEdges(w: nat, h: nat, maxSize: int)
    requires maxSize >= 0 && h >= w > 0
    ensures Trunc(w as real * Ratio(w, h, maxSize)) == w * maxSize / h
    ensures Trunc(h as real * Ratio(w, h, maxSize)) == maxSize
  {
    DivAntitone(maxSize, w, h);
    var r := Ratio(w, h, maxSize);
    assert r == maxSize as real / h as real;
    EdgesAtRatio(h, w, maxSize);
  }

  /** A shrink multiplies both edges by `Ratio` and truncates. */
  lemma ShrinkUnfold(w: nat, h: nat, maxSize: int)
    requires w > 0 && h > 0 && (w > maxSize || h > maxSize)
    ensures DecideSize(w, h, maxSize) == Success(Scale(
      Trunc(w as real * Ratio(w, h, maxSize)), Trunc(h as real * Ratio(w, h, maxSize))))
  {
  }

  /** Scaling edges `l` and `s` by `maxSize / l` gives `maxSize` and
      `s * maxSize / l`. */
  lemma EdgesAtRatio(l: int, s: int, maxSize: int)
    requires maxSize >= 0 && l > 0 && s > 0
    ensures Trunc(l as real * (maxSize as real / l as real)) == maxSize
    ensures Trunc(s as real * (maxSize as real / l as real)) == s * maxSize / l
  {
    assert l as real * (maxSize as real / l as real) == maxSize as real;
    MulDiv(s, maxSize, l);
    assert s * maxSize >= 0;
    TruncOfQuotient(s * maxSize, l);
  }

  /** Truncating the real quotient of a natural by a positive integer gives
      their integer quotient. */
  lemma TruncOfQuotient(a: int, b: int)
    requires a >= 0 && b > 0
    ensures Trunc(a as real / b as real) == a / b
  {
    FloorOfQuotient(a, b);
  }

  /** Dividing a non-negative number by more gives less. */
  lemma DivAntitone(m: int, a: int, b: int)
    requires m >= 0 && 0 < a <= b
    ensures m as real / b as real <= m as real / a as real
  {
    var x := m as real / a as real;
    var y := m as real / b as real;
    assert a as real * x == m as real;
    assert b as real * y == m as real;
    assert b as real * x >= a as real * x;
  }

  /** Converting a product to a real is the product of the conversions. */
  lemma RealMul(a: int, b: int)
    ensures (a * b) as real == a as real * b as real
  {
  }

  /** `h * (m / w)` is `(h * m) / w`. */
  lemma MulDiv(h: int, m: int, w: int)
    requires w > 0
    ensures h as real * (m as real / w as real) == (h * m) as real / w as real
  {
    RealMul(h, m);
  }

  /** A remainder over its divisor is a fraction in [0, 1). */
  lemma FractionBelowOne(rest: int, b: int)
    requires 0 <= rest < b
    ensures 0.0 <= rest as real / b as real < 1.0
  {
  }

  /** Dividing `q * b + rest` by `b` gives `q` plus the fraction `rest / b`. */
  lemma QuotientSplit(a: int, b: int, q: int, rest: int)
    requires b > 0 && a == q * b + rest
    ensures a as real / b as real == q as real + rest as real / b as real
  {
    RealMul(q, b);
    assert a as real == q as real * b as real + rest as real;
  }

  /** The real quotient of a natural by a positive integer floors to their
      integer quotient. */
  lemma FloorOfQuotient(a: int, b: int)
    requires a >= 0 && b > 0
    ensures (a as real / b as real).Floor == a / b
  {
    var q, rest := a / b, a % b;
    QuotientSplit(a, b, q, rest);
    FractionBelowOne(rest, b);
  }

  /** Both edges shrink by the same factor, so the aspect ratio survives up
      to the rounding of the shorter edge: `nw : nh` misses `w : h` by less
      than one step of the shorter edge. */
  lemma AspectKept(w: nat, h: nat, maxSize: int)
    requires maxSize >= 0 && w > 0 && h > 0 && (w > maxSize || h > maxSize)
    ensures DecideSize(w, h, maxSize).Success? && DecideSize(w, h, maxSize).value.Scale?
    ensures var d := DecideSize(w, h, maxSize).value;
      && (w >= h ==> 0 <= d.width * h - d.height * w < w)
      && (h >= w ==> 0 <= d.height * w - d.width * h < h)
  {
    ShrinkExact(w, h, maxSize);
    if w >= h {
      QuotientRemainder(w, h, maxSize);
    }
    if h >= w {
      QuotientRemainder(h, w, maxSize);
    }
  }

  /** `m * s - (s * m / l) * l` is the remainder of `s * m` by `l`. */
  lemma QuotientRemainder(l: int, s: int, m: int)
    requires l > 0
    ensures 0 <= m * s - (s * m / l) * l < l
  {
    var a := s * m;
    assert m * s == a;
    assert a == (a / l) * l + a % l;
  }

  /** A 3000×2000 image with the default limit becomes 1536×1024. */
  lemma DefaultResizeExample()
    ensures DecideSize(3000, 2000, DefaultMaxSize) == Success(Scale(1536, 1024))
  {
    assert Ratio(3000, 2000, 1536) == 1536.0 / 3000.0;
    assert 3000.0 * (1536.0 / 3000.0) == 1536.0;
    assert 2000.0 * (1536.0 / 3000.0) == 1024.0;
  }

  // ---------------------------------------------------------------- pipeline

  /** The PIL operations the code calls, each failing with a message. */
  datatype Pil = Pil(
    open: seq<bv8> -> Result<Image, string>,
    convert: (Image, string) -> Result<Image, string>,
    resize: (Image, int, int) -> Result<Image, string>,
    saveJpeg: (Image, int) -> Result<seq<bv8>, string>,
    base64: seq<bv8> -> string)

  /** The conversion step: `img.convert('RGB')` for an image that needs it,
      the image itself otherwise. */
  function Converted(img: Image, pil: Pil): (r: Result<Image, string>)
    ensures !NeedsRgb(img.mode, img.info) ==> r == Success(img)
    ensures NeedsRgb(img.mode, img.info) ==> r == pil.convert(img, "RGB")
  {
    if NeedsRgb(img.mode, img.info) then pil.convert(img, "RGB") else Success(img)
  }

  /** The image handed to the JPEG encoder: opened, converted if it carries
      transparency, and resized if an edge exceeds `maxSize`. The size is
      read after the conversion. A failure of any step is passed on as it
      is; a zero edge on an image that needs shrinking fails with
      `DivisionByZero` before PIL is asked to resize. */
  function Prepare(bytes: seq<bv8>, maxSize: int, pil: Pil): (r: Result<Image, string>)
    ensures r.Success? ==> pil.open(bytes).Success?
    ensures pil.open(bytes).Failure? ==> r == Failure(pil.open(bytes).error)
    ensures pil.open(bytes).Success? ==>
      var c := Converted(pil.open(bytes).value, pil);
      && (c.Failure? ==> r == Failure(c.error))
      && (c.Success? ==>
            var d := DecideSize(c.value.width, c.value.height, maxSize);
            && (d.Failure? ==> r == Failure(DivisionByZero))
            && (d == Success(Keep) ==> r == c)
            && (d.Success? && d.value.Scale? ==> r == pil.resize(c.value, d.value.width, d.value.height)))
  {
    var img :- pil.open(bytes);
    var rgb :- Converted(img, pil);
    var decision :- DecideSize(rgb.width, rgb.height, maxSize);
    match decision
    case Keep => Success(rgb)
    case Scale(nw, nh) => pil.resize(rgb, nw, nh)
  }

  /** An opened image that needs neither conversion nor shrinking reaches
      the encoder untouched: PIL is not asked to convert or resize it. */
  lemma PrepareKeeps(bytes: seq<bv8>, maxSize: int, pil: Pil)
    requires pil.open(bytes).Success?
    requires var img := pil.open(bytes).value;
      !NeedsRgb(img.mode, img.info) && img.width <= maxSize && img.height <= maxSize
    ensures Prepare(bytes, maxSize, pil) == pil.open(bytes)
  {
  }

  /** `process_image_data`: the prepared image saved as JPEG at quality 85
      and base64-encoded; any failure is re-raised with `ErrorPrefix`.
      `maxFileSizeMb` is accepted and never used. */
  function ProcessImageData(bytes: seq<bv8>, maxSize: int, maxFileSizeMb: int, pil: Pil): (r: Result<string, string>)
    ensures r.Failure? ==> |ErrorPrefix| <= |r.error| && r.error[..|ErrorPrefix|] == ErrorPrefix
    ensures r.Success? ==> pil.open(bytes).Success? && Prepare(bytes, maxSize, pil).Success?
    ensures Prepare(bytes, maxSize, pil).Failure? ==>
      r == Failure(ErrorPrefix + Prepare(bytes, maxSize, pil).error)
    ensures Prepare(bytes, maxSize, pil).Success? ==>
      (r.Success? <==> pil.saveJpeg(Prepare(bytes, maxSize, pil).value, JpegQuality).Success?)
    ensures Prepare(bytes, maxSize, pil).Success? ==>
      var j := pil.saveJpeg(Prepare(bytes, maxSize, pil).value, JpegQuality);
      && (j.Success? ==> r == Success(pil.base64(j.value)))
      && (j.Failure? ==> r == Failure(ErrorPrefix + j.error))
  {
    var encoded := (
      var img :- Prepare(bytes, maxSize, pil);
      var jpeg :- pil.saveJpeg(img, JpegQuality);
      Success(pil.base64(jpeg)));
    match encoded
    case Success(s) => Success(s)
    case Failure(e) => Failure(ErrorPrefix + e)
  }

  /** `process_image_data` with its defaults, `max_size` 1536 and
      `max_file_size_mb` 4. */
  function ProcessImageDataDefault(bytes: seq<bv8>, pil: Pil): Result<string, string> {
    ProcessImageData(bytes, DefaultMaxSize, DefaultMaxFileSizeMb, pil)
  }

  /** The file-size limit has no effect on the outcome. */
  lemma FileSizeLimitIgnored(bytes: seq<bv8>, maxSize: int, a: int, b: int, pil: Pil)
    ensures ProcessImageData(bytes, maxSize, a, pil) == ProcessImageData(bytes, maxSize, b, pil)
  {
  }

  /** An image that opens with a zero edge and needs shrinking is reported
      as a division by zero, under the prefix. */
  lemma ZeroEdgeFails(bytes: seq<bv8>, maxSize: int, maxFileSizeMb: int, pil: Pil)
    requires pil.open(bytes).Success?
    requires var img := pil.open(bytes).value;
      && !NeedsRgb(img.mode, img.info)
      && (img.width == 0 || img.height == 0) && (img.width > maxSize || img.height > maxSize)
    ensures ProcessImageData(bytes, maxSize, maxFileSizeMb, pil) == Failure(ErrorPrefix + DivisionByZero)
  {
  }

  /** An RGB image 0×2000 under the defaults fails with the prefixed
      division-by-zero message. */
  lemma ZeroWidthExample(bytes: seq<bv8>, pil: Pil)
    requires pil.open(bytes) == Success(Image("RGB", {}, 0, 2000))
    ensures ProcessImageDataDefault(bytes, pil) == Failure("Failed to process image data: division by zero")
  {
    ZeroEdgeFails(bytes, DefaultMaxSize, DefaultMaxFileSizeMb, pil);
    assert ErrorPrefix + DivisionByZero == "Failed to process image data: division by zero";
  }

  /** A PIL that behaves as this code expects: conversion to RGB succeeds
      at the same size, and resizing succeeds exactly for positive target
      sizes, giving that size in the same mode (PIL refuses empty sizes). */
  ghost predicate WellBehaved(pil: Pil) {
    && (forall im: Image :: pil.convert(im, "RGB").Success? &&
          pil.convert(im, "RGB").value.mode == "RGB" &&
          pil.convert(im, "RGB").value.width == im.width &&
          pil.convert(im, "RGB").value.height == im.height)
    && (forall im: Image, nw: int, nh: int ::
          pil.resize(im, nw, nh).Success? <==> nw > 0 && nh > 0)
    && (forall im: Image, nw: int, nh: int :: nw > 0 && nh > 0 ==>
          pil.resize(im, nw, nh).value.mode == im.mode &&
          pil.resize(im, nw, nh).value.width == nw &&
          pil.resize(im, nw, nh).value.height == nh)
  }

  /** With a well-behaved PIL, the conversion step always succeeds, lands
      on the mode `ConvertedMode` names and keeps the size. */
  lemma ConvertedShape(img: Image, pil: Pil)
    requires WellBehaved(pil)
    ensures Converted(img, pil).Success?
    ensures Converted(img, pil).value.mode == ConvertedMode(img.mode, img.info)
    ensures Converted(img, pil).value.width == img.width && Converted(img, pil).value.height == img.height
  {
  }

  /** The size a decision leaves an image of size `w`×`h` at. */
  function SizeAfter(w: nat, h: nat, d: SizeDecision): (int, int) {
    match d
    case Keep => (w, h)
    case Scale(nw, nh) => (nw, nh)
  }

  /** With a well-behaved PIL, an image that opens and whose decided size is
      positive reaches the encoder in the converted mode at the decided size;
      one whose shrunk size rounds an edge down to zero (a 3000×1 image, say)
      is refused by the resize. */
  lemma PrepareShape(bytes: seq<bv8>, maxSize: int, pil: Pil)
    requires WellBehaved(pil) && pil.open(bytes).Success?
    ensures var img := pil.open(bytes).value;
      var d := DecideSize(img.width, img.height, maxSize);
      d.Success? && (d.value.Keep? || (d.value.width > 0 && d.value.height > 0)) ==>
        && Prepare(bytes, maxSize, pil).Success?
        && Prepare(bytes, maxSize, pil).value.mode == ConvertedMode(img.mode, img.info)
        && (Prepare(bytes, maxSize, pil).value.width, Prepare(bytes, maxSize, pil).value.height)
           == SizeAfter(img.width, img.height, d.value)
    ensures var img := pil.open(bytes).value;
      var d := DecideSize(img.width, img.height, maxSize);
      d.Success? && d.value.Scale? && (d.value.width <= 0 || d.value.height <= 0) ==>
        Prepare(bytes, maxSize, pil).Failure?
  {
    var img := pil.open(bytes).value;
    var rgb := Converted(img, pil).value;
    assert rgb.width == img.width && rgb.height == img.height;
  }

  /** With a well-behaved PIL, whatever reaches the encoder is within the
      limit on both edges and no larger than the image that was opened:
      nothing is ever scaled up. */
  lemma PrepareWithinLimit(bytes: seq<bv8>, maxSize: int, pil: Pil)
    requires WellBehaved(pil)
    ensures Prepare(bytes, maxSize, pil).Success? ==>
      && Prepare(bytes, maxSize, pil).value.width <= pil.open(bytes).value.width
      && Prepare(bytes, maxSize, pil).value.height <= pil.open(bytes).value.height
      && (pil.open(bytes).value.width > maxSize || pil.open(bytes).value.height > maxSize ==>
            Prepare(bytes, maxSize, pil).value.width <= maxSize &&
            Prepare(bytes, maxSize, pil).value.height <= maxSize)
  {
    if Prepare(bytes, maxSize, pil).Success? {
      var img := pil.open(bytes).value;
      var rgb := Converted(img, pil).value;
      assert rgb.width == img.width && rgb.height == img.height;
    }
  }

  /** Under the defaults and a well-behaved PIL, a success returns the
      base64 of the quality-85 JPEG of an image with no edge above 1536
      pixels. */
  lemma DefaultEncodesWithinLimit(bytes: seq<bv8>, pil: Pil)
    requires WellBehaved(pil)
    ensures ProcessImageDataDefault(bytes, pil).Success? ==>
      && Prepare(bytes, DefaultMaxSize, pil).Success?
      && pil.saveJpeg(Prepare(bytes, DefaultMaxSize, pil).value, JpegQuality).Success?
      && Prepare(bytes, DefaultMaxSize, pil).value.width <= 1536
      && Prepare(bytes, DefaultMaxSize, pil).value.height <= 1536
      && ProcessImageDataDefault(bytes, pil) ==
         Success(pil.base64(pil.saveJpeg(Prepare(bytes, DefaultMaxSize, pil).value, JpegQuality).value))
  {
    PrepareWithinLimit(bytes, DefaultMaxSize, pil);
  }

  /** An RGBA 3000×2000 image goes to the JPEG encoder as RGB 1536×1024. */
  lemma RgbaExample(bytes: seq<bv8>, pil: Pil)
    requires WellBehaved(pil)
    requires pil.open(bytes) == Success(Image("RGBA", {}, 3000, 2000))
    ensures Prepare(bytes, DefaultMaxSize, pil).Success?
    ensures Prepare(bytes, DefaultMaxSize, pil).value.mode == "RGB"
    ensures Prepare(bytes, DefaultMaxSize, pil).value.width == 1536
    ensures Prepare(bytes, DefaultMaxSize, pil).value.height == 1024
  {
    var rgb := pil.convert(Image("RGBA", {}, 3000, 2000), "RGB").value;
    DefaultResizeExample();
  }
}
