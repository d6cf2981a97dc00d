/** Frame compositor (`composeFrames` in src/page/gif.ts).

    A bitmap is a row-major RGBA byte sequence: byte `k` of a bitmap `W` pixels
    wide belongs to pixel `k / 4`, at column `(k / 4) % W` and row `(k / 4) / W`,
    channel `k % 4`.  The 2D canvas calls the source makes are modelled as
    region writes on such a sequence:
      - `putImageData(patch, left, top)` overwrites the pixels of the box (no
        blending), and like the canvas it clips: only canvas pixels inside the
        box are written;
      - `clearRect(left, top, w, h)` sets the pixels of the box to transparent
        black (all four channels 0);
      - `putImageData(snapshot, 0, 0)` of a full-canvas snapshot replaces the
        whole buffer.
    Disposal follows section 23 of the GIF89a specification (Graphic Control
    Extension): 2 restores the box to the background, 3 restores the canvas to
    what it was before the frame was drawn, anything else leaves it. */
module Compositor {
  import opened Wrappers
  import opened Gif

  type Bitmap = seq<uint8>

  datatype ComposeError = InvalidDimensions(index: int, width: int, height: int)

  /** A fully transparent bitmap of `n` bytes (what `clearRect` of the whole canvas leaves). */
  function Transparent(n: nat): (b: Bitmap)
    ensures |b| == n && forall k :: 0 <= k < n ==> b[k] == 0
  {
    seq(n, _ => 0)
  }

  /** Byte `k` of a bitmap `W` pixels wide lies inside the box `d`. */
  predicate InBox(k: int, W: nat, d: Dims) {
    && W > 0 && k >= 0
    && d.left <= (k / 4) % W < d.left + d.width
    && d.top <= (k / 4) / W < d.top + d.height
  }

  lemma PatchIndexBound(dx: int, dy: int, w: int, h: int, c: int)
    requires 0 <= dx < w && 0 <= dy < h && 0 <= c < 4
    ensures 0 <= (dy * w + dx) * 4 + c < w * h * 4
  {
    assert dy * w <= (h - 1) * w;
    assert (h - 1) * w == h * w - w;
    assert (dy * w + dx) * 4 + c <= (h * w - 1) * 4 + 3;
  }

  /** Where, in the patch of box `d`, the canvas byte `k` is taken from. */
  function PatchIndex(k: int, W: nat, d: Dims): (j: nat)
    requires InBox(k, W, d)
    ensures j < d.width * d.height * 4
  {
    var x := (k / 4) % W;
    var y := (k / 4) / W;
    PatchIndexBound(x - d.left, y - d.top, d.width, d.height, k % 4);
    ((y - d.top) * d.width + (x - d.left)) * 4 + k % 4
  }

  /** `putImageData(patch, d.left, d.top)` with a patch of exactly `d.width * d.height * 4` bytes. */
  function PutImageData(canvas: Bitmap, W: nat, d: Dims, patch: Bitmap): (r: Bitmap)
    requires |patch| == d.width * d.height * 4
    ensures |r| == |canvas|
  {
    seq(|canvas|, k requires 0 <= k < |canvas| => if InBox(k, W, d) then patch[PatchIndex(k, W, d)] else canvas[k])
  }

  /** `clearRect(d.left, d.top, d.width, d.height)` */
  function ClearRect(canvas: Bitmap, W: nat, d: Dims): (r: Bitmap)
    ensures |r| == |canvas|
  {
    seq(|canvas|, k requires 0 <= k < |canvas| => if InBox(k, W, d) then 0 else canvas[k])
  }

  predicate ValidDims(f: GifFrame) {
    f.dims.width > 0 && f.dims.height > 0
  }

  predicate AllValid(frames: seq<GifFrame>) {
    forall i :: 0 <= i < |frames| ==> ValidDims(frames[i])
  }

  /** `w * h * 4` for a frame with positive dimensions. */
  function Expected(f: GifFrame): (n: nat)
    requires ValidDims(f)
    ensures n == f.dims.width * f.dims.height * 4
  {
    assert f.dims.width * f.dims.height > 0;
    f.dims.width * f.dims.height * 4
  }

  /** The patch zero-padded or truncated to `expected` bytes. */
  function Normalize(patch: Bitmap, expected: nat): (r: Bitmap)
    ensures |r| == expected
  {
    seq(expected, i requires 0 <= i < expected => if i < |patch| then patch[i] else 0)
  }

  /** The work buffer after frame `f` is drawn onto it. */
  function Draw(work: Bitmap, W: nat, f: GifFrame): (r: Bitmap)
    requires ValidDims(f)
    ensures |r| == |work|
  {
    PutImageData(work, W, f.dims, Normalize(f.patch, Expected(f)))
  }

  /** The work buffer after the disposal of `f`, given the snapshot taken before it was drawn. */
  function Dispose(before: Bitmap, drawn: Bitmap, W: nat, f: GifFrame): Bitmap {
    if f.disposalType == 2 then ClearRect(drawn, W, f.dims)
    else if f.disposalType == 3 then before
    else drawn
  }

  /** The emitted bitmaps so far and the work buffer that the next frame is drawn onto. */
  datatype Composition = Composition(outputs: seq<Bitmap>, work: Bitmap)

  /** Reference definition of the composition pass, frame by frame from the transparent canvas. */
  function Composed(frames: seq<GifFrame>, W: nat, H: nat): Composition
    requires AllValid(frames)
    decreases |frames|
  {
    if |frames| == 0 then Composition([], Transparent(W * H * 4))
    else
      var c := Composed(frames[..|frames| - 1], W, H);
      var f := frames[|frames| - 1];
      var drawn := Draw(c.work, W, f);
      Composition(c.outputs + [drawn], Dispose(c.work, drawn, W, f))
  }

  /** The work buffer just before frame `i` is drawn. */
  function PreDraw(frames: seq<GifFrame>, W: nat, H: nat, i: nat): Bitmap
    requires AllValid(frames) && i <= |frames|
  {
    Composed(frames[..i], W, H).work
  }

  // ---------------------------------------------------------------------------
  // In-place canvas operations on the work buffer

  method PutImageDataInPlace(work: array<uint8>, W: nat, d: Dims, patch: Bitmap)
    requires |patch| == d.width * d.height * 4
    modifies work
    ensures work[..] == PutImageData(old(work[..]), W, d, patch)
  {
    forall k | 0 <= k < work.Length && InBox(k, W, d) {
      work[k] := patch[PatchIndex(k, W, d)];
    }
  }

  method ClearRectInPlace(work: array<uint8>, W: nat, d: Dims)
    modifies work
    ensures work[..] == ClearRect(old(work[..]), W, d)
  {
    forall k | 0 <= k < work.Length && InBox(k, W, d) {
      work[k] := 0;
    }
  }

  method RestoreInPlace(work: array<uint8>, snapshot: Bitmap)
    requires |snapshot| == work.Length
    modifies work
    ensures work[..] == snapshot
  {
    forall k | 0 <= k < work.Length {
      work[k] := snapshot[k];
    }
  }

  /** The byte-copy loop: a fresh buffer of `expected` bytes holding the patch zero-padded or truncated. */
  method NormalizePatch(source: Bitmap, expected: nat) returns (normalized: array<uint8>)
    ensures fresh(normalized)
    ensures normalized[..] == Normalize(source, expected)
  {
    normalized := new uint8[expected](_ => 0);
    var copyLength := if expected < |source| then expected else |source|;
    for i := 0 to copyLength
      invariant forall j :: 0 <= j < i ==> normalized[j] == source[j]
      invariant forall j :: i <= j < expected ==> normalized[j] == 0
    {
      normalized[i] := source[i];
    }
  }

  /** One iteration of the composition loop on a frame with valid dimensions:
      draw, emit a copy, dispose. */
  method ComposeOne(work: array<uint8>, W: nat, frame: GifFrame) returns (emitted: Bitmap)
    requires ValidDims(frame)
    modifies work
    ensures emitted == Draw(old(work[..]), W, frame)
    ensures work[..] == Dispose(old(work[..]), emitted, W, frame)
  {
    // Snapshot is taken for disposal 3 ("restore to previous").
    var snapshotBefore := work[..];
    var normalized := NormalizePatch(frame.patch, Expected(frame));
    PutImageDataInPlace(work, W, frame.dims, normalized[..]);
    emitted := work[..];
    if frame.disposalType == 2 {
      ClearRectInPlace(work, W, frame.dims);
    } else if frame.disposalType == 3 {
      RestoreInPlace(work, snapshotBefore);
    }
  }

  /** `composeFrames(frames, W, H)`: one full-canvas bitmap per frame, or the
      first frame whose width or height is not positive. */
  method ComposeFrames(frames: seq<GifFrame>, W: nat, H: nat) returns (r: Result<seq<Bitmap>, ComposeError>)
    ensures r.Failure? <==> !AllValid(frames)
    ensures r.Failure? ==>
      && 0 <= r.error.index < |frames|
      && !ValidDims(frames[r.error.index])
      && AllValid(frames[..r.error.index])
      && r.error.width == frames[r.error.index].dims.width
      && r.error.height == frames[r.error.index].dims.height
    ensures r.Success? ==> AllValid(frames) && r.value == Composed(frames, W, H).outputs
  {
    var work := new uint8[W * H * 4](_ => 0);
    var output: seq<Bitmap> := [];
    assert frames[..0] == [];
    for index := 0 to |frames|
      invariant work.Length == W * H * 4
      invariant AllValid(frames[..index])
      invariant Composed(frames[..index], W, H) == Composition(output, work[..])
    {
      var frame := frames[index];
      var fw := frame.dims.width;
      var fh := frame.dims.height;
      if fw <= 0 || fh <= 0 {
        return Failure(InvalidDimensions(index, fw, fh));
      }
      var emitted := ComposeOne(work, W, frame);
      output := output + [emitted];
      assert frames[..index + 1][..index] == frames[..index];
      assert frames[..index + 1][index] == frame;
    }
    assert frames[..|frames|] == frames;
    return Success(output);
  }

  // ---------------------------------------------------------------------------
  // Properties of the composition

  lemma {:induction false} ComposedShape(frames: seq<GifFrame>, W: nat, H: nat)
    requires AllValid(frames)
    ensures var c := Composed(frames, W, H);
            && |c.outputs| == |frames| && |c.work| == W * H * 4
            && forall i :: 0 <= i < |frames| ==> |c.outputs[i]| == W * H * 4
    decreases |frames|
  {
    if |frames| > 0 {
      ComposedShape(frames[..|frames| - 1], W, H);
    }
  }

  /** Emitting later frames never changes an already emitted bitmap. */
  lemma {:induction false} ComposedPrefix(frames: seq<GifFrame>, W: nat, H: nat, n: nat)
    requires AllValid(frames) && n <= |frames|
    ensures |Composed(frames, W, H).outputs| == |frames|
    ensures Composed(frames[..n], W, H).outputs == Composed(frames, W, H).outputs[..n]
    decreases |frames|
  {
    ComposedShape(frames, W, H);
    if n < |frames| {
      var init := frames[..|frames| - 1];
      assert init[..n] == frames[..n];
      ComposedPrefix(init, W, H, n);
      ComposedShape(init, W, H);
    } else {
      assert frames[..n] == frames;
    }
  }

  /** Frame `i`'s bitmap is frame `i` drawn on the pre-draw buffer, and the next
      pre-draw buffer is the disposal of frame `i`. */
  lemma ComposedStep(frames: seq<GifFrame>, W: nat, H: nat, i: nat)
    requires AllValid(frames) && i < |frames|
    ensures |Composed(frames, W, H).outputs| == |frames|
    ensures Composed(frames, W, H).outputs[i] == Draw(PreDraw(frames, W, H, i), W, frames[i])
    ensures PreDraw(frames, W, H, i + 1)
         == Dispose(PreDraw(frames, W, H, i), Composed(frames, W, H).outputs[i], W, frames[i])
  {
    ComposedPrefix(frames, W, H, i + 1);
    var prefix := frames[..i + 1];
    assert prefix[..i] == frames[..i];
    assert prefix[i] == frames[i];
  }

  /** The composition starts from a fully transparent canvas. */
  lemma PreDrawInitial(frames: seq<GifFrame>, W: nat, H: nat)
    requires AllValid(frames)
    ensures PreDraw(frames, W, H, 0) == Transparent(W * H * 4)
  {
    assert frames[..0] == [];
  }

  lemma PreDrawLength(frames: seq<GifFrame>, W: nat, H: nat, i: nat)
    requires AllValid(frames) && i <= |frames|
    ensures |PreDraw(frames, W, H, i)| == W * H * 4
  {
    ComposedShape(frames[..i], W, H);
  }

  /** Inside frame `i`'s box its bitmap holds the patch (bytes past the end of a
      short patch are 0); outside the box it holds the pre-draw buffer. */
  lemma OutputPixel(frames: seq<GifFrame>, W: nat, H: nat, i: nat, k: nat)
    requires AllValid(frames) && i < |frames| && k < W * H * 4
    ensures |Composed(frames, W, H).outputs| == |frames|
    ensures |Composed(frames, W, H).outputs[i]| == W * H * 4
    ensures |PreDraw(frames, W, H, i)| == W * H * 4
    ensures Composed(frames, W, H).outputs[i][k] ==
      if InBox(k, W, frames[i].dims) then
        (var j := PatchIndex(k, W, frames[i].dims); if j < |frames[i].patch| then frames[i].patch[j] else 0)
      else PreDraw(frames, W, H, i)[k]
  {
    ComposedStep(frames, W, H, i);
    PreDrawLength(frames, W, H, i);
  }

  /** Disposal other than 2 and 3: the next frame is drawn over exactly what frame `i` showed. */
  lemma DisposalKeeps(frames: seq<GifFrame>, W: nat, H: nat, i: nat)
    requires AllValid(frames) && i < |frames|
    requires frames[i].disposalType != 2 && frames[i].disposalType != 3
    ensures |Composed(frames, W, H).outputs| == |frames|
    ensures PreDraw(frames, W, H, i + 1) == Composed(frames, W, H).outputs[i]
  {
    ComposedStep(frames, W, H, i);
  }

  /** Disposal 2 zeroes exactly frame `i`'s box and keeps every other byte of its bitmap. */
  lemma DisposalClears(frames: seq<GifFrame>, W: nat, H: nat, i: nat, k: nat)
    requires AllValid(frames) && i < |frames| && frames[i].disposalType == 2 && k < W * H * 4
    ensures |Composed(frames, W, H).outputs| == |frames|
    ensures |Composed(frames, W, H).outputs[i]| == W * H * 4
    ensures |PreDraw(frames, W, H, i + 1)| == W * H * 4
    ensures PreDraw(frames, W, H, i + 1)[k] ==
      if InBox(k, W, frames[i].dims) then 0 else Composed(frames, W, H).outputs[i][k]
  {
    ComposedStep(frames, W, H, i);
    ComposedShape(frames, W, H);
  }

  /** Disposal 3 puts back the snapshot taken before frame `i` was drawn. */
  lemma DisposalRestores(frames: seq<GifFrame>, W: nat, H: nat, i: nat)
    requires AllValid(frames) && i < |frames| && frames[i].disposalType == 3
    ensures PreDraw(frames, W, H, i + 1) == PreDraw(frames, W, H, i)
  {
    ComposedStep(frames, W, H, i);
  }

  /** When frame `i` is not disposed, frame `i + 1` keeps frame `i`'s pixels outside its own box. */
  lemma NoBleedOutsideNextBox(frames: seq<GifFrame>, W: nat, H: nat, i: nat, k: nat)
    requires AllValid(frames) && i + 1 < |frames| && k < W * H * 4
    requires frames[i].disposalType != 2 && frames[i].disposalType != 3
    requires !InBox(k, W, frames[i + 1].dims)
    ensures |Composed(frames, W, H).outputs| == |frames|
    ensures |Composed(frames, W, H).outputs[i]| == W * H * 4
    ensures |Composed(frames, W, H).outputs[i + 1]| == W * H * 4
    ensures Composed(frames, W, H).outputs[i + 1][k] == Composed(frames, W, H).outputs[i][k]
  {
    OutputPixel(frames, W, H, i + 1, k);
    DisposalKeeps(frames, W, H, i);
    ComposedShape(frames, W, H);
  }
}
