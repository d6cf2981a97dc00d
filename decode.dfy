/** `decodeGif` (src/page/gif.ts): from the decoder's output to the data the
    player needs.  `parseGIF` and `decompressFrames` belong to an external
    library; their results are the two parameters here. */
module Decode {
  import opened Wrappers
  import opened Gif
  import opened Compositor

  datatype DecodeError = NoFrames | CompositionFailed(cause: ComposeError)

  datatype DecodedGifData = DecodedGifData(
    frames: seq<Bitmap>,
    delaysMs: seq<int>,
    width: int,
    height: int,
    sourceLoopCount: SourceLoopCount)

  /** Fails when the decoder produced no frame or a frame has a non-positive
      dimension; otherwise yields one composited bitmap and one delay per frame
      on the smallest canvas (at least 1 by 1) that holds every frame's box. */
  method DecodeGif(parsed: ParsedGif, decoded: seq<GifFrame>) returns (r: Result<DecodedGifData, DecodeError>)
    ensures |decoded| == 0 <==> r == Failure(NoFrames)
    ensures |decoded| > 0 ==> (r.Failure? <==> !AllValid(decoded))
    ensures r.Failure? && r.error.CompositionFailed? ==>
      var i := r.error.cause.index;
      && 0 <= i < |decoded| && !ValidDims(decoded[i]) && AllValid(decoded[..i])
      && r.error.cause.width == decoded[i].dims.width && r.error.cause.height == decoded[i].dims.height
    ensures r.Success? ==>
      var d := r.value;
      && AllValid(decoded)
      && d.width >= 1 && d.height >= 1
      && (forall i :: 0 <= i < |decoded| ==> Right(decoded[i]) <= d.width && Bottom(decoded[i]) <= d.height)
      && (d.width == 1 || exists i :: 0 <= i < |decoded| && Right(decoded[i]) == d.width)
      && (d.height == 1 || exists i :: 0 <= i < |decoded| && Bottom(decoded[i]) == d.height)
      && d.frames == Composed(decoded, d.width, d.height).outputs
      && |d.frames| == |decoded| >= 1
      && (forall i :: 0 <= i < |d.frames| ==> |d.frames[i]| == d.width * d.height * 4)
      && d.delaysMs == NormalizeFrameDelays(decoded)
      && d.sourceLoopCount == ExtractSourceLoopCount(parsed)
  {
    if |decoded| == 0 {
      return Failure(NoFrames);
    }
    var width, height := DeriveCanvasSize(decoded);
    var composed := ComposeFrames(decoded, width, height);
    if composed.Failure? {
      return Failure(CompositionFailed(composed.error));
    }
    ComposedShape(decoded, width, height);
    var delaysMs := NormalizeFrameDelays(decoded);
    var sourceLoopCount := ExtractSourceLoopCount(parsed);
    return Success(DecodedGifData(composed.value, delaysMs, width, height, sourceLoopCount));
  }
}
