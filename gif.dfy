/** Decode-side helpers of src/page/gif.ts: the frame record delivered by the
    external decoder, the GIF header check, the hex preview used in error
    messages, the loop count of the application extension, the canvas size and
    the per-frame delay normalisation.

    The byte-level decoder (`parseGIF`, `decompressFrames`) is not part of this
    model: its output is the input of these functions. */
module Gif {
  import opened Wrappers

  /** One byte of a `Uint8Array` / `Uint8ClampedArray`. */
  type uint8 = x: int | 0 <= x < 256

  /** Bounding box of a frame's patch on the logical screen. */
  datatype Dims = Dims(top: int, left: int, width: int, height: int)

  /** A frame as the decoder yields it.  `delay` is the raw delay in hundredths
      of a second, `None` when it is not a finite number; `patch` holds the RGBA
      bytes of the box and may be shorter than `width * height * 4`. */
  datatype GifFrame = GifFrame(dims: Dims, delay: Option<int>, disposalType: int, patch: seq<uint8>)

  /** An application extension block; `iterations` is its loop count, if it declares one. */
  datatype AppExtension = AppExtension(iterations: Option<int>)

  /** The part of the parsed file the core reads: the optional list of application extensions. */
  datatype ParsedGif = ParsedGif(appExtensions: Option<seq<AppExtension>>)

  /** How often the file asks to be played: a number of passes, or forever. */
  datatype SourceLoopCount = Finite(passes: int) | Infinite

  // ---------------------------------------------------------------------------
  // Header signature (section 17 of the GIF89a specification)

  /** "GIF87a" and "GIF89a" as byte values. */
  const GIF87A: seq<uint8> := [0x47, 0x49, 0x46, 0x38, 0x37, 0x61]
  const GIF89A: seq<uint8> := [0x47, 0x49, 0x46, 0x38, 0x39, 0x61]

  /** The first six bytes, read as characters, are the signature and version of a GIF header. */
  function StartsWithGifSignature(bytes: seq<uint8>): (r: bool)
    ensures r <==> |bytes| >= 6 && (bytes[..6] == GIF87A || bytes[..6] == GIF89A)
  {
    if |bytes| < 6 then false
    else
      var sig := seq(6, i requires 0 <= i < 6 => bytes[i] as char);
      assert forall i :: 0 <= i < 6 ==> sig[i] as int == bytes[i];
      assert sig == "GIF87a" <==> bytes[..6] == GIF87A by {
        if sig == "GIF87a" {
          assert forall i :: 0 <= i < 6 ==> bytes[i] == "GIF87a"[i] as int == GIF87A[i];
        }
      }
      assert sig == "GIF89a" <==> bytes[..6] == GIF89A by {
        if sig == "GIF89a" {
          assert forall i :: 0 <= i < 6 ==> bytes[i] == "GIF89a"[i] as int == GIF89A[i];
        }
      }
      sig == "GIF87a" || sig == "GIF89a"
  }

  /** Only the first six bytes are inspected. */
  lemma SignatureIgnoresTail(bytes: seq<uint8>, tail: seq<uint8>)
    requires |bytes| >= 6
    ensures StartsWithGifSignature(bytes + tail) == StartsWithGifSignature(bytes)
  {
    assert (bytes + tail)[..6] == bytes[..6];
  }

  // ---------------------------------------------------------------------------
  // Hex preview of the first bytes

  function HexDigit(n: nat): (c: char)
    requires n < 16
    ensures ('0' <= c <= '9') || ('a' <= c <= 'f')
  {
    "0123456789abcdef"[n]
  }

  /** Value of a lowercase hex digit. */
  function HexValue(c: char): nat {
    if '0' <= c <= '9' then (c as int) - ('0' as int)
    else if 'a' <= c <= 'f' then (c as int) - ('a' as int) + 10
    else 0
  }

  lemma HexValueOfDigit(n: nat)
    requires n < 16
    ensures HexValue(HexDigit(n)) == n
  {
  }

  /** `n.toString(16)`: lowercase hexadecimal without leading zeros. */
  function ToHex(n: nat): (s: string)
    ensures 1 <= |s|
    decreases n
  {
    if n < 16 then [HexDigit(n)] else ToHex(n / 16) + [HexDigit(n % 16)]
  }

  /** `s.padStart(width, c)` */
  function PadStart(s: string, width: nat, c: char): (r: string)
    ensures |r| == if |s| >= width then |s| else width
  {
    if |s| >= width then s else seq(width - |s|, _ => c) + s
  }

  /** `b.toString(16).padStart(2, "0")`: the byte as exactly two lowercase hex digits, high digit first. */
  function HexByte(b: uint8): (s: string)
    ensures s == [HexDigit(b / 16), HexDigit(b % 16)]
  {
    if b < 16 then
      assert ToHex(b) == [HexDigit(b)];
      PadStart(ToHex(b), 2, '0')
    else
      assert ToHex(b / 16) == [HexDigit(b / 16)];
      assert ToHex(b) == [HexDigit(b / 16), HexDigit(b % 16)];
      PadStart(ToHex(b), 2, '0')
  }

  /** `parts.join(" ")` */
  function JoinSpaced(parts: seq<string>): string {
    if |parts| == 0 then ""
    else if |parts| == 1 then parts[0]
    else parts[0] + " " + JoinSpaced(parts[1..])
  }

  /** The tokens of the preview: the first `min(count, |bytes|)` bytes, each as hex. */
  function HexTokens(bytes: seq<uint8>, count: nat): (parts: seq<string>)
    ensures |parts| == (if count < |bytes| then count else |bytes|)
    ensures forall i :: 0 <= i < |parts| ==> parts[i] == HexByte(bytes[i])
  {
    var k := if count < |bytes| then count else |bytes|;
    seq(k, i requires 0 <= i < k => HexByte(bytes[i]))
  }

  /** `firstBytesHex(bytes, count)`: at most `count` bytes, each as two hex digits, separated by single spaces. */
  function FirstBytesHex(bytes: seq<uint8>, count: nat): (r: string)
    ensures var k := if count < |bytes| then count else |bytes|;
            && |r| == (if k == 0 then 0 else 3 * k - 1)
            && (forall i :: 0 <= i < k ==> r[3 * i..3 * i + 2] == HexByte(bytes[i]))
            && (forall i :: 0 <= i < k - 1 ==> r[3 * i + 2] == ' ')
  {
    var parts := HexTokens(bytes, count);
    JoinShape(parts);
    JoinSpaced(parts)
  }

  /** Joining two-character tokens puts token `i` at offset `3 * i`, with a space after all but the last. */
  lemma {:induction false} JoinShape(parts: seq<string>)
    requires forall i :: 0 <= i < |parts| ==> |parts[i]| == 2
    ensures var r := JoinSpaced(parts);
            && |r| == (if |parts| == 0 then 0 else 3 * |parts| - 1)
            && (forall i :: 0 <= i < |parts| ==> r[3 * i..3 * i + 2] == parts[i])
            && (forall i :: 0 <= i < |parts| - 1 ==> r[3 * i + 2] == ' ')
  {
    if |parts| > 1 {
      var t := JoinSpaced(parts[1..]);
      JoinShape(parts[1..]);
      var r := parts[0] + " " + t;
      assert JoinSpaced(parts) == r;
      forall i | 0 <= i < |parts| ensures r[3 * i..3 * i + 2] == parts[i] {
        if i > 0 {
          assert r[3 * i..3 * i + 2] == t[3 * (i - 1)..3 * (i - 1) + 2];
        }
      }
      forall i | 0 <= i < |parts| - 1 ensures r[3 * i + 2] == ' ' {
        if i > 0 {
          assert r[3 * i + 2] == t[3 * (i - 1) + 2];
        }
      }
    }
  }

  /** Reads a hex preview back into bytes: two digits, then skip one separator. */
  function ParseHexPreview(s: string): seq<int>
    decreases |s|
  {
    if |s| < 2 then []
    else [HexValue(s[0]) * 16 + HexValue(s[1])] + (if |s| >= 3 then ParseHexPreview(s[3..]) else [])
  }

  /** The preview loses nothing: it names exactly the first `min(count, |bytes|)` bytes. */
  lemma FirstBytesHexRoundTrip(bytes: seq<uint8>, count: nat)
    ensures var k := if count < |bytes| then count else |bytes|;
            ParseHexPreview(FirstBytesHex(bytes, count)) == bytes[..k]
  {
    var k := if count < |bytes| then count else |bytes|;
    JoinRoundTrip(HexTokens(bytes, count), bytes[..k]);
  }

  lemma {:induction false} JoinRoundTrip(parts: seq<string>, bs: seq<uint8>)
    requires |parts| == |bs| && forall i :: 0 <= i < |bs| ==> parts[i] == HexByte(bs[i])
    ensures ParseHexPreview(JoinSpaced(parts)) == bs
  {
    if |bs| == 1 {
      ParseHexToken(bs[0], "");
    } else if |bs| > 1 {
      var t := JoinSpaced(parts[1..]);
      assert JoinSpaced(parts) == HexByte(bs[0]) + (" " + t) by {
        JoinCons(parts);
      }
      ParseHexToken(bs[0], " " + t);
      assert (" " + t)[1..] == t;
      JoinRoundTrip(parts[1..], bs[1..]);
      assert bs == [bs[0]] + bs[1..];
    }
  }

  lemma JoinCons(parts: seq<string>)
    requires |parts| > 1
    ensures JoinSpaced(parts) == parts[0] + (" " + JoinSpaced(parts[1..]))
  {
  }

  /** One token, optionally followed by a separator and more text, reads back as its byte. */
  lemma ParseHexToken(b: uint8, rest: string)
    requires rest == "" || rest[0] == ' '
    ensures ParseHexPreview(HexByte(b) + rest) == [b] + (if rest == "" then [] else ParseHexPreview(rest[1..]))
  {
    HexValueOfDigit(b / 16);
    HexValueOfDigit(b % 16);
    var s := HexByte(b) + rest;
    assert s[0] == HexDigit(b / 16) && s[1] == HexDigit(b % 16);
    if rest != "" {
      assert s[3..] == rest[1..];
    }
  }

  // ---------------------------------------------------------------------------
  // Loop count (the NETSCAPE2.0 application extension)

  /** `i` is the first extension that declares a numeric loop count. */
  predicate FirstIterationsAt(exts: seq<AppExtension>, i: int) {
    0 <= i < |exts| && exts[i].iterations.Some? && forall j :: 0 <= j < i ==> exts[j].iterations.None?
  }

  /** `appExtensions.find(x => typeof x.iterations === "number")?.iterations` */
  function FindIterations(exts: seq<AppExtension>): (r: Option<int>)
    ensures r.None? <==> forall i :: 0 <= i < |exts| ==> exts[i].iterations.None?
    ensures r.Some? ==> exists i :: FirstIterationsAt(exts, i) && exts[i].iterations == r
  {
    if |exts| == 0 then None
    else if exts[0].iterations.Some? then
      assert FirstIterationsAt(exts, 0);
      exts[0].iterations
    else
      var r := FindIterations(exts[1..]);
      assert r.Some? ==> exists i :: FirstIterationsAt(exts, i) && exts[i].iterations == r by {
        if r.Some? {
          var i :| FirstIterationsAt(exts[1..], i) && exts[1..][i].iterations == r;
          assert FirstIterationsAt(exts, i + 1);
        }
      }
      assert r.None? ==> forall i :: 0 <= i < |exts| ==> exts[i].iterations.None? by {
        if r.None? {
          forall i | 0 <= i < |exts| ensures exts[i].iterations.None? {
            if i > 0 { assert exts[i] == exts[1..][i - 1]; }
          }
        }
      }
      r
  }

  /** No declared count means one pass; a declared 0 means forever; anything
      else is taken from the first extension that declares a count. */
  function ExtractSourceLoopCount(parsed: ParsedGif): (r: SourceLoopCount)
    ensures (parsed.appExtensions.None? ||
             forall i :: 0 <= i < |parsed.appExtensions.value| ==> parsed.appExtensions.value[i].iterations.None?)
            ==> r == Finite(1)
    ensures parsed.appExtensions.Some? ==>
            forall i :: FirstIterationsAt(parsed.appExtensions.value, i) ==>
              r == if parsed.appExtensions.value[i].iterations.value == 0 then Infinite
                   else Finite(parsed.appExtensions.value[i].iterations.value)
  {
    var iterations := if parsed.appExtensions.Some? then FindIterations(parsed.appExtensions.value) else None;
    assert parsed.appExtensions.Some? ==>
      forall i, j :: (FirstIterationsAt(parsed.appExtensions.value, i) &&
                      FirstIterationsAt(parsed.appExtensions.value, j)) ==> i == j;
    match iterations
    case None => Finite(1)
    case Some(n) => if n == 0 then Infinite else Finite(n)
  }

  // ---------------------------------------------------------------------------
  // Canvas size

  function Right(f: GifFrame): int { f.dims.left + f.dims.width }
  function Bottom(f: GifFrame): int { f.dims.top + f.dims.height }

  /** The canvas is the maximum extent of all frames, at least 1 by 1. */
  method DeriveCanvasSize(frames: seq<GifFrame>) returns (width: int, height: int)
    ensures width >= 1 && height >= 1
    ensures forall i :: 0 <= i < |frames| ==> Right(frames[i]) <= width && Bottom(frames[i]) <= height
    ensures width == 1 || exists i :: 0 <= i < |frames| && Right(frames[i]) == width
    ensures height == 1 || exists i :: 0 <= i < |frames| && Bottom(frames[i]) == height
  {
    width, height := 0, 0;
    for n := 0 to |frames|
      invariant width >= 0 && height >= 0
      invariant forall i :: 0 <= i < n ==> Right(frames[i]) <= width && Bottom(frames[i]) <= height
      invariant width == 0 || exists i :: 0 <= i < n && Right(frames[i]) == width
      invariant height == 0 || exists i :: 0 <= i < n && Bottom(frames[i]) == height
    {
      var frame := frames[n];
      width := Max(width, frame.dims.left + frame.dims.width);
      height := Max(height, frame.dims.top + frame.dims.height);
    }
    width := Max(width, 1);
    height := Max(height, 1);
  }

  function Max(a: int, b: int): int { if a >= b then a else b }

  /** Every box with a non-negative corner and positive size lies inside the derived canvas. */
  lemma BoxesFitCanvas(frames: seq<GifFrame>, width: int, height: int, i: int)
    requires forall j :: 0 <= j < |frames| ==> Right(frames[j]) <= width && Bottom(frames[j]) <= height
    requires 0 <= i < |frames| && frames[i].dims.left >= 0 && frames[i].dims.top >= 0
    requires frames[i].dims.width > 0 && frames[i].dims.height > 0
    ensures 0 <= frames[i].dims.left < frames[i].dims.left + frames[i].dims.width <= width
    ensures 0 <= frames[i].dims.top < frames[i].dims.top + frames[i].dims.height <= height
  {
  }

  // ---------------------------------------------------------------------------
  // Frame delays (section 23 of the GIF89a specification: delay in 1/100 s)

  /** Milliseconds for one raw delay: invalid or non-positive becomes 100, then clamped to [20, 1000]. */
  function NormalizeDelay(delay: Option<int>): (ms: int)
    ensures 20 <= ms <= 1000
    ensures (delay.None? || delay.value <= 0) ==> ms == 100
    ensures delay.Some? && 2 <= delay.value <= 100 ==> ms == delay.value * 10
    ensures delay.Some? && delay.value > 100 ==> ms == 1000
    ensures delay == Some(1) ==> ms == 20
  {
    var delayMs := if delay.Some? then delay.value * 10 else 100;
    var positive := if delayMs <= 0 then 100 else delayMs;
    if positive < 20 then 20 else if positive > 1000 then 1000 else positive
  }

  /** One normalised delay per frame, in order. */
  function NormalizeFrameDelays(frames: seq<GifFrame>): (r: seq<int>)
    ensures |r| == |frames|
    ensures forall i :: 0 <= i < |frames| ==> r[i] == NormalizeDelay(frames[i].delay) && 20 <= r[i] <= 1000
  {
    seq(|frames|, i requires 0 <= i < |frames| => NormalizeDelay(frames[i].delay))
  }

  /** Raw delays of 10, 5 and 50 centiseconds become 100, 50 and 500 milliseconds. */
  lemma ThreeFrameDelays(box: Dims)
    ensures var f := (d: int) => GifFrame(box, Some(d), 0, []);
            NormalizeFrameDelays([f(10), f(5), f(50)]) == [100, 50, 500]
  {
  }
}
