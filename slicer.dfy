/**
 * The slicer of `splitImageIntoFour`: the decoded image is cut into four
 * horizontal strips of height `height / 4` (exact, not rounded), drawn
 * 1:1 and re-encoded top to bottom.
 *
 * Drawing and encoding are the host's canvas; they are the injected
 * `Render`, applied to the source rectangle of a strip and the chosen
 * encoding.
 */
module Slicer {
  import opened Wrappers
  import opened EncoderPolicy

  /** A decoded upload: the data URL the file reader produced and the image's natural size. */
  datatype DecodedImage = DecodedImage(dataUrl: string, width: nat, height: nat)

  /** A source rectangle of `drawImage`; the destination is the same size at the canvas origin. */
  datatype Rect = Rect(x: real, y: real, w: real, h: real)

  /** `canvas.toDataURL(...)` after drawing the given region of the image onto the canvas. */
  type Render = (DecodedImage, Rect, Encoding) -> string

  const StripCount: nat := 4

  /** `height / 4`, a real number: heights not divisible by four give fractional strips. */
  function QuarterHeight(height: nat): (q: real)
    ensures 4.0 * q == height as real
    ensures q >= 0.0
  {
    height as real / 4.0
  }

  /** The source region of strip `i`: full width, `QuarterHeight` high, starting at `i * QuarterHeight`. */
  function StripRect(img: DecodedImage, i: nat): Rect {
    Rect(0.0, i as real * QuarterHeight(img.height), img.width as real, QuarterHeight(img.height))
  }

  /** The four encoded strips in top-to-bottom order. */
  function Strips(img: DecodedImage, mimeType: string, render: Render): seq<string> {
    seq(StripCount, i requires 0 <= i < StripCount => render(img, StripRect(img, i), EncodingFor(mimeType)))
  }

  /** The `for (let i = 0; i < 4; i++)` loop of `splitImageIntoFour`, pushing one strip per iteration. */
  method SplitIntoFour(img: DecodedImage, mimeType: string, render: Render) returns (splits: seq<string>)
    ensures splits == Strips(img, mimeType, render)
  {
    var quarterHeight := img.height as real / 4.0;
    splits := [];
    for i := 0 to StripCount
      invariant |splits| == i
      invariant forall k :: 0 <= k < i ==> splits[k] == render(img, StripRect(img, k), EncodingFor(mimeType))
    {
      var region := Rect(0.0, i as real * quarterHeight, img.width as real, quarterHeight);
      assert region == StripRect(img, i);
      if mimeType == "image/jpeg" || mimeType == "image/jpg" {
        splits := splits + [render(img, region, Encoding("image/jpeg", Some(1.0)))];
      } else {
        splits := splits + [render(img, region, Encoding(mimeType, None))];
      }
    }
  }

  /** The strips tile the image: the first starts at the top, each starts where the previous ends, the last ends at the bottom, and each spans the full width. */
  lemma StripsTileImage(img: DecodedImage)
    ensures StripRect(img, 0).y == 0.0
    ensures forall i :: 0 <= i < StripCount - 1 ==> StripRect(img, i).y + StripRect(img, i).h == StripRect(img, i + 1).y
    ensures StripRect(img, StripCount - 1).y + StripRect(img, StripCount - 1).h == img.height as real
    ensures forall i :: 0 <= i < StripCount ==> StripRect(img, i).x == 0.0 && StripRect(img, i).w == img.width as real
    ensures StripRect(img, 0).h + StripRect(img, 1).h + StripRect(img, 2).h + StripRect(img, 3).h == img.height as real
  {
  }

  /** Strips are ordered top to bottom: a later index starts no higher than an earlier one. */
  lemma StripsTopToBottom(img: DecodedImage, i: nat, j: nat)
    requires i <= j
    ensures StripRect(img, i).y <= StripRect(img, j).y
    ensures img.height > 0 && i < j ==> StripRect(img, i).y < StripRect(img, j).y
  {
  }

  /** A 199-pixel-high image gives strips of 49.75 starting at 0, 49.75, 99.5 and 149.25, with no rounding. */
  lemma FractionalStrips(img: DecodedImage)
    requires img.height == 199
    ensures QuarterHeight(img.height) == 49.75
    ensures StripRect(img, 0).y == 0.0 && StripRect(img, 1).y == 49.75
    ensures StripRect(img, 2).y == 99.5 && StripRect(img, 3).y == 149.25
  {
  }

  /** A 100 by 400 image gives four 100 by 100 strips at heights 0, 100, 200 and 300. */
  lemma SquareStrips(img: DecodedImage)
    requires img.width == 100 && img.height == 400
    ensures forall i :: 0 <= i < StripCount ==> StripRect(img, i) == Rect(0.0, 100.0 * i as real, 100.0, 100.0)
  {
  }
}
