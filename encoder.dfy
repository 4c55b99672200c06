/**
 * Encoder policy of the page: which media type and quality each strip is
 * re-encoded with, which file extension an exported strip gets, and the
 * exported file names `split-{index+1}.{ext}`.
 */
module EncoderPolicy {
  import opened Wrappers
  import opened JsString

  /** The two spellings the page treats as JPEG. */
  predicate IsJpegType(mimeType: string) {
    mimeType == "image/jpeg" || mimeType == "image/jpg"
  }

  /** Arguments of `canvas.toDataURL`: a media type and, when given, a quality factor. */
  datatype Encoding = Encoding(mime: string, quality: Option<real>)

  /** The `toDataURL` arguments chosen for every strip of an upload of type `mimeType`. */
  function EncodingFor(mimeType: string): (e: Encoding)
    ensures e.quality.Some? <==> IsJpegType(mimeType)
    ensures e.quality.Some? ==> e.quality.value == 1.0
    ensures IsJpegType(mimeType) ==> e.mime == "image/jpeg"
    ensures !IsJpegType(mimeType) ==> e.mime == mimeType
  {
    if mimeType == "image/jpeg" || mimeType == "image/jpg" then Encoding("image/jpeg", Some(1.0))
    else Encoding(mimeType, None)
  }

  /** `getFileExtension`, reading the session's recorded image type. */
  function FileExtension(imageType: string): (ext: string)
    ensures ext == "jpg" || ext == "png" || ext == "webp"
    ensures ext == "jpg" <==> IsJpegType(imageType)
    ensures ext == "webp" <==> imageType == "image/webp"
    ensures ext == "png" <==> !IsJpegType(imageType) && imageType != "image/webp"
  {
    if imageType == "image/jpeg" || imageType == "image/jpg" then "jpg"
    else if imageType == "image/png" then "png"
    else if imageType == "image/webp" then "webp"
    else "png"
  }

  /** The extension of an exported strip names the format its bytes were encoded in. */
  lemma ExtensionFollowsEncoding(imageType: string)
    ensures FileExtension(EncodingFor(imageType).mime) == FileExtension(imageType)
    ensures EncodingFor(imageType).mime == "image/jpeg" <==> FileExtension(imageType) == "jpg"
  {
  }

  const NamePrefix := "split-"

  /** The number part of an exported file name, between the prefix and the extension's dot. */
  function NameNumber(name: string, ext: string): string
    requires |NamePrefix| + |ext| + 1 <= |name|
  {
    name[|NamePrefix|..|name| - |ext| - 1]
  }

  /** `split-${index + 1}.${ext}`, the name under which strip `index` is downloaded or shared. */
  function FileName(index: nat, imageType: string): (name: string)
    ensures StartsWith(name, NamePrefix)
    ensures |NamePrefix| + |FileExtension(imageType)| + 1 < |name|
    ensures name[|name| - |FileExtension(imageType)| - 1..] == "." + FileExtension(imageType)
    ensures var num := NameNumber(name, FileExtension(imageType));
            (forall k :: 0 <= k < |num| ==> IsDigit(num[k])) && ParseNat(num) == index + 1
    ensures var num := NameNumber(name, FileExtension(imageType));
            |num| > 1 ==> num[0] != '0'
  {
    var num := NatToString(index + 1);
    var name := NamePrefix + num + "." + FileExtension(imageType);
    assert NameNumber(name, FileExtension(imageType)) == num;
    ParseNatToString(index + 1);
    name
  }

  /** Distinct strips of one session never share a file name. */
  lemma FileNameInjective(i: nat, j: nat, imageType: string)
    requires FileName(i, imageType) == FileName(j, imageType)
    ensures i == j
  {
  }

  /** The four strips are named `split-1` to `split-4`, all with the session's extension. */
  lemma FourFileNames(imageType: string)
    ensures FileName(0, imageType) == "split-1." + FileExtension(imageType)
    ensures FileName(1, imageType) == "split-2." + FileExtension(imageType)
    ensures FileName(2, imageType) == "split-3." + FileExtension(imageType)
    ensures FileName(3, imageType) == "split-4." + FileExtension(imageType)
  {
  }
}
