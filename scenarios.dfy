/** Client runs of the page's handlers, showing what callers can conclude from their contracts alone. */
module Scenarios {
  import opened Wrappers
  import EncoderPolicy
  import opened Slicer
  import opened Exporter
  import opened Page

  /** A `text/plain` file is refused and the fresh session stays empty. */
  method RejectNonImage(decoded: Option<DecodedImage>, hasContext: bool, render: Render)
    returns (accepted: bool, stillEmpty: bool)
    ensures !accepted && stillEmpty
  {
    var s := new Session();
    assert !JsString.StartsWith("text/plain", ImagePrefix) by {
      assert "text/plain"[0] != ImagePrefix[0];
    }
    accepted := s.Upload(File("text/plain"), decoded, hasContext, render);
    stillEmpty := s.IsEmpty();
  }

  /** Resetting and uploading the same file again gives the same four strips. */
  method ResetThenReupload(file: File, img: DecodedImage, render: Render)
    returns (first: seq<string>, second: seq<string>)
    requires JsString.StartsWith(file.mimeType, ImagePrefix)
    ensures |first| == StripCount && first == second
  {
    var s := new Session();
    var ok := s.Upload(file, Some(img), true, render);
    first := s.splitImages;
    s.Reset();
    ok := s.Upload(file, Some(img), true, render);
    second := s.splitImages;
  }

  /** A 100 by 400 PNG, split and saved: the downloads are `split-1.png` to `split-4.png`. */
  method SquarePngSaveAll(render: Render) returns (names: seq<string>)
    ensures names == ["split-1.png", "split-2.png", "split-3.png", "split-4.png"]
  {
    var s := new Session();
    var img := DecodedImage("data:image/png;base64,", 100, 400);
    assert JsString.StartsWith("image/png", ImagePrefix);
    var ok := s.Upload(File("image/png"), Some(img), true, render);
    assert s.imageType == "image/png" && |s.splitImages| == StripCount;
    var downloads := s.SaveAll();
    CompletedSplitDownloads(s, downloads);
    names := [downloads[0].fileName, downloads[1].fileName, downloads[2].fileName, downloads[3].fileName];
    PngExtension();
  }

  lemma PngExtension()
    ensures "split-1." + EncoderPolicy.FileExtension("image/png") == "split-1.png"
    ensures "split-2." + EncoderPolicy.FileExtension("image/png") == "split-2.png"
    ensures "split-3." + EncoderPolicy.FileExtension("image/png") == "split-3.png"
    ensures "split-4." + EncoderPolicy.FileExtension("image/png") == "split-4.png"
  {
  }

  lemma JpegEncoding()
    ensures EncoderPolicy.EncodingFor("image/jpeg") == EncoderPolicy.Encoding("image/jpeg", Some(1.0))
  {
  }

  lemma JpgExtension()
    ensures "split-1." + EncoderPolicy.FileExtension("image/jpeg") == "split-1.jpg"
    ensures "split-2." + EncoderPolicy.FileExtension("image/jpeg") == "split-2.jpg"
    ensures "split-3." + EncoderPolicy.FileExtension("image/jpeg") == "split-3.jpg"
    ensures "split-4." + EncoderPolicy.FileExtension("image/jpeg") == "split-4.jpg"
  {
  }

  /**
   * A JPEG is picked, then a PNG before the JPEG has decoded; the PNG
   * decodes first. The JPEG's strips, encoded as `image/jpeg`, are stored
   * last, but save-all names them `split-1.png` to `split-4.png`.
   */
  method OverlappingUploads(jpeg: DecodedImage, png: DecodedImage, render: Render)
    returns (strips: seq<string>, names: seq<string>)
    ensures strips == Strips(jpeg, "image/jpeg", render)
    ensures forall i :: 0 <= i < |strips| ==>
              strips[i] == render(jpeg, StripRect(jpeg, i), EncoderPolicy.Encoding("image/jpeg", Some(1.0)))
    ensures names == ["split-1.png", "split-2.png", "split-3.png", "split-4.png"]
  {
    var s := new Session();
    assert JsString.StartsWith("image/jpeg", ImagePrefix);
    assert JsString.StartsWith("image/png", ImagePrefix);
    var ok := s.RequestUpload(File("image/jpeg"));
    ok := s.RequestUpload(File("image/png"));
    s.OnImageLoad(png, "image/png", true, render);
    s.OnImageLoad(jpeg, "image/jpeg", true, render);
    strips := s.splitImages;
    var downloads := s.SaveAll();
    EncoderPolicy.FourFileNames(s.imageType);
    names := [downloads[0].fileName, downloads[1].fileName, downloads[2].fileName, downloads[3].fileName];
    PngExtension();
    JpegEncoding();
  }

  /** The same overlapping uploads with the type recorded at `onload`: the JPEG strips are saved as `.jpg`. */
  method OverlappingUploadsCorrected(jpeg: DecodedImage, png: DecodedImage, render: Render)
    returns (strips: seq<string>, names: seq<string>)
    ensures strips == Strips(jpeg, "image/jpeg", render)
    ensures names == ["split-1.jpg", "split-2.jpg", "split-3.jpg", "split-4.jpg"]
  {
    var s := new Session();
    assert JsString.StartsWith("image/jpeg", ImagePrefix);
    assert JsString.StartsWith("image/png", ImagePrefix);
    var ok := s.RequestUpload(File("image/jpeg"));
    ok := s.RequestUpload(File("image/png"));
    s.OnImageLoadCorrected(png, "image/png", true, render);
    s.OnImageLoadCorrected(jpeg, "image/jpeg", true, render);
    strips := s.splitImages;
    var downloads := s.SaveAll();
    CompletedSplitDownloads(s, downloads);
    names := [downloads[0].fileName, downloads[1].fileName, downloads[2].fileName, downloads[3].fileName];
    JpgExtension();
  }
}
