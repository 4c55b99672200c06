/**
 * The component state of the page (`selectedImage`, `splitImages`,
 * `imageType`) and the handlers that change or read it: upload, reset and
 * save-all.
 */
module Page {
  import opened Wrappers
  import opened JsString
  import opened EncoderPolicy
  import opened Slicer
  import opened Exporter

  /** A selected or dropped file; only its declared type matters before it is read. */
  datatype File = File(mimeType: string)

  const ImagePrefix := "image/"

  class Session {
    var selectedImage: Option<string>
    var splitImages: seq<string>
    var imageType: string
    /** The upload type the stored strips were encoded for. */
    ghost var stripType: string

    /** No strips, or the four of one split; strips only while an image is shown. */
    ghost predicate Valid()
      reads this
    {
      (|splitImages| == 0 || |splitImages| == StripCount) &&
      (splitImages != [] ==> selectedImage.Some?)
    }

    /** Stored strips were encoded for the type that names their exported files. */
    ghost predicate StripsMatchType()
      reads this
    {
      splitImages != [] ==> stripType == imageType
    }

    /** The state `useState` starts with and `reset` returns to. */
    predicate IsEmpty()
      reads this
    {
      selectedImage == None && splitImages == [] && imageType == "image/png"
    }

    constructor ()
      ensures Valid() && StripsMatchType() && IsEmpty()
    {
      selectedImage := None;
      splitImages := [];
      imageType := "image/png";
      stripType := "image/png";
    }

    /**
     * The synchronous part of `handleImageUpload(file)`: a file whose type
     * does not start with `image/` is refused; otherwise its type is
     * recorded at once and reading starts. The page stays as it is until
     * the image's `onload` (`OnImageLoad`) fires, so further files can be
     * picked meanwhile.
     */
    method RequestUpload(file: File) returns (accepted: bool)
      requires Valid()
      modifies this`imageType
      ensures Valid()
      ensures accepted <==> StartsWith(file.mimeType, ImagePrefix)
      ensures imageType == if accepted then file.mimeType else old(imageType)
      ensures selectedImage == old(selectedImage) && splitImages == old(splitImages)
      ensures old(selectedImage).None? ==> StripsMatchType()
    {
      if !StartsWith(file.mimeType, ImagePrefix) {
        return false;
      }
      accepted := true;
      imageType := file.mimeType;
    }

    /**
     * `img.onload` of an upload whose `handleImageUpload` call captured the
     * type `mimeType`: the image is shown and split. The recorded
     * `imageType` is whatever the latest accepted request set, so the
     * strips match it exactly when this upload is the latest one.
     */
    method OnImageLoad(img: DecodedImage, mimeType: string, hasContext: bool, render: Render)
      requires Valid()
      modifies this`selectedImage, this`splitImages, this`stripType
      ensures Valid()
      ensures selectedImage == Some(img.dataUrl)
      ensures splitImages == if hasContext then Strips(img, mimeType, render) else old(splitImages)
      ensures imageType == old(imageType)
      ensures hasContext ==> (StripsMatchType() <==> mimeType == imageType)
      ensures !hasContext ==> stripType == old(stripType)
    {
      selectedImage := Some(img.dataUrl);
      SplitImageIntoFour(img, mimeType, hasContext, render);
    }

    /**
     * `OnImageLoad` with the type recorded together with the strips it
     * names, instead of when the file was picked: the stored strips then
     * always match the type, whatever order uploads complete in.
     */
    method OnImageLoadCorrected(img: DecodedImage, mimeType: string, hasContext: bool, render: Render)
      requires Valid()
      modifies this
      ensures Valid()
      ensures selectedImage == Some(img.dataUrl)
      ensures splitImages == if hasContext then Strips(img, mimeType, render) else old(splitImages)
      ensures imageType == if hasContext then mimeType else old(imageType)
      ensures hasContext ==> StripsMatchType()
      ensures !hasContext ==> stripType == old(stripType)
      ensures old(StripsMatchType()) ==> StripsMatchType()
    {
      selectedImage := Some(img.dataUrl);
      SplitImageIntoFour(img, mimeType, hasContext, render);
      if hasContext {
        imageType := mimeType;
      }
    }

    /**
     * One upload whose decode completes before any other file is picked:
     * `RequestUpload` followed, when `onload` fires (`decoded` is `Some`),
     * by `OnImageLoad`. `None` stands for an image that never decodes.
     */
    method Upload(file: File, decoded: Option<DecodedImage>, hasContext: bool, render: Render) returns (accepted: bool)
      requires Valid()
      modifies this
      ensures Valid()
      ensures accepted <==> StartsWith(file.mimeType, ImagePrefix)
      ensures !accepted ==>
                selectedImage == old(selectedImage) && splitImages == old(splitImages) &&
                imageType == old(imageType) && stripType == old(stripType)
      ensures accepted ==> imageType == file.mimeType
      ensures accepted && decoded.None? ==>
                selectedImage == old(selectedImage) && splitImages == old(splitImages) && stripType == old(stripType)
      ensures accepted && decoded.Some? ==> selectedImage == Some(decoded.value.dataUrl)
      ensures accepted && decoded.Some? && hasContext ==>
                splitImages == Strips(decoded.value, file.mimeType, render) && StripsMatchType()
      ensures accepted && decoded.Some? && !hasContext ==> splitImages == old(splitImages) && stripType == old(stripType)
      ensures old(selectedImage).None? ==> StripsMatchType()
    {
      accepted := RequestUpload(file);
      if accepted && decoded.Some? {
        OnImageLoad(decoded.value, file.mimeType, hasContext, render);
      }
    }

    /** `splitImageIntoFour(img, mimeType)`: nothing happens without a 2D context. */
    method SplitImageIntoFour(img: DecodedImage, mimeType: string, hasContext: bool, render: Render)
      requires Valid() && selectedImage.Some?
      modifies this`splitImages, this`stripType
      ensures Valid()
      ensures hasContext ==> splitImages == Strips(img, mimeType, render) && stripType == mimeType
      ensures !hasContext ==> splitImages == old(splitImages) && stripType == old(stripType)
    {
      if !hasContext {
        return;
      }
      var splits := SplitIntoFour(img, mimeType, render);
      splitImages := splits;
      stripType := mimeType;
    }

    /** `reset()`. */
    method Reset()
      modifies this`selectedImage, this`splitImages, this`imageType
      ensures Valid() && StripsMatchType() && IsEmpty()
    {
      selectedImage := None;
      splitImages := [];
      imageType := "image/png";
    }

    /** The save-all button: one download per stored strip, in index order. */
    method SaveAll() returns (downloads: seq<HostEffect>)
      ensures |downloads| == |splitImages|
      ensures forall i :: 0 <= i < |downloads| ==>
                downloads[i] == LinkDownload(FileName(i, imageType), splitImages[i])
    {
      downloads := [];
      for i := 0 to |splitImages|
        invariant |downloads| == i
        invariant forall k :: 0 <= k < i ==> downloads[k] == LinkDownload(FileName(k, imageType), splitImages[k])
      {
        downloads := downloads + [DownloadImage(splitImages[i], i, imageType)];
      }
    }
  }

  /**
   * Save-all over a completed split downloads `split-1` to `split-4`, under
   * distinct names whose extension names the format the strips were encoded in.
   */
  lemma CompletedSplitDownloads(s: Session, downloads: seq<HostEffect>)
    requires s.Valid() && s.StripsMatchType() && s.splitImages != []
    requires |downloads| == |s.splitImages|
    requires forall i :: 0 <= i < |downloads| ==> downloads[i] == LinkDownload(FileName(i, s.imageType), s.splitImages[i])
    ensures |downloads| == StripCount
    ensures [downloads[0].fileName, downloads[1].fileName, downloads[2].fileName, downloads[3].fileName] ==
            ["split-1." + FileExtension(s.imageType), "split-2." + FileExtension(s.imageType),
             "split-3." + FileExtension(s.imageType), "split-4." + FileExtension(s.imageType)]
    ensures forall i, j :: 0 <= i < j < |downloads| ==> downloads[i].fileName != downloads[j].fileName
    ensures FileExtension(EncodingFor(s.stripType).mime) == FileExtension(s.imageType)
  {
    FourFileNames(s.imageType);
    ExtensionFollowsEncoding(s.imageType);
  }
}
