/**
 * The exporter: `downloadImage` clicks a temporary link, and `shareImage`
 * offers the strip to the host's share sheet, falling back to a download
 * when sharing is missing, refused or fails for any reason other than the
 * user cancelling.
 *
 * The host's answers (`navigator.share` and `navigator.canShare` present,
 * `canShare({files})`, how the share promise settles) are the injected
 * `Host`; what the page makes happen is a trace of `HostEffect`s.
 */
module Exporter {
  import opened Wrappers
  import opened JsString
  import opened EncoderPolicy
  import opened DataUrl

  /** What the page asks the host to do. */
  datatype HostEffect =
    | ShareSheet(fileName: string, fileType: string, bytes: seq<Byte>, title: string)  // navigator.share({files: [file], title})
    | LinkDownload(fileName: string, href: string)                   // <a download=fileName href=href>.click()

  /** How the promise returned by `navigator.share` settles. */
  datatype ShareOutcome = Resolved | Rejected(errorName: string)

  /** The host's share capabilities and its answer to this share request. */
  datatype Host = Host(hasShare: bool, hasCanShare: bool, canShareFiles: bool, outcome: ShareOutcome)

  /** The error name a share cancelled by the user rejects with. */
  const AbortError := "AbortError"

  /** `downloadImage(dataUrl, index)`. */
  function DownloadImage(dataUrl: string, index: nat, imageType: string): (e: HostEffect)
    ensures e.LinkDownload? && e.fileName == FileName(index, imageType) && e.href == dataUrl
  {
    LinkDownload(FileName(index, imageType), dataUrl)
  }

  /** The fixed start of the share sheet's title ("split image "). */
  const TitlePrefix := "分割画像 "

  /** Title of the share sheet: the prefix followed by the 1-based strip number in decimal. */
  function ShareTitle(index: nat): (title: string)
    ensures StartsWith(title, TitlePrefix)
    ensures var num := title[|TitlePrefix|..];
            |num| >= 1 && (forall k :: 0 <= k < |num| ==> IsDigit(num[k])) &&
            ParseNat(num) == index + 1 && (|num| > 1 ==> num[0] != '0')
  {
    var title := TitlePrefix + NatToString(index + 1);
    assert title[|TitlePrefix|..] == NatToString(index + 1);
    ParseNatToString(index + 1);
    title
  }

  /** The `catch` of `shareImage`: every error except a cancelled share falls back to a download. */
  function OnShareError(errorName: string, dataUrl: string, index: nat, imageType: string): (effects: seq<HostEffect>)
    ensures |effects| <= 1
    ensures effects != [] <==> errorName != AbortError
    ensures effects != [] ==> effects[0] == LinkDownload(FileName(index, imageType), dataUrl)
  {
    if errorName != AbortError then [DownloadImage(dataUrl, index, imageType)] else []
  }

  /** `shareImage(dataUrl, index)` as the sequence of host effects it causes. */
  function ShareImage(dataUrl: string, index: nat, imageType: string, host: Host, atob: Atob): (effects: seq<HostEffect>)
    ensures 1 <= |effects| <= 2
    ensures |effects| == 2 ==> effects[0].ShareSheet? && effects[1].LinkDownload?
    ensures forall k :: 0 <= k < |effects| ==> effects[k].fileName == FileName(index, imageType)
    ensures effects[0].ShareSheet? <==>
              host.hasShare && host.hasCanShare && Decodes(dataUrl, atob) && host.canShareFiles
    ensures effects[|effects| - 1].LinkDownload? <==>
              !(host.hasShare && host.hasCanShare) || !Decodes(dataUrl, atob) || !host.canShareFiles ||
              (host.outcome.Rejected? && host.outcome.errorName != AbortError)
    ensures forall k :: 0 <= k < |effects| && effects[k].LinkDownload? ==> effects[k].href == dataUrl
    ensures forall k :: 0 <= k < |effects| && effects[k].ShareSheet? ==>
              k == 0 && effects[k].fileType == imageType && effects[k].title == ShareTitle(index) &&
              effects[k].bytes == BlobBytes(atob(Payload(dataUrl)).value)
  {
    if host.hasShare && host.hasCanShare then
      if !Decodes(dataUrl, atob) then
        OnShareError(InvalidCharacterError, dataUrl, index, imageType)
      else
        var file := FileName(index, imageType);
        if host.canShareFiles then
          var sheet := ShareSheet(file, imageType, BlobBytes(atob(Payload(dataUrl)).value), ShareTitle(index));
          match host.outcome
          case Resolved => [sheet]
          case Rejected(name) => [sheet] + OnShareError(name, dataUrl, index, imageType)
        else
          [DownloadImage(dataUrl, index, imageType)]
    else
      [DownloadImage(dataUrl, index, imageType)]
  }
}
