/**
 * The links router: turning a URL into a QR code image, as a data URI in
 * JSON, as a PNG download, or as a one-page PDF with the image centred and
 * the URL printed beneath it. The QR encoder, the URL parser, the PNG
 * reader and the PDF writer are parameters; what is modelled is the order
 * of the checks, the strings built around the library results and the
 * page arithmetic.
 */
module LinksRoutes {
  import opened Util
  import opened Text
  import opened Http
  import Base64

  /** The pixel dimensions of a rendered PNG, as pdf-lib reads them. */
  datatype PngSize = PngSize(width: nat, height: nat)

  /** Where an image is drawn on a page, in PDF points from the lower-left corner. */
  datatype Placement = Placement(x: real, y: real, width: real, height: real)

  /** The single page of the PDF download. */
  datatype PdfPage = PdfPage(
    width: real,
    height: real,
    image: Placement,
    png: seq<byte>,
    caption: string,
    captionX: real,
    captionY: real,
    fontSize: real)

  /**
   * The libraries the router calls: `new URL(s)` succeeding, `QRCode.toBuffer`
   * (which fails when the data does not fit a QR symbol), `embedPng` reading
   * the dimensions, and `pdfDoc.save`.
   */
  datatype Libs = Libs(
    parsesAsUrl: string -> bool,
    render: string -> Option<seq<byte>>,
    pngSize: seq<byte> -> Option<PngSize>,
    savePdf: PdfPage -> seq<byte>)

  /** The font a caption is drawn with, reduced to the characters it can encode. */
  datatype Font = Font(encodes: char -> bool)

  const DATA_URI_PREFIX: string := "data:image/png;base64,"
  const PAGE_SIZE: real := 500.0
  const IMAGE_SCALE: real := 0.5
  const CAPTION_X: real := 50.0
  const CAPTION_Y: real := 50.0
  const FONT_SIZE: real := 12.0
  /** The Arabic word for "the link" followed by ": ". */
  const CAPTION_PREFIX: string := "\U{0627}\U{0644}\U{0631}\U{0627}\U{0628}\U{0637}: "

  /* ---------- generate-qr ---------- */

  /** The `qrCode` field: a PNG data URI (section 3 of RFC 2397) carrying base64 (section 4 of RFC 4648). */
  function DataUri(png: seq<byte>): (s: string)
    ensures StartsWith(s, DATA_URI_PREFIX)
    ensures |s| == |DATA_URI_PREFIX| + 4 * ((|png| + 2) / 3)
  {
    DATA_URI_PREFIX + Base64.Encode(png)
  }

  /** What a client does with `qrCode`: check the prefix and decode the rest. */
  function ParseDataUri(s: string): Option<seq<byte>> {
    if StartsWith(s, DATA_URI_PREFIX) then Base64.Decode(s[|DATA_URI_PREFIX|..]) else None
  }

  /** The data URI gives back exactly the rendered bytes. */
  lemma DataUriRoundTrip(png: seq<byte>)
    ensures ParseDataUri(DataUri(png)) == Some(png)
  {
    assert DataUri(png)[|DATA_URI_PREFIX|..] == Base64.Encode(png);
    Base64.DecodeEncode(png);
  }

  /** Every well-formed PNG data URI is the one generate-qr would build for its bytes. */
  lemma DataUriCanonical(s: string)
    requires ParseDataUri(s).Some?
    ensures DataUri(ParseDataUri(s).value) == s
  {
    var rest := s[|DATA_URI_PREFIX|..];
    Base64.EncodeDecode(rest);
    assert s == DATA_URI_PREFIX + rest;
  }

  /** POST /generate-qr with body field `url`, at clock time `nowMs`. */
  function GenerateQr(url: Option<string>, libs: Libs, nowMs: nat): (r: Response)
    ensures !Truthy(url) ==> r == Reply(BAD_REQUEST, EnterUrl)
    ensures Truthy(url) && !libs.parsesAsUrl(url.value) ==> r == Reply(BAD_REQUEST, EnterValidUrl)
    ensures r.status in {CREATED, BAD_REQUEST, SERVER_ERROR}
    ensures r.status == SERVER_ERROR <==>
              Truthy(url) && libs.parsesAsUrl(url.value) && libs.render(url.value).None?
    ensures r.status == SERVER_ERROR ==> r == Reply(SERVER_ERROR, QrCreationFailed)
    ensures r.status == CREATED ==>
              r.body.QrCode? && r.body.linkId == DecimalString(nowMs)
              && ParseDataUri(r.body.qrCode) == libs.render(url.value)
  {
    if !Truthy(url) then Reply(BAD_REQUEST, EnterUrl)
    else if !libs.parsesAsUrl(url.value) then Reply(BAD_REQUEST, EnterValidUrl)
    else
      match libs.render(url.value)
      case None => Reply(SERVER_ERROR, QrCreationFailed)
      case Some(png) =>
        DataUriRoundTrip(png);
        Response(CREATED, QrCode(DecimalString(nowMs), DataUri(png)))
  }

  /** The link id is the clock reading in decimal, and reads back as that number. */
  lemma LinkIdIsClock(url: Option<string>, libs: Libs, nowMs: nat)
    requires GenerateQr(url, libs, nowMs).status == CREATED
    ensures DecimalValue(GenerateQr(url, libs, nowMs).body.linkId) == nowMs
  {
    DecimalRoundTrip(nowMs);
  }

  /** The input checks come before rendering: a rejected URL gets the same 400 whatever the renderer does. */
  lemma RejectionBeforeRendering(url: Option<string>, libs: Libs, other: Libs, nowMs: nat, later: nat)
    requires other.parsesAsUrl == libs.parsesAsUrl
    requires GenerateQr(url, libs, nowMs).status == BAD_REQUEST
    ensures GenerateQr(url, other, later) == GenerateQr(url, libs, nowMs)
  {
  }

  /* ---------- downloads ---------- */

  /** Node refuses a header value with a character outside tab, 0x20-0x7E and 0x80-0xFF. */
  predicate HeaderChar(c: char) {
    c == '\t' || (' ' <= c <= '~') || ('\U{80}' <= c <= '\U{FF}')
  }

  predicate HeaderValueOk(s: string) {
    forall k :: 0 <= k < |s| ==> HeaderChar(s[k])
  }

  const DISPOSITION_PREFIX: string := "attachment; filename=\"qrcode-"

  /** The Content-Disposition header for path parameter `id` and extension `ext` (".png" or ".pdf"). */
  function Disposition(id: string, ext: string): string {
    DISPOSITION_PREFIX + id + ext + "\""
  }

  /** The path parameter a Content-Disposition header was built from, when it has the expected shape. */
  function DispositionId(header: string, ext: string): Option<string> {
    var tail := ext + "\"";
    if |header| >= |DISPOSITION_PREFIX| + |tail|
       && header[..|DISPOSITION_PREFIX|] == DISPOSITION_PREFIX
       && header[|header| - |tail|..] == tail
    then Some(header[|DISPOSITION_PREFIX|..|header| - |tail|])
    else None
  }

  /** The filename is `qrcode-<id><ext>` with the id verbatim: it can be read back out of the header. */
  lemma DispositionNamesId(id: string, ext: string)
    ensures DispositionId(Disposition(id, ext), ext) == Some(id)
  {
    var h := Disposition(id, ext);
    var tail := ext + "\"";
    assert h == DISPOSITION_PREFIX + id + tail;
    assert h[..|DISPOSITION_PREFIX|] == DISPOSITION_PREFIX;
    assert h[|h| - |tail|..] == tail;
    assert h[|DISPOSITION_PREFIX|..|h| - |tail|] == id;
  }

  /** Of the header values the downloads set, only the path parameter can make Node refuse the header. */
  lemma DispositionValidIff(id: string)
    ensures HeaderValueOk(Disposition(id, ".png")) <==> HeaderValueOk(id)
    ensures HeaderValueOk(Disposition(id, ".pdf")) <==> HeaderValueOk(id)
  {
    DispositionValidAppend(id, ".png");
    DispositionValidAppend(id, ".pdf");
  }

  lemma DispositionValidAppend(id: string, ext: string)
    requires HeaderValueOk(ext)
    ensures HeaderValueOk(Disposition(id, ext)) <==> HeaderValueOk(id)
  {
    var h := Disposition(id, ext);
    var n := |DISPOSITION_PREFIX|;
    assert h == DISPOSITION_PREFIX + id + ext + "\"";
    assert forall k :: 0 <= k < |id| ==> h[n + k] == id[k];
    if HeaderValueOk(id) {
      forall k | 0 <= k < |h|
        ensures HeaderChar(h[k])
      {
        if k < n {
          assert h[k] == DISPOSITION_PREFIX[k];
        } else if k < n + |id| {
          assert h[k] == id[k - n];
        } else if k < n + |id| + |ext| {
          assert h[k] == ext[k - n - |id|];
        }
      }
    } else {
      var k :| 0 <= k < |id| && !HeaderChar(id[k]);
      assert h[n + k] == id[k];
    }
  }

  /** GET /:id/download-png?url=… */
  function DownloadPng(id: string, url: Option<string>, libs: Libs): (r: Response)
    ensures !Truthy(url) ==> r == Reply(BAD_REQUEST, UrlRequired)
    ensures r.status == BAD_REQUEST <==> !Truthy(url)
    ensures Truthy(url) && r.status != OK ==> r == Reply(SERVER_ERROR, QrDownloadFailed)
    ensures r.status in {OK, BAD_REQUEST, SERVER_ERROR}
    ensures r.status == OK <==> Truthy(url) && libs.render(url.value).Some? && HeaderValueOk(id)
    ensures r.status == SERVER_ERROR ==> r == Reply(SERVER_ERROR, QrDownloadFailed)
    ensures r.status == OK ==>
              r.body == Attachment("image/png", Disposition(id, ".png"), libs.render(url.value).value)
  {
    if !Truthy(url) then Reply(BAD_REQUEST, UrlRequired)
    else
      match libs.render(url.value)
      case None => Reply(SERVER_ERROR, QrDownloadFailed)
      case Some(png) =>
        DispositionValidIff(id);
        if !HeaderValueOk(Disposition(id, ".png")) then Reply(SERVER_ERROR, QrDownloadFailed)
        else Response(OK, Attachment("image/png", Disposition(id, ".png"), png))
  }

  /* ---------- PDF layout ---------- */

  /** The image at half its pixel size, centred on the 500 x 500 page. */
  function CentredImage(size: PngSize): (p: Placement)
    ensures p.width == size.width as real * IMAGE_SCALE && p.height == size.height as real * IMAGE_SCALE
    ensures p.x == PAGE_SIZE - (p.x + p.width)
    ensures p.y == PAGE_SIZE - (p.y + p.height)
  {
    var w := size.width as real * IMAGE_SCALE;
    var h := size.height as real * IMAGE_SCALE;
    Placement((PAGE_SIZE - w) / 2.0, (PAGE_SIZE - h) / 2.0, w, h)
  }

  predicate OnPage(p: Placement) {
    0.0 <= p.x && p.x + p.width <= PAGE_SIZE && 0.0 <= p.y && p.y + p.height <= PAGE_SIZE
  }

  /** The centred image lies within the page exactly when its scaled sides are at most 500 points. */
  lemma ImageFitsIff(size: PngSize)
    ensures var p := CentredImage(size);
      OnPage(p) <==> p.width <= PAGE_SIZE && p.height <= PAGE_SIZE
    ensures OnPage(CentredImage(size)) <==> size.width <= 1000 && size.height <= 1000
  {
  }

  /** The caption's band, from its baseline up one font size, is below the image exactly when the PNG is at most 752 pixels high. */
  lemma CaptionClearIff(size: PngSize)
    ensures CentredImage(size).y >= CAPTION_Y + FONT_SIZE <==> size.height <= 752
  {
  }

  function Caption(url: string): (s: string)
    ensures |s| == |CAPTION_PREFIX| + |url|
    ensures s[..|CAPTION_PREFIX|] == CAPTION_PREFIX && s[|CAPTION_PREFIX|..] == url
  {
    CAPTION_PREFIX + url
  }

  /** The page for a rendered PNG of the given size. */
  function Page(url: string, png: seq<byte>, size: PngSize): (p: PdfPage)
    ensures p.width == PAGE_SIZE && p.height == PAGE_SIZE && p.png == png
    ensures p.image == CentredImage(size)
    ensures p.caption == CAPTION_PREFIX + url
    ensures p.captionX == CAPTION_X && p.captionY == CAPTION_Y && p.fontSize == FONT_SIZE
  {
    PdfPage(PAGE_SIZE, PAGE_SIZE, CentredImage(size), png, Caption(url), CAPTION_X, CAPTION_Y, FONT_SIZE)
  }

  /** `drawText` encodes every character of the text with the font, and throws on the first it cannot. */
  predicate FontCovers(font: Font, s: string) {
    forall k :: 0 <= k < |s| ==> font.encodes(s[k])
  }

  /** GET /:id/download-pdf?url=… with the caption drawn in `font`. */
  function DownloadPdf(id: string, url: Option<string>, libs: Libs, font: Font): (r: Response)
    ensures !Truthy(url) ==> r == Reply(BAD_REQUEST, UrlRequired)
    ensures r.status == BAD_REQUEST <==> !Truthy(url)
    ensures Truthy(url) && r.status != OK ==> r == Reply(SERVER_ERROR, QrDownloadFailed)
    ensures r.status in {OK, BAD_REQUEST, SERVER_ERROR}
    ensures r.status == SERVER_ERROR ==> r == Reply(SERVER_ERROR, QrDownloadFailed)
    ensures r.status == OK <==>
              && Truthy(url)
              && libs.render(url.value).Some?
              && libs.pngSize(libs.render(url.value).value).Some?
              && FontCovers(font, Caption(url.value))
              && HeaderValueOk(id)
    ensures r.status == OK ==>
              var png := libs.render(url.value).value;
              r.body == Attachment("application/pdf", Disposition(id, ".pdf"),
                                   libs.savePdf(Page(url.value, png, libs.pngSize(png).value)))
  {
    if !Truthy(url) then Reply(BAD_REQUEST, UrlRequired)
    else
      match libs.render(url.value)
      case None => Reply(SERVER_ERROR, QrDownloadFailed)
      case Some(png) =>
        match libs.pngSize(png)
        case None => Reply(SERVER_ERROR, QrDownloadFailed)
        case Some(size) =>
          if !FontCovers(font, Caption(url.value)) then Reply(SERVER_ERROR, QrDownloadFailed)
          else
            DispositionValidIff(id);
            if !HeaderValueOk(Disposition(id, ".pdf")) then Reply(SERVER_ERROR, QrDownloadFailed)
            else Response(OK, Attachment("application/pdf", Disposition(id, ".pdf"),
                                         libs.savePdf(Page(url.value, png, size))))
  }

  /** The download endpoints never look at URL syntax: a string no URL parser accepts is still rendered. */
  lemma DownloadsSkipUrlCheck(id: string, url: string, libs: Libs, font: Font)
    requires url != "" && !libs.parsesAsUrl(url)
    requires libs.render(url).Some? && libs.pngSize(libs.render(url).value).Some?
    requires HeaderValueOk(id) && FontCovers(font, Caption(url))
    ensures GenerateQr(Some(url), libs, 0) == Reply(BAD_REQUEST, EnterValidUrl)
    ensures DownloadPng(id, Some(url), libs).status == OK
    ensures DownloadPdf(id, Some(url), libs, font).status == OK
  {
  }

  /* ---------- the standard font ---------- */

  /**
   * Windows-1252 (WinAnsiEncoding), the only encoding of pdf-lib's default
   * Helvetica: printable ASCII, 0xA0-0xFF, and the 27 characters placed in 0x80-0x9F.
   */
  predicate WinAnsi(c: char) {
    (' ' <= c <= '~') || ('\U{A0}' <= c <= '\U{FF}')
    || c in {'\U{20AC}', '\U{201A}', '\U{0192}', '\U{201E}', '\U{2026}', '\U{2020}', '\U{2021}',
             '\U{02C6}', '\U{2030}', '\U{0160}', '\U{2039}', '\U{0152}', '\U{017D}', '\U{2018}',
             '\U{2019}', '\U{201C}', '\U{201D}', '\U{2022}', '\U{2013}', '\U{2014}', '\U{02DC}',
             '\U{2122}', '\U{0161}', '\U{203A}', '\U{0153}', '\U{017E}', '\U{0178}'}
  }

  const HELVETICA: Font := Font(WinAnsi)

  /** No caption can be drawn in Helvetica: its first letter, U+0627, is outside WinAnsi. */
  lemma CaptionNotWinAnsi(url: string)
    ensures !FontCovers(HELVETICA, Caption(url))
  {
    assert Caption(url)[0] == '\U{0627}';
    assert !WinAnsi('\U{0627}');
  }

  /** The handler as written: no font is embedded, so the caption is drawn in the default Helvetica and no PDF is ever delivered. */
  function DownloadPdfAsWritten(id: string, url: Option<string>, libs: Libs): (r: Response)
    ensures r.status != OK
  {
    if Truthy(url) then
      CaptionNotWinAnsi(url.value);
      DownloadPdf(id, url, libs, HELVETICA)
    else DownloadPdf(id, url, libs, HELVETICA)
  }

  /**
   * The caption starts with an Arabic letter, which WinAnsi cannot encode:
   * as written, every request that passes the URL check ends in 500.
   */
  lemma AsWrittenPdfAlwaysFails(id: string, url: Option<string>, libs: Libs)
    ensures DownloadPdfAsWritten(id, url, libs) ==
              if Truthy(url) then Reply(SERVER_ERROR, QrDownloadFailed) else Reply(BAD_REQUEST, UrlRequired)
  {
  }

  /**
   * With a font that encodes the caption, a renderable URL yields the PDF:
   * one 500 x 500 page, the image centred with equal margins, and the URL
   * printed verbatim after the prefix at (50, 50) in size 12.
   */
  lemma DownloadPdfDelivers(id: string, url: string, libs: Libs, font: Font)
    requires url != "" && HeaderValueOk(id)
    requires libs.render(url).Some? && libs.pngSize(libs.render(url).value).Some?
    requires FontCovers(font, CAPTION_PREFIX) && FontCovers(font, url)
    ensures var r := DownloadPdf(id, Some(url), libs, font);
      && r.status == OK
      && exists page: PdfPage ::
           && r.body == Attachment("application/pdf", Disposition(id, ".pdf"), libs.savePdf(page))
           && page.png == libs.render(url).value
           && page.image.x == PAGE_SIZE - (page.image.x + page.image.width)
           && page.image.y == PAGE_SIZE - (page.image.y + page.image.height)
           && page.caption == CAPTION_PREFIX + url
  {
    var c := Caption(url);
    forall k | 0 <= k < |c|
      ensures font.encodes(c[k])
    {
      if k < |CAPTION_PREFIX| {
        assert c[k] == CAPTION_PREFIX[k];
      } else {
        assert c[k] == url[k - |CAPTION_PREFIX|];
      }
    }
    var png := libs.render(url).value;
    var page := Page(url, png, libs.pngSize(png).value);
    assert DownloadPdf(id, Some(url), libs, font).body
           == Attachment("application/pdf", Disposition(id, ".pdf"), libs.savePdf(page));
  }
}
