/** The chat bot's `runocr` command: which image it reads, and how the
    OCR response is shown. */
module BotCommand {
  import opened Wrappers
  import opened Engine
  import Text
  import Crop
  import BotOcr

  // ---------------------------------------------------------------------
  // The image allow-list
  // ---------------------------------------------------------------------

  const ImageExtensions: seq<string> := [".png", ".jpg", ".jpeg", ".gif", ".webp"]

  /** `any(name.lower().endswith(ext) for ext in [...])`. */
  predicate IsImageName(name: string)
  {
    exists i | 0 <= i < |ImageExtensions| :: Text.EndsWith(Text.Lower(name), ImageExtensions[i])
  }

  lemma EndsWithExtension(s: string, ext: string)
    requires ext != [] && ext[0] == '.' && '.' !in ext[1..]
    ensures Text.EndsWith(s, ext) <==> Text.ExtensionOf(s) == Some(ext[1..])
  {
    assert ext == ['.'] + ext[1..];
    Text.EndsWithDotIff(s, ext[1..]);
  }

  /** A name is accepted exactly when the text after its last dot,
      lower-cased, is one of the five image extensions. */
  lemma IsImageNameIff(name: string)
    ensures IsImageName(name) <==>
      var ext := Text.ExtensionOf(Text.Lower(name));
      ext.Some? && ext.value in ["png", "jpg", "jpeg", "gif", "webp"]
  {
    var s := Text.Lower(name);
    var exts := ImageExtensions;
    assert IsImageName(name) <==>
      Text.EndsWith(s, exts[0]) || Text.EndsWith(s, exts[1]) || Text.EndsWith(s, exts[2])
      || Text.EndsWith(s, exts[3]) || Text.EndsWith(s, exts[4]);
    assert exts[0][1..] == "png" && exts[1][1..] == "jpg" && exts[2][1..] == "jpeg";
    assert exts[3][1..] == "gif" && exts[4][1..] == "webp";
    EndsWithExtension(s, exts[0]);
    EndsWithExtension(s, exts[1]);
    EndsWithExtension(s, exts[2]);
    EndsWithExtension(s, exts[3]);
    EndsWithExtension(s, exts[4]);
  }

  /** The check ignores case: a name and its lower-cased form agree. */
  lemma IsImageNameIgnoresCase(name: string)
    ensures IsImageName(Text.Lower(name)) <==> IsImageName(name)
  {
    Text.LowerIdempotent(name);
  }

  // ---------------------------------------------------------------------
  // find_recent_image
  // ---------------------------------------------------------------------

  datatype Attachment = Attachment(filename: string, url: string)

  /** An embed's image and thumbnail URLs; `None` when the embed has none. */
  datatype Embed = Embed(image: Option<string>, thumbnail: Option<string>)

  datatype Message = Message(attachments: seq<Attachment>, embeds: seq<Embed>)

  /** An image to read: its URL and the source label shown with the result. */
  datatype Found = Found(url: string, source: string)

  /** The first element on which `f` answers, and that answer. */
  function FirstSome<T, U>(xs: seq<T>, f: T -> Option<U>): Option<U>
  {
    if xs == [] then None
    else if f(xs[0]).Some? then f(xs[0])
    else FirstSome(xs[1..], f)
  }

  /** Scanning past elements on which `f` has no answer. */
  lemma {:induction false} FirstSomeSkip<T, U>(xs: seq<T>, f: T -> Option<U>, i: nat)
    requires i <= |xs|
    requires forall j :: 0 <= j < i ==> f(xs[j]).None?
    ensures FirstSome(xs, f) == FirstSome(xs[i..], f)
    decreases i
  {
    if i > 0 {
      FirstSomeSkip(xs, f, i - 1);
      assert xs[i - 1..][1..] == xs[i..];
    }
  }

  /** The scan answers with the first answer in order, and with nothing
      exactly when no element has one. */
  lemma {:induction false} FirstSomeSpec<T, U>(xs: seq<T>, f: T -> Option<U>)
    ensures FirstSome(xs, f).None? <==> forall i :: 0 <= i < |xs| ==> f(xs[i]).None?
    ensures FirstSome(xs, f).Some? ==>
      exists i :: 0 <= i < |xs| && f(xs[i]) == FirstSome(xs, f) && forall j :: 0 <= j < i ==> f(xs[j]).None?
    decreases |xs|
  {
    if xs != [] {
      FirstSomeSpec(xs[1..], f);
      assert forall i :: 1 <= i < |xs| ==> xs[i] == xs[1..][i - 1];
      if f(xs[0]).None? && FirstSome(xs, f).Some? {
        var i :| 0 <= i < |xs[1..]| && f(xs[1..][i]) == FirstSome(xs[1..], f)
          && forall j :: 0 <= j < i ==> f(xs[1..][j]).None?;
        assert f(xs[i + 1]) == FirstSome(xs, f);
      }
    }
  }

  /** A truthy URL: present and non-empty. */
  predicate HasUrl(url: Option<string>)
  {
    url.Some? && url.value != ""
  }

  function AttachmentHit(a: Attachment): Option<Found>
  {
    if IsImageName(a.filename) then Some(Found(a.url, "attachment: " + a.filename)) else None
  }

  /** An embed's image is preferred to its thumbnail. */
  function EmbedHit(e: Embed): Option<Found>
  {
    if HasUrl(e.image) then Some(Found(e.image.value, "embed image"))
    else if HasUrl(e.thumbnail) then Some(Found(e.thumbnail.value, "embed thumbnail"))
    else None
  }

  /** Attachments are checked before embeds. */
  function MessageHit(m: Message): Option<Found>
  {
    match FirstSome(m.attachments, AttachmentHit)
    case Some(f) => Some(f)
    case None => FirstSome(m.embeds, EmbedHit)
  }

  /** How many recent messages the scan reads. */
  const HistoryLimit := 50

  /** `channel.history(limit=50)`, newest first. */
  function RecentMessages(history: seq<Message>): (recent: seq<Message>)
    ensures |recent| <= HistoryLimit && |recent| <= |history|
    ensures recent == history[..|recent|]
    ensures |history| <= HistoryLimit ==> recent == history
    ensures |history| > HistoryLimit ==> |recent| == HistoryLimit
  {
    if |history| <= HistoryLimit then history else history[..HistoryLimit]
  }

  /** What `find_recent_image` answers. `history` is `None` when reading
      the channel history raised, which the function turns into
      `(None, None)`. */
  function FirstRecentImage(history: Option<seq<Message>>): Option<Found>
  {
    match history
    case None => None
    case Some(ms) => FirstSome(RecentMessages(ms), MessageHit)
  }

  /** The first image among the recent messages, in message order; `None`
      exactly when none of them carries one. */
  lemma FirstRecentImageSpec(ms: seq<Message>)
    ensures var recent := RecentMessages(ms);
      FirstRecentImage(Some(ms)).None? <==> forall i :: 0 <= i < |recent| ==> MessageHit(recent[i]).None?
    ensures var recent := RecentMessages(ms);
      FirstRecentImage(Some(ms)).Some? ==>
        exists i :: 0 <= i < |recent| && MessageHit(recent[i]) == FirstRecentImage(Some(ms))
          && forall j :: 0 <= j < i ==> MessageHit(recent[j]).None?
  {
    FirstSomeSpec(RecentMessages(ms), MessageHit);
  }

  /** In one message, an image attachment wins over every embed, and the
      first such attachment is the one reported. */
  lemma AttachmentsBeforeEmbeds(m: Message, k: nat)
    requires k < |m.attachments| && IsImageName(m.attachments[k].filename)
    requires forall j :: 0 <= j < k ==> !IsImageName(m.attachments[j].filename)
    ensures MessageHit(m) == Some(Found(m.attachments[k].url, "attachment: " + m.attachments[k].filename))
  {
    FirstSomeSkip(m.attachments, AttachmentHit, k);
  }

  /** `find_recent_image`: the nested loops over messages, attachments and
      embeds, returning at the first image. */
  method FindRecentImage(history: Option<seq<Message>>) returns (found: Option<Found>)
    ensures found == FirstRecentImage(history)
  {
    if history.None? {
      return None;
    }
    var recent := RecentMessages(history.value);
    for i := 0 to |recent|
      invariant forall j :: 0 <= j < i ==> MessageHit(recent[j]).None?
    {
      var m := recent[i];
      for a := 0 to |m.attachments|
        invariant forall j :: 0 <= j < a ==> AttachmentHit(m.attachments[j]).None?
      {
        var att := m.attachments[a];
        if IsImageName(att.filename) {
          FirstSomeSkip(m.attachments, AttachmentHit, a);
          FirstSomeSkip(recent, MessageHit, i);
          return Some(Found(att.url, "attachment: " + att.filename));
        }
      }
      FirstSomeSkip(m.attachments, AttachmentHit, |m.attachments|);
      for e := 0 to |m.embeds|
        invariant forall j :: 0 <= j < e ==> EmbedHit(m.embeds[j]).None?
      {
        var embed := m.embeds[e];
        if HasUrl(embed.image) {
          FirstSomeSkip(m.embeds, EmbedHit, e);
          FirstSomeSkip(recent, MessageHit, i);
          return Some(Found(embed.image.value, "embed image"));
        }
        if HasUrl(embed.thumbnail) {
          FirstSomeSkip(m.embeds, EmbedHit, e);
          FirstSomeSkip(recent, MessageHit, i);
          return Some(Found(embed.thumbnail.value, "embed thumbnail"));
        }
      }
      FirstSomeSkip(m.embeds, EmbedHit, |m.embeds|);
    }
    FirstSomeSkip(recent, MessageHit, |recent|);
    return None;
  }

  // ---------------------------------------------------------------------
  // Display
  // ---------------------------------------------------------------------

  const DisplayLimit := 4000
  const TruncationMarker := "...\n*(text truncated)*"

  /** The text shown in the result embed: unchanged up to 4000
      characters, else its first 4000 followed by the marker. */
  function TruncateForDisplay(s: string): (r: string)
    ensures |s| <= DisplayLimit ==> r == s
    ensures |r| <= DisplayLimit + |TruncationMarker|
    ensures |s| > DisplayLimit ==> |r| == DisplayLimit + |TruncationMarker|
    ensures |s| > DisplayLimit ==> r[..DisplayLimit] == s[..DisplayLimit] && Text.EndsWith(r, TruncationMarker)
    ensures r == s <==> |s| <= DisplayLimit || s[DisplayLimit..] == TruncationMarker
  {
    if |s| > DisplayLimit then
      var r := s[..DisplayLimit] + TruncationMarker;
      assert r[..DisplayLimit] == s[..DisplayLimit];
      assert r[DisplayLimit..] == TruncationMarker;
      assert r == s ==> s[DisplayLimit..] == TruncationMarker;
      assert s[DisplayLimit..] == TruncationMarker ==> s == s[..DisplayLimit] + s[DisplayLimit..];
      r
    else s
  }

  /** Truncating what was already truncated changes nothing. */
  lemma TruncateIdempotent(s: string)
    ensures TruncateForDisplay(TruncateForDisplay(s)) == TruncateForDisplay(s)
  {
    var r := TruncateForDisplay(s);
    if |s| > DisplayLimit {
      assert r[DisplayLimit..] == TruncationMarker;
    }
  }

  /** The stats field: line count and mean confidence. */
  datatype Stats = Stats(lineCount: nat, averageConfidence: real)

  function SumConfidence(lines: seq<OcrLine>): real
  {
    if lines == [] then 0.0 else lines[0].confidence + SumConfidence(lines[1..])
  }

  /** The stats field, present only when there is at least one line, so
      the mean never divides by zero. */
  function StatsBlock(lines: seq<OcrLine>): (st: Option<Stats>)
    ensures st.Some? <==> lines != []
    ensures st.Some? ==> st.value.lineCount == |lines|
  {
    if lines == [] then None
    else Some(Stats(|lines|, SumConfidence(lines) / (|lines| as real)))
  }

  lemma {:induction false} SumConfidenceBounds(lines: seq<OcrLine>, lo: real, hi: real)
    requires forall i :: 0 <= i < |lines| ==> lo <= lines[i].confidence <= hi
    ensures (|lines| as real) * lo <= SumConfidence(lines) <= (|lines| as real) * hi
    decreases |lines|
  {
    if lines != [] {
      assert forall i :: 1 <= i < |lines| ==> lines[i] == lines[1..][i - 1];
      SumConfidenceBounds(lines[1..], lo, hi);
      assert (|lines| as real) * lo == lo + (|lines[1..]| as real) * lo;
      assert (|lines| as real) * hi == hi + (|lines[1..]| as real) * hi;
    }
  }

  /** The mean lies between the smallest and the largest confidence. */
  lemma AverageWithinBounds(lines: seq<OcrLine>, lo: real, hi: real)
    requires lines != []
    requires forall i :: 0 <= i < |lines| ==> lo <= lines[i].confidence <= hi
    ensures lo <= StatsBlock(lines).value.averageConfidence <= hi
  {
    SumConfidenceBounds(lines, lo, hi);
    var n := |lines| as real;
    var sum := SumConfidence(lines);
    assert sum / n >= lo by { assert sum >= n * lo; }
    assert sum / n <= hi by { assert sum <= n * hi; }
  }

  /** Two lines with confidences 0.9 and 0.5 average 0.7. */
  lemma AverageExample(b: seq<Point>)
    ensures StatsBlock([OcrLine("a", 0.9, b), OcrLine("b", 0.5, b)]) == Some(Stats(2, 0.7))
  {
    var lines := [OcrLine("a", 0.9, b), OcrLine("b", 0.5, b)];
    assert lines[1..][1..] == [];
    assert SumConfidence(lines[1..]) == 0.5 + SumConfidence([]);
    assert SumConfidence(lines) == 1.4;
  }

  // ---------------------------------------------------------------------
  // runocr
  // ---------------------------------------------------------------------

  /** The message the command sends. */
  datatype Reply =
    | NotAnImage                     // "Please upload an image file (PNG, JPG, JPEG, GIF, or WebP)"
    | NoRecentImage                  // "No recent images found in this channel (checked last 50 messages)..."
    | DownloadFailed(error: string)  // "Failed to download image: ..."
    | OcrFailed(error: string)       // "OCR failed: ..."
    | NoTextDetected                 // "OCR completed, but no text was detected in the image."
    | Results(source: string, shownText: string, stats: Option<Stats>)

  /** The outcome of downloading a URL into a temporary file. */
  datatype Download = Downloaded(tempPath: string) | DownloadError(message: string)

  /** One run of the command: the reply, the files it created and removed. */
  datatype CommandRun = CommandRun(reply: Reply, created: set<string>, removed: set<string>)

  /** Lines 216-250: the reply for an OCR response. */
  function Present(source: string, resp: BotOcr.OcrResponse): (reply: Reply)
    ensures resp.OcrFailed? ==> reply == OcrFailed(resp.error)
    ensures reply.NoTextDetected? <==> resp.OcrSucceeded? && Text.AllSpace(resp.text)
    ensures reply.Results? ==> reply.source == source && reply.shownText == TruncateForDisplay(resp.text)
    ensures reply.Results? ==> reply.stats == StatsBlock(resp.results)
    ensures resp.OcrSucceeded? && !Text.AllSpace(resp.text) ==>
      reply == Results(source, TruncateForDisplay(resp.text), StatsBlock(resp.results))
  {
    match resp
    case OcrFailed(e) => OcrFailed(e)
    case OcrSucceeded(rs, text) =>
      Text.StripEmptyIff(text);
      if Text.Strip(text) == "" then NoTextDetected
      else Results(source, TruncateForDisplay(text), StatsBlock(rs))
  }

  /** The image the command reads: the attachment if one is given and it
      has an image name, else the first recent image. */
  function ChooseImage(attachment: Option<Attachment>, history: Option<seq<Message>>): Option<Found>
  {
    match attachment
    case Some(a) => AttachmentHit(a)
    case None =>
      match FirstRecentImage(history)
      case Some(f) => if f.url == "" then None else Some(f)
      case None => None
  }

  /** `runocr`. The attachment's own URL is used as it is; a URL found in
      the history must be truthy. The downloaded file is removed in all
      cases, and the OCR step removes its cropped copy. */
  function RunOcr(attachment: Option<Attachment>, history: Option<seq<Message>>, download: string -> Download,
                  image: Option<Crop.ImageSize>, saved: bool, engine: EngineCall): (run: CommandRun)
    ensures run.reply.NotAnImage? <==> attachment.Some? && !IsImageName(attachment.value.filename)
    ensures run.reply.NoRecentImage? <==> attachment.None? && ChooseImage(attachment, history).None?
    ensures ChooseImage(attachment, history).None? ==> run.created == {} && run.removed == {}
    ensures run.reply.DownloadFailed? ==> run.created == {} && run.removed == {}
    ensures run.removed == run.created
    ensures var c := ChooseImage(attachment, history);
      c.Some? && download(c.value.url).DownloadError? ==>
        run.reply == DownloadFailed(download(c.value.url).message)
    ensures var c := ChooseImage(attachment, history);
      c.Some? && download(c.value.url).Downloaded? ==>
        var temp := download(c.value.url).tempPath;
        var file := BotOcr.PerformOcrOnFile(temp, image, saved, engine);
        run.reply == Present(c.value.source, file.response) && run.created == file.created + {temp}
  {
    match ChooseImage(attachment, history)
    case None => CommandRun(if attachment.Some? then NotAnImage else NoRecentImage, {}, {})
    case Some(f) =>
      match download(f.url)
      case DownloadError(m) => CommandRun(DownloadFailed(m), {}, {})
      case Downloaded(temp) =>
        var file := BotOcr.PerformOcrOnFile(temp, image, saved, engine);
        CommandRun(Present(f.source, file.response), file.created + {temp}, file.removed + {temp})
  }

  /** A given attachment decides the image: the channel history is never
      consulted. */
  lemma AttachmentIgnoresHistory(a: Attachment, h1: Option<seq<Message>>, h2: Option<seq<Message>>,
                                 download: string -> Download, image: Option<Crop.ImageSize>, saved: bool, engine: EngineCall)
    ensures RunOcr(Some(a), h1, download, image, saved, engine) == RunOcr(Some(a), h2, download, image, saved, engine)
  {
  }

  /** "No text detected" is reported exactly when the OCR step succeeds and
      every recognised line is blank; a shown result therefore always has
      at least one line, and so always carries its stats. */
  lemma NoTextIffBlankLines(source: string, call: EngineCall)
    ensures var resp := BotOcr.Recognise(call);
      Present(source, resp).NoTextDetected? <==>
        resp.OcrSucceeded? && forall i :: 0 <= i < |resp.results| ==> Text.AllSpace(resp.results[i].text)
    ensures Present(source, BotOcr.Recognise(call)).Results? ==> Present(source, BotOcr.Recognise(call)).stats.Some?
  {
    var resp := BotOcr.Recognise(call);
    if resp.OcrSucceeded? {
      FullTextBlankIff(resp.results);
      Text.StripEmptyIff(resp.text);
      if resp.results == [] {
        assert resp.text == "";
      }
    }
  }
}
