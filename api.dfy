/** The HTTP front end: `POST /ocr` and `GET /ocr-demo`. Routing and JSON
    encoding are left to the web framework; a handler is a function from
    the request and the outcomes of its foreign calls to a status and a
    body. */
module Api {
  import opened Wrappers
  import opened Engine
  import BotOcr

  /** The JSON bodies the handlers return. */
  datatype ApiBody =
    | OcrBody(results: seq<OcrLine>, text: string)   // {"success": true, "results", "text"}
    | DemoBody(image: string, entries: seq<DemoLine>, fullText: string)
                                                     // {"success": true, "image", "results", "full_text"}
    | ErrorBody(error: string)                       // {"error": ...}

  /** A demo entry: text and confidence, no box. */
  datatype DemoLine = DemoLine(text: string, confidence: real)

  datatype ApiResponse = ApiResponse(status: int, body: ApiBody)

  /** Decoding the base64 payload, opening it as an image and saving it
      to the temporary path: done, or the message of what raised. */
  datatype Upload = Saved | UploadFailed(message: string)

  /** One request: the response, the path given to the engine if it was
      called, and the files the handler created and removed. */
  datatype ApiRun = ApiRun(response: ApiResponse, ocrInput: Option<string>, created: set<string>, removed: set<string>)

  const TempImagePath := "/tmp/temp_image.png"
  const DemoImage := "test_image.png"

  // ---------------------------------------------------------------------
  // Reading the engine's lines
  // ---------------------------------------------------------------------

  /** The handlers' reading of the engine's lines: no entry is skipped, so
      every entry must be `[bbox, (text, confidence)]`; the first that is
      not raises, and its message is returned. */
  function ApiLines(lines: seq<RawLine>): (r: Result<seq<OcrLine>, string>)
    ensures r.Ok? <==> forall i :: 0 <= i < |lines| ==> lines[i].Full?
    ensures r.Ok? ==> |r.value| == |lines| && forall i :: 0 <= i < |lines| ==> r.value[i] == ToOcrLine(lines[i])
    ensures r.Err? ==> exists i :: (0 <= i < |lines| && LineFault(lines[i]) == Some(r.error)
                                     && forall j :: 0 <= j < i ==> lines[j].Full?)
    decreases |lines|
  {
    if lines == [] then Ok([])
    else
      var tail := lines[1..];
      assert forall i :: 1 <= i < |lines| ==> lines[i] == tail[i - 1];
      match LineFault(lines[0])
      case Some(f) => Err(f)
      case None =>
        match ApiLines(tail)
        case Err(f) =>
          ghost var i :| 0 <= i < |tail| && LineFault(tail[i]) == Some(f) && forall j :: 0 <= j < i ==> tail[j].Full?;
          assert LineFault(lines[i + 1]) == Some(f);
          Err(f)
        case Ok(rest) => Ok([ToOcrLine(lines[0])] + rest)
  }

  /** On well-shaped output the two front ends read the same records; an
      entry the bot skips (falsy or shorter than two) makes the HTTP
      handlers fail instead. */
  lemma {:induction false} BotAndApiAgree(lines: seq<RawLine>)
    ensures (forall i :: 0 <= i < |lines| ==> lines[i].Full?) ==> BotOcr.BotLines(lines) == ApiLines(lines)
    ensures (exists i :: 0 <= i < |lines| && (lines[i].NoneLine? || lines[i].EmptyLine? || lines[i].Short?))
      ==> ApiLines(lines).Err?
    decreases |lines|
  {
    if lines != [] {
      BotAndApiAgree(lines[1..]);
      assert forall i :: 1 <= i < |lines| ==> lines[i] == lines[1..][i - 1];
    }
  }

  /** Lines 68-85 of `perform_ocr`: the response for the engine's answer. */
  function Respond(call: EngineCall): (resp: ApiResponse)
    ensures resp.status == 200 || resp.status == 500
    ensures resp.status == 200 <==> resp.body.OcrBody?
    ensures resp.status == 500 <==> resp.body.ErrorBody?
    ensures call.Raised? ==> resp == ApiResponse(500, ErrorBody(call.message))
    ensures resp.body.OcrBody? <==> call.Returned? && ApiLines(FirstPage(call.output)).Ok?
    ensures resp.body.OcrBody? ==> resp.body.results == ApiLines(FirstPage(call.output)).value
    ensures resp.body.OcrBody? ==> resp.body.text == FullText(resp.body.results)
    ensures call.Returned? && ApiLines(FirstPage(call.output)).Err? ==>
      resp == ApiResponse(500, ErrorBody(ApiLines(FirstPage(call.output)).error))
  {
    match call
    case Raised(m) => ApiResponse(500, ErrorBody(m))
    case Returned(out) =>
      match ApiLines(FirstPage(out))
      case Err(f) => ApiResponse(500, ErrorBody(f))
      case Ok(rs) => ApiResponse(200, OcrBody(rs, FullText(rs)))
  }

  // ---------------------------------------------------------------------
  // POST /ocr
  // ---------------------------------------------------------------------

  /** `perform_ocr`. `data` is the JSON object of the request, `existing`
      the paths `os.path.exists` accepts, `upload` the outcome of
      materialising a base64 payload, `engine` the engine's answer for the
      image the request names. `image_path` is tried first, then
      `image_base64`; the temporary upload is removed only after the engine
      returns. */
  function PerformOcr(data: map<string, string>, existing: set<string>, upload: string -> Upload, engine: EngineCall): (run: ApiRun)
    ensures run.response.status in {200, 400, 404, 500}
    ensures run.response.status == 200 <==> run.response.body.OcrBody?
    ensures run.response.status != 200 ==> run.response.body.ErrorBody?
    ensures run.ocrInput.None? <==> run.response.status in {400, 404} || ("image_path" !in data && "image_base64" in data && upload(data["image_base64"]).UploadFailed?)
    ensures run.removed <= run.created
    ensures run.created - run.removed != {} ==> engine.Raised? && run.response.status == 500
    ensures run.ocrInput.Some? ==> run.response == Respond(engine)
    ensures "image_path" in data ==> run.created == {} && run.removed == {}
    ensures "image_path" !in data && "image_base64" in data && upload(data["image_base64"]).Saved? ==>
      run.removed == if engine.Returned? then {TempImagePath} else {}
    ensures "image_path" in data && data["image_path"] in existing ==> run.ocrInput == Some(data["image_path"])
    ensures "image_path" !in data && "image_base64" in data && upload(data["image_base64"]).Saved? ==>
      run.ocrInput == Some(TempImagePath) && run.created == {TempImagePath}
    ensures "image_path" !in data && "image_base64" in data && upload(data["image_base64"]).UploadFailed? ==>
      run.response == ApiResponse(500, ErrorBody(upload(data["image_base64"]).message))
  {
    if "image_path" in data then
      var path := data["image_path"];
      if path !in existing then ApiRun(ApiResponse(404, ErrorBody("Image file not found")), None, {}, {})
      else ApiRun(Respond(engine), Some(path), {}, {})
    else if "image_base64" in data then
      match upload(data["image_base64"])
      case UploadFailed(m) => ApiRun(ApiResponse(500, ErrorBody(m)), None, {}, {})
      case Saved =>
        ApiRun(Respond(engine), Some(TempImagePath), {TempImagePath},
               if engine.Returned? then {TempImagePath} else {})
    else ApiRun(ApiResponse(400, ErrorBody("No image provided")), None, {}, {})
  }

  /** With both keys present the path wins: the payload is ignored. */
  lemma PathTakesPrecedence(data: map<string, string>, existing: set<string>, upload: string -> Upload, engine: EngineCall)
    requires "image_path" in data
    ensures PerformOcr(data, existing, upload, engine) == PerformOcr(data - {"image_base64"}, existing, upload, engine)
  {
    assert (data - {"image_base64"})["image_path"] == data["image_path"];
  }

  /** Neither key: 400 "No image provided", and nothing else happens. */
  lemma NoImageIs400(data: map<string, string>, existing: set<string>, upload: string -> Upload, engine: EngineCall)
    requires "image_path" !in data && "image_base64" !in data
    ensures PerformOcr(data, existing, upload, engine) == ApiRun(ApiResponse(400, ErrorBody("No image provided")), None, {}, {})
  {
  }

  /** A path that does not exist: 404 "Image file not found", the engine
      is not called, and its answer cannot matter. */
  lemma MissingPathIs404(data: map<string, string>, existing: set<string>, upload: string -> Upload, e1: EngineCall, e2: EngineCall)
    requires "image_path" in data && data["image_path"] !in existing
    ensures PerformOcr(data, existing, upload, e1).response == ApiResponse(404, ErrorBody("Image file not found"))
    ensures PerformOcr(data, existing, upload, e1).ocrInput.None?
    ensures PerformOcr(data, existing, upload, e1) == PerformOcr(data, existing, upload, e2)
  {
  }

  /** An engine exception, once the engine is called, is answered with
      500 and its message and goes no further. */
  lemma EngineFaultIs500(data: map<string, string>, existing: set<string>, upload: string -> Upload, message: string)
    requires PerformOcr(data, existing, upload, Raised(message)).ocrInput.Some?
    ensures PerformOcr(data, existing, upload, Raised(message)).response == ApiResponse(500, ErrorBody(message))
  {
  }

  /** A request whose lines are all well-shaped succeeds with one record
      per engine line, in order, and their single-space joined text. */
  lemma WellShapedRequestSucceeds(data: map<string, string>, existing: set<string>, upload: string -> Upload, out: EngineOutput)
    requires PerformOcr(data, existing, upload, Returned(out)).ocrInput.Some?
    requires forall i :: 0 <= i < |FirstPage(out)| ==> FirstPage(out)[i].Full?
    ensures var resp := PerformOcr(data, existing, upload, Returned(out)).response;
      resp.status == 200 && |resp.body.results| == |FirstPage(out)|
      && (forall i :: 0 <= i < |FirstPage(out)| ==> resp.body.results[i].text == FirstPage(out)[i].text)
      && resp.body.text == FullText(resp.body.results)
  {
  }

  // ---------------------------------------------------------------------
  // GET /ocr-demo
  // ---------------------------------------------------------------------

  /** The demo entries: the records without their boxes. */
  function DemoLines(lines: seq<OcrLine>): (d: seq<DemoLine>)
    ensures |d| == |lines|
    ensures forall i :: 0 <= i < |lines| ==> d[i].text == lines[i].text && d[i].confidence == lines[i].confidence
  {
    seq(|lines|, i requires 0 <= i < |lines| => DemoLine(lines[i].text, lines[i].confidence))
  }

  /** `ocr_demo`: OCR of the bundled `test_image.png`, reported under the
      `full_text` key and without boxes. */
  function OcrDemo(existing: set<string>, engine: EngineCall): (resp: ApiResponse)
    ensures resp.status == 404 <==> DemoImage !in existing
    ensures resp.status in {200, 404, 500}
    ensures resp.status == 200 <==> resp.body.DemoBody?
    ensures resp.body.DemoBody? ==> resp.body.image == DemoImage
  {
    if DemoImage !in existing then ApiResponse(404, ErrorBody("test_image.png not found in repo"))
    else match engine
      case Raised(m) => ApiResponse(500, ErrorBody(m))
      case Returned(out) =>
        match ApiLines(FirstPage(out))
        case Err(f) => ApiResponse(500, ErrorBody(f))
        case Ok(rs) => ApiResponse(200, DemoBody(DemoImage, DemoLines(rs), FullText(rs)))
  }

  /** The demo reports what `/ocr` reports for the same image: the same
      status, the same texts and confidences, and `full_text` equal to
      `text`. */
  lemma DemoAgreesWithOcr(existing: set<string>, upload: string -> Upload, engine: EngineCall)
    requires DemoImage in existing
    ensures var demo := OcrDemo(existing, engine);
      var ocr := PerformOcr(map["image_path" := DemoImage], existing, upload, engine).response;
      demo.status == ocr.status
      && (demo.status == 200 ==>
            demo.body.fullText == ocr.body.text
            && |demo.body.entries| == |ocr.body.results|
            && forall i :: 0 <= i < |ocr.body.results| ==>
                 (demo.body.entries[i].text == ocr.body.results[i].text
                  && demo.body.entries[i].confidence == ocr.body.results[i].confidence))
      && (demo.status == 500 ==> demo.body == ocr.body)
  {
  }
}
