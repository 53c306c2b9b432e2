/** `perform_ocr_on_file` of the chat bot: crop, one engine call, the
    line filter, the full text, and removal of the cropped copy. */
module BotOcr {
  import opened Wrappers
  import opened Engine
  import Crop
  import Text

  // ---------------------------------------------------------------------
  // The line filter
  // ---------------------------------------------------------------------

  /** The bot's reading of the engine's lines: falsy entries and entries
      shorter than two are skipped, well-shaped ones become records in
      order, and the first entry whose `line[1]` cannot be read aborts
      with that exception's message. */
  function BotLines(lines: seq<RawLine>): Result<seq<OcrLine>, string>
    decreases |lines|
  {
    if lines == [] then Ok([])
    else match lines[0]
      case Malformed(f) => Err(f)
      case Full(_, _, _) =>
        (match BotLines(lines[1..])
         case Ok(rest) => Ok([ToOcrLine(lines[0])] + rest)
         case Err(f) => Err(f))
      case _ => BotLines(lines[1..])
  }

  /** Reading a prefix, then the rest: the first failure wins, otherwise
      the records are concatenated. */
  function Then(first: Result<seq<OcrLine>, string>, second: Result<seq<OcrLine>, string>): Result<seq<OcrLine>, string>
  {
    match first
    case Err(f) => Err(f)
    case Ok(a) => match second
      case Err(f) => Err(f)
      case Ok(b) => Ok(a + b)
  }

  /** The filter works entry by entry in engine order: reading `a + b`
      is reading `a` and then `b`. */
  lemma {:induction false} BotLinesAppend(a: seq<RawLine>, b: seq<RawLine>)
    ensures BotLines(a + b) == Then(BotLines(a), BotLines(b))
    decreases |a|
  {
    if a == [] {
      assert a + b == b;
      match BotLines(b)
      case Err(_) =>
      case Ok(rb) => assert [] + rb == rb;
    } else {
      assert (a + b)[0] == a[0] && (a + b)[1..] == a[1..] + b;
      BotLinesAppend(a[1..], b);
      if a[0].Full? {
        match BotLines(a[1..])
        case Err(_) =>
        case Ok(ra) =>
          match BotLines(b)
          case Err(_) =>
          case Ok(rb) => assert [ToOcrLine(a[0])] + (ra + rb) == ([ToOcrLine(a[0])] + ra) + rb;
      }
    }
  }

  /** The records of the well-shaped entries, in engine order, built from
      the last entry backwards: an independent statement of what the
      filter keeps. */
  function FullRecords(lines: seq<RawLine>): seq<OcrLine>
    decreases |lines|
  {
    if lines == [] then []
    else
      var last := lines[|lines| - 1];
      FullRecords(lines[..|lines| - 1]) + (if last.Full? then [ToOcrLine(last)] else [])
  }

  /** When the filter succeeds it keeps exactly the well-shaped entries'
      records, in order and with their multiplicity. */
  lemma {:induction false} BotLinesKeepsFullRecords(lines: seq<RawLine>)
    requires BotLines(lines).Ok?
    ensures BotLines(lines).value == FullRecords(lines)
    decreases |lines|
  {
    if lines != [] {
      var init, last := lines[..|lines| - 1], lines[|lines| - 1];
      assert lines == init + [last];
      BotLinesAppend(init, [last]);
      assert [last][1..] == [];
      BotLinesKeepsFullRecords(init);
    }
  }

  /** Number of well-shaped entries. */
  function CountFull(lines: seq<RawLine>): nat
  {
    if lines == [] then 0 else (if lines[0].Full? then 1 else 0) + CountFull(lines[1..])
  }

  /** The filter fails exactly when some entry is malformed, and then with
      the first malformed entry's message; otherwise it keeps one record
      per well-shaped entry and nothing else. */
  lemma {:induction false} BotLinesSpec(lines: seq<RawLine>)
    ensures BotLines(lines).Ok? <==> forall i :: 0 <= i < |lines| ==> !lines[i].Malformed?
    ensures BotLines(lines).Err? ==>
      exists i :: 0 <= i < |lines| && lines[i] == Malformed(BotLines(lines).error)
        && forall j :: 0 <= j < i ==> !lines[j].Malformed?
    ensures BotLines(lines).Ok? ==> |BotLines(lines).value| == CountFull(lines)
    ensures BotLines(lines).Ok? ==> forall x :: x in BotLines(lines).value <==>
      exists i :: 0 <= i < |lines| && lines[i].Full? && ToOcrLine(lines[i]) == x
    ensures BotLines(lines).Ok? ==> BotLines(lines).value == FullRecords(lines)
    decreases |lines|
  {
    if BotLines(lines).Ok? {
      BotLinesKeepsFullRecords(lines);
    }
    if lines != [] {
      var tail := lines[1..];
      BotLinesSpec(tail);
      assert forall i :: 1 <= i < |lines| ==> lines[i] == tail[i - 1];
      if BotLines(lines).Err? && !lines[0].Malformed? {
        var i :| 0 <= i < |tail| && tail[i] == Malformed(BotLines(tail).error)
          && forall j :: 0 <= j < i ==> !tail[j].Malformed?;
        assert lines[i + 1] == tail[i];
      }
      if BotLines(lines).Ok? {
        var r := BotLines(lines).value;
        forall x ensures x in r <==> exists i :: 0 <= i < |lines| && lines[i].Full? && ToOcrLine(lines[i]) == x {
          if x in BotLines(tail).value {
            var i :| 0 <= i < |tail| && tail[i].Full? && ToOcrLine(tail[i]) == x;
            assert lines[i + 1] == tail[i];
          }
          if exists i :: 0 <= i < |lines| && lines[i].Full? && ToOcrLine(lines[i]) == x {
            var i :| 0 <= i < |lines| && lines[i].Full? && ToOcrLine(lines[i]) == x;
            if i > 0 {
              assert tail[i - 1] == lines[i];
            }
          }
        }
      }
    }
  }

  /** The loop at the heart of `perform_ocr_on_file`: append a record for
      each truthy entry with at least two elements. */
  method NormaliseForBot(lines: seq<RawLine>) returns (r: Result<seq<OcrLine>, string>)
    ensures r == BotLines(lines)
  {
    var kept: seq<OcrLine> := [];
    for i := 0 to |lines|
      invariant BotLines(lines[..i]) == Ok(kept)
    {
      var line := lines[i];
      BotLinesAppend(lines[..i], [line]);
      assert lines[..i + 1] == lines[..i] + [line];
      match line {
        case Malformed(f) =>
          BotLinesAppend(lines[..i], lines[i..]);
          assert lines[..i] + lines[i..] == lines;
          assert lines[i..][0] == line;
          return Err(f);
        case Full(_, _, _) =>
          assert [line][0] == line && [line][1..] == [];
          assert BotLines([line][1..]) == Ok([]);
          assert [ToOcrLine(line)] + [] == [ToOcrLine(line)];
          assert BotLines([line]) == Ok([ToOcrLine(line)]);
          kept := kept + [ToOcrLine(line)];
        case _ =>
          assert BotLines([line]) == Ok([]);
          assert kept + [] == kept;
      }
    }
    assert lines[..|lines|] == lines;
    return Ok(kept);
  }

  // ---------------------------------------------------------------------
  // perform_ocr_on_file
  // ---------------------------------------------------------------------

  /** The dictionary `perform_ocr_on_file` returns. */
  datatype OcrResponse =
    | OcrSucceeded(results: seq<OcrLine>, text: string)   // {"success": True, "results", "text"}
    | OcrFailed(error: string)                           // {"success": False, "error"}

  /** One run of `perform_ocr_on_file`: the path given to the engine, the
      response, the files the run created, the files it removed, and the
      existing files it replaced with the crop. */
  datatype FileRun = FileRun(ocrInput: string, response: OcrResponse, created: set<string>,
                             removed: set<string>, overwritten: set<string>)

  /** The new file the crop step wrote: the one derived path, when it
      differs from the input. */
  function CroppedCopy(imagePath: string, image: Option<Crop.ImageSize>, saved: bool): (files: set<string>)
    ensures imagePath !in files
    ensures files != {} <==> image.Some? && saved && Crop.HasCroppableExtension(imagePath)
    ensures files != {} ==> files == {Crop.CroppedPath(imagePath)}
  {
    var crop := Crop.CropImageToTargetRegion(imagePath, image, saved);
    if crop.path != imagePath then {crop.path} else {}
  }

  /** The input file the crop step saved over: a path holding none of
      ".png", ".jpg" and ".jpeg" derives to itself, so a successful save
      replaces the caller's image with the crop. */
  function OverwrittenInput(imagePath: string, image: Option<Crop.ImageSize>, saved: bool): (files: set<string>)
    ensures files <= {imagePath}
    ensures files != {} <==> image.Some? && saved && !Crop.HasCroppableExtension(imagePath)
    ensures files !! CroppedCopy(imagePath, image, saved)
  {
    var crop := Crop.CropImageToTargetRegion(imagePath, image, saved);
    if crop.region.Some? && crop.path == imagePath then {imagePath} else {}
  }

  /** Lines 121-140: the engine's answer turned into the response. */
  function Recognise(call: EngineCall): (resp: OcrResponse)
    ensures resp.OcrSucceeded? <==> call.Returned? && BotLines(FirstPage(call.output)).Ok?
    ensures resp.OcrSucceeded? ==> resp.results == BotLines(FirstPage(call.output)).value
    ensures resp.OcrSucceeded? ==> resp.text == FullText(resp.results)
    ensures call.Raised? ==> resp == OcrFailed(call.message)
    ensures call.Returned? && BotLines(FirstPage(call.output)).Err? ==>
      resp == OcrFailed(BotLines(FirstPage(call.output)).error)
  {
    match call
    case Raised(m) => OcrFailed(m)
    case Returned(out) =>
      match BotLines(FirstPage(out))
      case Err(f) => OcrFailed(f)
      case Ok(rs) => OcrSucceeded(rs, FullText(rs))
  }

  /** `perform_ocr_on_file` as the source has it: the cropped copy is
      removed only on the success path, so an engine exception or a
      malformed line leaves it behind. */
  function PerformOcrOnFileAsWritten(imagePath: string, image: Option<Crop.ImageSize>, saved: bool, engine: EngineCall): (run: FileRun)
    ensures run.ocrInput == Crop.CropImageToTargetRegion(imagePath, image, saved).path
    ensures run.response == Recognise(engine)
    ensures run.created == CroppedCopy(imagePath, image, saved)
    ensures run.removed == if run.response.OcrSucceeded? then run.created else {}
    ensures run.overwritten == OverwrittenInput(imagePath, image, saved)
  {
    var crop := Crop.CropImageToTargetRegion(imagePath, image, saved);
    var resp := Recognise(engine);
    var copy := CroppedCopy(imagePath, image, saved);
    FileRun(crop.path, resp, copy, if resp.OcrSucceeded? then copy else {},
            OverwrittenInput(imagePath, image, saved))
  }

  /** The leak: whenever the crop wrote a copy and the run fails, the
      as-written code does not remove the copy. */
  lemma CroppedCopyLeaksOnFailure(imagePath: string, image: Option<Crop.ImageSize>, saved: bool, engine: EngineCall)
    requires image.Some? && saved && Crop.HasCroppableExtension(imagePath)
    requires Recognise(engine).OcrFailed?
    ensures var run := PerformOcrOnFileAsWritten(imagePath, image, saved, engine);
      run.created == {Crop.CroppedPath(imagePath)} && run.removed == {}
  {
  }

  /** A `.png` screenshot whose stem holds none of the rewritten
      substrings, and a run that fails: the copy left on disk is
      `stem + "_cropped.png"`. */
  lemma PngCopyLeaks(stem: string, size: Crop.ImageSize, engine: EngineCall)
    requires !Crop.HasCroppableExtension(stem)
    requires Recognise(engine).OcrFailed?
    ensures var run := PerformOcrOnFileAsWritten(stem + ".png", Some(size), true, engine);
      run.created == {stem + "_cropped.png"} && run.removed == {}
  {
    var path := stem + ".png";
    Crop.CroppedPathOfPng(stem);
    Crop.CroppedPathUnchangedIff(path);
    assert |stem + "_cropped.png"| != |path|;
  }

  /** The screenshot of the example, without its extension. */
  const ShotStem := "/tmp/shot"

  /** A concrete instance: `/tmp/shot.png` at 1720×900, an engine that
      raises, and `/tmp/shot_cropped.png` left on disk. */
  lemma CroppedCopyLeakExample()
    ensures var run := PerformOcrOnFileAsWritten(ShotStem + ".png", Some(Crop.ImageSize(1720, 900)), true, Raised("engine fault"));
      run.response == OcrFailed("engine fault") && run.created == {ShotStem + "_cropped.png"} && run.removed == {}
  {
    DotFreeIsPlain(ShotStem);
    PngCopyLeaks(ShotStem, Crop.ImageSize(1720, 900), Raised("engine fault"));
  }

  /** A stem without a dot holds none of the rewritten substrings. */
  lemma DotFreeIsPlain(stem: string)
    requires '.' !in stem
    ensures !Crop.HasCroppableExtension(stem)
  {
    Text.MissingCharNotContained(stem, ".png", 0);
    Text.MissingCharNotContained(stem, ".jpg", 0);
    Text.MissingCharNotContained(stem, ".jpeg", 0);
  }

  /** `perform_ocr_on_file` with the cropped copy removed on every exit
      path. OCR runs on the crop when one was saved and on the original
      otherwise; the run removes exactly the files it created and never
      the caller's own file. */
  function PerformOcrOnFile(imagePath: string, image: Option<Crop.ImageSize>, saved: bool, engine: EngineCall): (run: FileRun)
    ensures run.ocrInput == Crop.CropImageToTargetRegion(imagePath, image, saved).path
    ensures run.ocrInput == imagePath || (image.Some? && saved)
    ensures run.response == Recognise(engine)
    ensures run.removed == run.created
    ensures imagePath !in run.created
    ensures run.created != {} <==> image.Some? && saved && Crop.HasCroppableExtension(imagePath)
    ensures run.ocrInput != imagePath ==> run.created == {run.ocrInput}
    ensures run.overwritten == OverwrittenInput(imagePath, image, saved)
  {
    var crop := Crop.CropImageToTargetRegion(imagePath, image, saved);
    var copy := CroppedCopy(imagePath, image, saved);
    FileRun(crop.path, Recognise(engine), copy, copy, OverwrittenInput(imagePath, image, saved))
  }
}
