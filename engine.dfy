/** What the OCR engine hands back, and the line record both front ends
    build from it. The engine itself is a foreign model: each request's
    call is represented by its answer, an `EngineCall`. */
module Engine {
  import opened Wrappers
  import Text

  datatype Point = Point(x: real, y: real)

  /** One entry of the engine's per-image list, classified by the shape
      the front ends test for. */
  datatype RawLine =
    | NoneLine                 // `None`: falsy; indexing it raises TypeError
    | EmptyLine                // `[]`: falsy; indexing it raises IndexError
    | Short                    // a one-element entry: truthy, `len(line) < 2`
    | Full(bbox: seq<Point>, text: string, confidence: real)
                               // `[bbox, (text, confidence)]`, possibly with more elements
    | Malformed(fault: string) // `len(line) >= 2`, but reading `line[1][0]` or
                               // `float(line[1][1])` raises; `fault` is `str(e)`

  /** The engine's return value: `None`, or one entry per input image,
      each either `None` or a list of lines. */
  datatype EngineOutput = NoResult | Pages(pages: seq<Option<seq<RawLine>>>)

  /** One call into the engine: it returns, or raises with a message. */
  datatype EngineCall = Raised(message: string) | Returned(output: EngineOutput)

  /** A recognised line as the bot and `/ocr` report it. */
  datatype OcrLine = OcrLine(text: string, confidence: real, bbox: seq<Point>)

  /** The lines of the first image, the list both front ends iterate:
      empty when `result` or `result[0]` is falsy. */
  function FirstPage(out: EngineOutput): (lines: seq<RawLine>)
    ensures out.NoResult? ==> lines == []
    ensures out.Pages? && out.pages != [] && out.pages[0].Some? ==> lines == out.pages[0].value
    ensures out.Pages? && (out.pages == [] || out.pages[0].None?) ==> lines == []
  {
    match out
    case NoResult => []
    case Pages(ps) =>
      if ps == [] then []
      else match ps[0]
        case None => []
        case Some(ls) => ls
  }

  /** The exception that reading `line[1][0]` and `float(line[1][1])`
      raises on this entry, if any. */
  function LineFault(line: RawLine): (fault: Option<string>)
    ensures fault.None? <==> line.Full?
  {
    match line
    case NoneLine => Some("'NoneType' object is not subscriptable")
    case EmptyLine => Some("list index out of range")
    case Short => Some("list index out of range")
    case Full(_, _, _) => None
    case Malformed(f) => Some(f)
  }

  /** The record built from a well-shaped entry. */
  function ToOcrLine(line: RawLine): (l: OcrLine)
    requires line.Full?
    ensures l.text == line.text && l.confidence == line.confidence && l.bbox == line.bbox
  {
    OcrLine(line.text, line.confidence, line.bbox)
  }

  /** The texts of the lines, in order. */
  function Texts(lines: seq<OcrLine>): (ts: seq<string>)
    ensures |ts| == |lines|
    ensures forall i :: 0 <= i < |lines| ==> ts[i] == lines[i].text
  {
    seq(|lines|, i requires 0 <= i < |lines| => lines[i].text)
  }

  /** `" ".join([r["text"] for r in results])`. */
  function FullText(lines: seq<OcrLine>): string
  {
    Text.SpaceJoin(Texts(lines))
  }

  /** The full text is empty exactly when there are no lines or a single
      line with empty text. */
  lemma FullTextEmptyIff(lines: seq<OcrLine>)
    ensures FullText(lines) == "" <==> lines == [] || (|lines| == 1 && lines[0].text == "")
  {
    Text.SpaceJoinEmptyIff(Texts(lines));
    if |lines| == 1 && lines[0].text == "" {
      assert Texts(lines) == [""];
    }
  }

  /** The full text is blank (`not text.strip()`) exactly when every
      line's text is blank. */
  lemma FullTextBlankIff(lines: seq<OcrLine>)
    ensures Text.Strip(FullText(lines)) == "" <==> forall i :: 0 <= i < |lines| ==> Text.AllSpace(lines[i].text)
  {
    Text.StripEmptyIff(FullText(lines));
    Text.SpaceJoinBlankIff(Texts(lines));
  }
}
