/** The bot's preprocessing step: the fixed target rectangle clamped
    into the image, and the path the cropped copy is saved under. */
module Crop {
  import opened Wrappers
  import Text

  /** Decoded image dimensions in pixels. */
  datatype ImageSize = ImageSize(width: nat, height: nat)

  /** A rectangle `(start_x, start_y, end_x, end_y)`, end-exclusive, as
      passed to PIL's `crop`. */
  datatype CropRegion = CropRegion(startX: int, startY: int, endX: int, endY: int)

  const NominalStartX := 576
  const NominalStartY := 100
  const NominalEndX := 1068

  /** The pixel `(x, y)` lies in the region. */
  predicate Covers(r: CropRegion, x: int, y: int)
  {
    r.startX <= x < r.endX && r.startY <= y < r.endY
  }

  /** The nominal rectangle, whose bottom edge is the image's own height. */
  function Nominal(size: ImageSize): CropRegion
  {
    CropRegion(NominalStartX, NominalStartY, NominalEndX, size.height)
  }

  /** Number of pixels of a well-ordered region. */
  function Area(r: CropRegion): int
  {
    (r.endX - r.startX) * (r.endY - r.startY)
  }

  /** `max(0, min(v, bound))`. */
  function Clamp(v: int, bound: nat): (c: int)
    ensures 0 <= c <= bound
    ensures 0 <= v <= bound ==> c == v
    ensures v < 0 ==> c == 0
    ensures v > bound ==> c == bound
  {
    if v < 0 then 0 else if v > bound then bound else v
  }

  /** The region the bot crops to: each nominal coordinate clamped into
      `[0, width]` or `[0, height]`. The result is an ordered rectangle
      inside the image, reaching its bottom edge, and it holds exactly
      the image pixels that the nominal rectangle holds. */
  function TargetRegion(size: ImageSize): (r: CropRegion)
    ensures 0 <= r.startX <= r.endX <= size.width
    ensures 0 <= r.startY <= r.endY <= size.height
    ensures r.endY == size.height
    ensures forall x, y :: Covers(r, x, y) <==>
      Covers(Nominal(size), x, y) && 0 <= x < size.width && 0 <= y < size.height
    ensures size.width >= NominalEndX && size.height >= NominalStartY ==> r == Nominal(size)
    ensures size.height <= NominalStartY ==> r.startY == r.endY == size.height
    ensures size.width <= NominalStartX ==> r.startX == r.endX == size.width
    ensures NominalStartX < size.width < NominalEndX ==> r.startX == NominalStartX && r.endX == size.width
  {
    CropRegion(Clamp(NominalStartX, size.width), Clamp(NominalStartY, size.height),
               Clamp(NominalEndX, size.width), Clamp(size.height, size.height))
  }

  lemma ProductZeroIff(a: nat, b: nat)
    ensures a * b == 0 <==> a == 0 || b == 0
  {
    if a != 0 && b != 0 {
      assert a * b >= b by { assert a * b == (a - 1) * b + b; }
    }
  }

  /** The target region is empty, so the saved crop holds no pixels,
      exactly when the image is no wider than the left edge or no taller
      than the top edge. */
  lemma TargetRegionEmptyIff(size: ImageSize)
    ensures Area(TargetRegion(size)) == 0 <==> size.width <= NominalStartX || size.height <= NominalStartY
  {
    var r := TargetRegion(size);
    ProductZeroIff(r.endX - r.startX, r.endY - r.startY);
  }

  /** `image_path.replace('.png', '_cropped.png').replace('.jpg', '_cropped.jpg')
      .replace('.jpeg', '_cropped.jpg')`. */
  function CroppedPath(path: string): string
  {
    var p1 := Text.ReplaceAll(path, ".png", "_cropped.png");
    var p2 := Text.ReplaceAll(p1, ".jpg", "_cropped.jpg");
    Text.ReplaceAll(p2, ".jpeg", "_cropped.jpg")
  }

  /** The path holds one of the substrings the derivation rewrites. */
  predicate HasCroppableExtension(path: string)
  {
    Text.Contains(path, ".png") || Text.Contains(path, ".jpg") || Text.Contains(path, ".jpeg")
  }

  /** The derived path equals the input exactly when the input holds
      none of ".png", ".jpg" or ".jpeg"; otherwise it is strictly longer. */
  lemma CroppedPathUnchangedIff(path: string)
    ensures CroppedPath(path) == path <==> !HasCroppableExtension(path)
    ensures HasCroppableExtension(path) ==> |CroppedPath(path)| > |path|
  {
    var p1 := Text.ReplaceAll(path, ".png", "_cropped.png");
    var p2 := Text.ReplaceAll(p1, ".jpg", "_cropped.jpg");
    Text.ReplaceAllGrows(path, ".png", "_cropped.png");
    Text.ReplaceAllGrows(p1, ".jpg", "_cropped.jpg");
    Text.ReplaceAllGrows(p2, ".jpeg", "_cropped.jpg");
  }

  /** One step of the derivation on `stem + tail`, when the stem is free
      of the pattern and the tail becomes `tail'`. */
  lemma ReplaceStep(stem: string, tail: string, pat: string, rep: string, tail': string)
    requires pat != [] && tail != [] && !Text.Contains(stem, pat)
    requires forall k :: 1 <= k < |pat| ==> pat[k] != tail[0]
    requires Text.ReplaceAll(tail, pat, rep) == tail'
    ensures Text.ReplaceAll(stem + tail, pat, rep) == stem + tail'
  {
    Text.ReplaceAllAfterStem(stem, tail, pat, rep);
  }

  /** A step that finds nothing to replace in the tail. */
  lemma KeepStep(stem: string, tail: string, pat: string, rep: string, k: nat)
    requires pat != [] && |rep| > |pat| && tail != [] && !Text.Contains(stem, pat)
    requires forall j :: 1 <= j < |pat| ==> pat[j] != tail[0]
    requires k < |pat| && pat[k] !in tail
    ensures Text.ReplaceAll(stem + tail, pat, rep) == stem + tail
  {
    Text.MissingCharNotContained(tail, pat, k);
    Text.ReplaceAllGrows(tail, pat, rep);
    Text.ReplaceAllAfterStem(stem, tail, pat, rep);
  }

  /** A step whose pattern is the whole tail. */
  lemma SelfStep(stem: string, pat: string, rep: string)
    requires pat != [] && !Text.Contains(stem, pat)
    requires forall j :: 1 <= j < |pat| ==> pat[j] != pat[0]
    ensures Text.ReplaceAll(stem + pat, pat, rep) == stem + rep
  {
    Text.ReplaceAllSelf(pat, rep);
    Text.ReplaceAllAfterStem(stem, pat, pat, rep);
  }

  /** `stem + ".png"` becomes `stem + "_cropped.png"` when the stem holds
      none of the rewritten substrings. */
  lemma CroppedPathOfPng(stem: string)
    requires !HasCroppableExtension(stem)
    ensures CroppedPath(stem + ".png") == stem + "_cropped.png"
  {
    SelfStep(stem, ".png", "_cropped.png");
    KeepStep(stem, "_cropped.png", ".jpg", "_cropped.jpg", 1);
    KeepStep(stem, "_cropped.png", ".jpeg", "_cropped.jpg", 1);
  }

  /** `stem + ".jpg"` becomes `stem + "_cropped.jpg"` when the stem holds
      none of the rewritten substrings. */
  lemma CroppedPathOfJpg(stem: string)
    requires !HasCroppableExtension(stem)
    ensures CroppedPath(stem + ".jpg") == stem + "_cropped.jpg"
  {
    KeepStep(stem, ".jpg", ".png", "_cropped.png", 2);
    SelfStep(stem, ".jpg", "_cropped.jpg");
    CroppedJpgKeepsStem(stem);
  }

  /** The last step finds no ".jpeg" in `stem + "_cropped.jpg"`. */
  lemma CroppedJpgKeepsStem(stem: string)
    requires !Text.Contains(stem, ".jpeg")
    ensures Text.ReplaceAll(stem + "_cropped.jpg", ".jpeg", "_cropped.jpg") == stem + "_cropped.jpg"
  {
    var head := stem + "_cropped";
    Text.NotContainedConcat(stem, "_cropped", ".jpeg");
    assert Text.ReplaceAll(".jpg", ".jpeg", "_cropped.jpg") == ".jpg";
    ReplaceStep(head, ".jpg", ".jpeg", "_cropped.jpg", ".jpg");
    assert head + ".jpg" == stem + "_cropped.jpg";
  }

  /** `stem + ".jpeg"` becomes `stem + "_cropped.jpg"`: the copy of a JPEG
      file is saved under the shorter extension. */
  lemma CroppedPathOfJpeg(stem: string)
    requires !HasCroppableExtension(stem)
    ensures CroppedPath(stem + ".jpeg") == stem + "_cropped.jpg"
  {
    KeepStep(stem, ".jpeg", ".png", "_cropped.png", 2);
    Text.MissingCharNotContained("jpeg", ".jpg", 0);
    Text.ReplaceAllGrows("jpeg", ".jpg", "_cropped.jpg");
    assert ".jpeg"[..4][3] != ".jpg"[3];
    assert ".jpeg"[1..] == "jpeg";
    assert Text.ReplaceAll(".jpeg", ".jpg", "_cropped.jpg") == ".jpeg";
    ReplaceStep(stem, ".jpeg", ".jpg", "_cropped.jpg", ".jpeg");
    SelfStep(stem, ".jpeg", "_cropped.jpg");
  }

  /** The outcome of `crop_image_to_target_region`: the path to run OCR
      on and, when the crop was saved, the region it holds. */
  datatype CropOutcome = CropOutcome(path: string, region: Option<CropRegion>)

  /** `crop_image_to_target_region(image_path)`. `image` is the size PIL
      decoded, `None` when `Image.open` failed; `saved` says whether
      saving the crop succeeded. Any failure falls back to the original
      path. */
  function CropImageToTargetRegion(imagePath: string, image: Option<ImageSize>, saved: bool): (c: CropOutcome)
    ensures c.region.Some? <==> image.Some? && saved
    ensures c.region.Some? ==> c.region.value == TargetRegion(image.value)
    ensures c.region.None? ==> c.path == imagePath
    ensures c.region.Some? ==> c.path == CroppedPath(imagePath)
    ensures c.path != imagePath <==> c.region.Some? && HasCroppableExtension(imagePath)
    ensures c.region.Some? && c.path == imagePath <==> image.Some? && saved && !HasCroppableExtension(imagePath)
  {
    CroppedPathUnchangedIff(imagePath);
    if image.Some? && saved then CropOutcome(CroppedPath(imagePath), Some(TargetRegion(image.value)))
    else CropOutcome(imagePath, None)
  }
}
