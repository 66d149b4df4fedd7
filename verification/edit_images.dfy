/** The image-editing script's own logic: the output file name for each
    input, the "no resize needed" guard, the exception-to-`False` contract of
    `edit_image`, and the loop that counts successes. The diffusion model,
    PIL and the file system are parameters. */
module EditImages {
  import opened Wrappers
  import opened Text
  import Seqs
  import Paths

  // ---------------------------------------------------------------------
  // Output names
  // ---------------------------------------------------------------------

  /** Lines 121-123 of `main`: `name, ext = splitext(filename)` and then
      `f"{name}_edited{ext}"`. */
  function EditedName(filename: string): (r: string)
    ensures |r| == |filename| + |"_edited"|
    ensures forall c :: c !in filename && c !in "_edited" ==> c !in r
  {
    var (stem, ext) := Paths.Splitext(filename);
    InsertNoNewChar(stem, "_edited", ext);
    stem + "_edited" + ext
  }

  /** Line 124: `os.path.join(output_dir, output_filename)`, with the file
      name taken from the input path's final component. The output lies in
      the output directory and its final component is the edited name of the
      input's final component. */
  function OutputPath(outputDir: string, imagePath: string): (out: string)
    ensures Paths.Basename(out) == EditedName(Paths.Basename(imagePath))
    ensures StartsWith(out, outputDir)
    ensures |out| == |outputDir| + |Paths.Basename(out)| + (if outputDir == [] || EndsWith(outputDir, "/") then 0 else 1)
  {
    var b := Paths.Basename(imagePath);
    var name := EditedName(b);
    assert '/' !in b && '/' !in "_edited";
    assert '/' !in name;
    Paths.NameIsRelative(name);
    Paths.BasenameOfJoin(outputDir, name);
    Paths.JoinPath(outputDir, name)
  }

  /** Inserting `m` into `a + b` adds no character that `m` lacks. */
  lemma InsertNoNewChar(a: string, m: string, b: string)
    ensures forall c :: c !in a + b && c !in m ==> c !in a + m + b
  {
    forall c | c !in a + b
      ensures c !in a && c !in b
    {
      assert forall j | 0 <= j < |a| :: a[j] == (a + b)[j];
      assert forall j | 0 <= j < |b| :: b[j] == (a + b)[|a| + j];
    }
  }

  /** For a name without '/', the extension `splitext` finds. */
  lemma SplitextOfName(b: string)
    requires '/' !in b
    ensures Paths.Splitext(b).1 == Paths.ComponentExt(b)
    ensures |Paths.ComponentExt(b)| <= |b|
    ensures Paths.Splitext(b).0 == b[..|b| - |Paths.ComponentExt(b)|]
  {
    Paths.BasenameOfName(b);
    Paths.ComponentExtShape(b);
  }

  /** A name with no extension still has none after `_edited` is appended. */
  lemma NoExtAfterRename(b: string)
    requires Paths.ComponentExt(b) == []
    ensures Paths.ComponentExt(b + "_edited") == []
  {
    assert '.' !in "_edited";
    NoExtAfterDotless(b, "_edited");
  }

  /** Appending text without a '.' adds no extension. */
  lemma NoExtAfterDotless(b: string, x: string)
    requires Paths.ComponentExt(b) == [] && '.' !in x
    ensures Paths.ComponentExt(b + x) == []
  {
    LastIndexAppendLeft(b, x, '.');
    var d := LastIndex(b, '.');
    if d >= 0 {
      assert (b + x)[..d] == b[..d];
    }
  }

  /** An extension stays the extension when `_edited` goes before it. */
  lemma ExtAfterRename(stem: string, ext: string)
    requires ext != [] && ext[0] == '.' && '.' !in ext[1..]
    ensures Paths.ComponentExt(stem + "_edited" + ext) == ext
  {
    var head := stem + "_edited";
    var q := head + ext;
    LastIndexUnique(ext, '.', 0);
    LastIndexAppendRight(head, ext, '.');
    assert LastIndex(q, '.') == |head|;
    assert q[..|head|] == head;
    assert head[|stem|] == '_';
    assert !Paths.AllDots(q[..|head|]);
    assert q[|head|..] == ext;
  }

  /** Splitting `stem + "_edited" + ext` again, when `ext` is an extension
      (or empty, and `stem` has none). */
  lemma ResplitParts(stem: string, ext: string)
    requires '/' !in stem && '/' !in ext
    requires ext == [] ==> Paths.ComponentExt(stem) == []
    requires ext != [] ==> ext[0] == '.' && '.' !in ext[1..]
    ensures Paths.Splitext(stem + "_edited" + ext) == (stem + "_edited", ext)
  {
    var q := stem + "_edited" + ext;
    assert '/' !in q;
    SplitextOfName(q);
    if ext == [] {
      assert q == stem + "_edited";
      NoExtAfterRename(stem);
    } else {
      ExtAfterRename(stem, ext);
    }
    assert q[..|q| - |ext|] == stem + "_edited";
  }

  /** Renaming keeps the extension: splitting the output name again gives
      back the stem with `_edited` added and the same extension, case and
      emptiness included. */
  lemma ResplitEditedName(b: string)
    requires '/' !in b
    ensures var (stem, ext) := Paths.Splitext(b);
      Paths.Splitext(EditedName(b)) == (stem + "_edited", ext)
  {
    var (stem, ext) := Paths.Splitext(b);
    SplitextOfName(b);
    Paths.ComponentExtShape(b);
    assert b == stem + ext;
    assert '/' !in stem && '/' !in ext;
    if ext == [] {
      assert stem == b;
    }
    ResplitParts(stem, ext);
  }

  /** Different input names never share an output name, so no edited image
      overwrites another. */
  lemma EditedNameInjective(b1: string, b2: string)
    requires '/' !in b1 && '/' !in b2
    requires EditedName(b1) == EditedName(b2)
    ensures b1 == b2
  {
    ResplitEditedName(b1);
    ResplitEditedName(b2);
    var (s1, e1) := Paths.Splitext(b1);
    var (s2, e2) := Paths.Splitext(b2);
    assert s1 + "_edited" == s2 + "_edited";
    assert s1 == (s1 + "_edited")[..|s1|];
    assert s2 == (s2 + "_edited")[..|s2|];
  }

  /** Inputs whose final components differ get different output paths in the
      same output directory; inputs whose final components agree get the same. */
  lemma OutputPathDependsOnBasename(outputDir: string, p1: string, p2: string)
    ensures OutputPath(outputDir, p1) == OutputPath(outputDir, p2)
        <==> Paths.Basename(p1) == Paths.Basename(p2)
  {
    var b1, b2 := Paths.Basename(p1), Paths.Basename(p2);
    if OutputPath(outputDir, p1) == OutputPath(outputDir, p2) {
      EditedNameInjective(b1, b2);
    }
  }

  // ---------------------------------------------------------------------
  // Resizing and editing one image
  // ---------------------------------------------------------------------

  /** An image as far as the script looks at it: its size, and its pixels. */
  datatype Image = Image(width: nat, height: nat, pixels: seq<int>)

  /** The libraries `edit_image` calls, each `None` (or false) where it
      raises: opening and converting the file, the scaled LANCZOS resize,
      the diffusion pipeline with its first output image, and saving. */
  datatype Editor = Editor(
    open: string -> Option<Image>,
    shrink: (Image, int) -> Option<Image>,
    generate: (Image, string) -> Option<Image>,
    save: (Image, string) -> bool)

  /** `resize_image`: an image whose pixel count is at most
      `max_pixels * max_pixels` is returned as it is; a larger one is scaled
      down (the floating-point scaling is the `shrink` parameter). */
  function ResizeImage(ed: Editor, img: Image, maxPixels: int): (r: Option<Image>)
    ensures img.width * img.height <= maxPixels * maxPixels ==> r == Some(img)
  {
    if img.width * img.height <= maxPixels * maxPixels then Some(img)
    else ed.shrink(img, maxPixels)
  }

  /** An image no wider and no taller than `max_pixels` is never resized: the
      bound compares areas, and such an image's area is within it. */
  lemma FitsSidesNotResized(ed: Editor, img: Image, maxPixels: int)
    requires img.width <= maxPixels && img.height <= maxPixels
    ensures ResizeImage(ed, img, maxPixels) == Some(img)
  {
    var w, h := img.width, img.height;
    assert w * h <= maxPixels * h by {
      assert (maxPixels - w) * h >= 0;
    }
    assert maxPixels * h <= maxPixels * maxPixels by {
      assert maxPixels * (maxPixels - h) >= 0;
    }
  }

  /** Raising the bound never makes an image that was left alone need resizing. */
  lemma LargerBoundStillNotResized(ed: Editor, img: Image, m1: int, m2: int)
    requires 0 <= m1 <= m2
    requires img.width * img.height <= m1 * m1
    ensures ResizeImage(ed, img, m2) == Some(img)
  {
    assert m1 * m1 <= m2 * m2 by {
      assert m1 * m1 <= m1 * m2 by { assert m1 * (m2 - m1) >= 0; }
      assert m1 * m2 <= m2 * m2 by { assert m2 * (m2 - m1) >= 0; }
    }
  }

  /** The step at which `edit_image` caught an exception. */
  datatype Stage = Opening | Resizing | Generating | Saving

  /** What `edit_image` did: saved `image` at `path`, or stopped at `stage`. */
  datatype EditResult = Saved(image: Image, path: string) | EditFailed(stage: Stage)

  /** The boolean `edit_image` returns. */
  predicate EditSucceeded(r: EditResult) {
    r.Saved?
  }

  /** `edit_image`: open, resize, generate, save; any exception on the way
      is caught and reported as a failure. A success means the save was
      reached and completed, at the requested output path, with the image
      the pipeline produced from the resized input. */
  function EditImage(ed: Editor, imagePath: string, prompt: string, outputPath: string, maxPixels: int)
    : (r: EditResult)
    ensures r.Saved? ==> r.path == outputPath && ed.save(r.image, outputPath)
    ensures ed.open(imagePath) == None ==> r == EditFailed(Opening)
  {
    match ed.open(imagePath)
    case None => EditFailed(Opening)
    case Some(img) =>
      match ResizeImage(ed, img, maxPixels)
      case None => EditFailed(Resizing)
      case Some(small) =>
        match ed.generate(small, prompt)
        case None => EditFailed(Generating)
        case Some(out) =>
          if ed.save(out, outputPath) then Saved(out, outputPath) else EditFailed(Saving)
  }

  /** A saved image is the pipeline's output for the resized input image. */
  lemma SavedImageIsGenerated(ed: Editor, imagePath: string, prompt: string, outputPath: string, maxPixels: int)
    ensures var r := EditImage(ed, imagePath, prompt, outputPath, maxPixels);
      r.Saved? ==>
        && ed.open(imagePath).Some?
        && ResizeImage(ed, ed.open(imagePath).value, maxPixels).Some?
        && ed.generate(ResizeImage(ed, ed.open(imagePath).value, maxPixels).value, prompt) == Some(r.image)
  {
  }

  /** Every step that completes lets the edit succeed: `edit_image` returns
      `True` exactly when opening, resizing, generating and saving all go
      through. */
  lemma EditSucceedsIffAllStepsDo(ed: Editor, imagePath: string, prompt: string, outputPath: string, maxPixels: int)
    ensures EditSucceeded(EditImage(ed, imagePath, prompt, outputPath, maxPixels)) <==>
      && ed.open(imagePath).Some?
      && ResizeImage(ed, ed.open(imagePath).value, maxPixels).Some?
      && ed.generate(ResizeImage(ed, ed.open(imagePath).value, maxPixels).value, prompt).Some?
      && ed.save(ed.generate(ResizeImage(ed, ed.open(imagePath).value, maxPixels).value, prompt).value, outputPath)
  {
  }

  // ---------------------------------------------------------------------
  // The loop in main
  // ---------------------------------------------------------------------

  /** The output path for each input path. */
  type Renamer = string -> string

  /** The script's output paths: each input goes to its `OutputPath`. The
      ensures only names the lambda's value for the verifier; it is a proof
      aid. */
  function Outputs(outputDir: string): (output: Renamer)
    ensures forall p :: output(p) == OutputPath(outputDir, p)
  {
    p => OutputPath(outputDir, p)
  }

  /** What editing the inputs one after another gives, in input order, each
      input saved to the path `output` gives it. */
  function EditResults(ed: Editor, output: Renamer, imagePaths: seq<string>, prompt: string, maxPixels: int)
    : (rs: seq<EditResult>)
    ensures |rs| == |imagePaths|
    decreases |imagePaths|
  {
    if |imagePaths| == 0 then []
    else
      var last := imagePaths[|imagePaths| - 1];
      EditResults(ed, output, imagePaths[..|imagePaths| - 1], prompt, maxPixels)
        + [EditImage(ed, last, prompt, output(last), maxPixels)]
  }

  /** Each input is edited into its own output path. */
  lemma {:induction false} EditResultsPointwise(ed: Editor, output: Renamer, imagePaths: seq<string>, prompt: string, maxPixels: int)
    ensures var rs := EditResults(ed, output, imagePaths, prompt, maxPixels);
      forall i :: 0 <= i < |imagePaths| ==>
        rs[i] == EditImage(ed, imagePaths[i], prompt, output(imagePaths[i]), maxPixels)
    decreases |imagePaths|
  {
    if |imagePaths| > 0 {
      var init := imagePaths[..|imagePaths| - 1];
      EditResultsPointwise(ed, output, init, prompt, maxPixels);
      var rs := EditResults(ed, output, imagePaths, prompt, maxPixels);
      var prev := EditResults(ed, output, init, prompt, maxPixels);
      forall i | 0 <= i < |imagePaths| - 1
        ensures rs[i] == EditImage(ed, imagePaths[i], prompt, output(imagePaths[i]), maxPixels)
      {
        assert rs[i] == prev[i];
        assert imagePaths[i] == init[i];
      }
    }
  }

  /** The loop step: one more result, counted when it is a success. */
  lemma EditStep(ed: Editor, output: Renamer, imagePaths: seq<string>, prompt: string, maxPixels: int, i: nat, results: seq<EditResult>)
    requires i < |imagePaths| && results == EditResults(ed, output, imagePaths[..i], prompt, maxPixels)
    ensures var r := EditImage(ed, imagePaths[i], prompt, output(imagePaths[i]), maxPixels);
      && EditResults(ed, output, imagePaths[..i + 1], prompt, maxPixels) == results + [r]
      && Seqs.Count(results + [r], EditSucceeded) == Seqs.Count(results, EditSucceeded) + if EditSucceeded(r) then 1 else 0
  {
    var r := EditImage(ed, imagePaths[i], prompt, output(imagePaths[i]), maxPixels);
    assert imagePaths[..i + 1][..i] == imagePaths[..i];
    Seqs.CountSnoc(results, r, EditSucceeded);
  }

  /** The loop of lines 119-135 of `main`, each input saved to the path
      `output` gives it: edit every input in order and count the successes. */
  method EditLoop(ed: Editor, output: Renamer, imagePaths: seq<string>, prompt: string, maxPixels: int)
    returns (successCount: nat, results: seq<EditResult>)
    ensures results == EditResults(ed, output, imagePaths, prompt, maxPixels)
    ensures successCount == Seqs.Count(results, EditSucceeded)
    ensures successCount <= |imagePaths|
  {
    successCount := 0;
    results := [];
    var i := 0;
    while i < |imagePaths|
      invariant 0 <= i <= |imagePaths|
      invariant results == EditResults(ed, output, imagePaths[..i], prompt, maxPixels)
      invariant successCount == Seqs.Count(results, EditSucceeded)
    {
      var path := imagePaths[i];
      var r := EditImage(ed, path, prompt, output(path), maxPixels);
      EditStep(ed, output, imagePaths, prompt, maxPixels, i, results);
      if EditSucceeded(r) {
        successCount := successCount + 1;
      }
      results := results + [r];
      i := i + 1;
    }
    assert imagePaths[..i] == imagePaths;
  }

  /** Lines 119-135 of `main`: every input edited into its output path in
      `outputDir`, and the successes counted. */
  method EditAll(ed: Editor, outputDir: string, imagePaths: seq<string>, prompt: string, maxPixels: int)
    returns (successCount: nat, results: seq<EditResult>)
    ensures results == EditResults(ed, Outputs(outputDir), imagePaths, prompt, maxPixels)
    ensures successCount == Seqs.Count(results, EditSucceeded)
    ensures successCount <= |imagePaths|
  {
    successCount, results := EditLoop(ed, Outputs(outputDir), imagePaths, prompt, maxPixels);
  }

  /** Saved images land at pairwise different paths when the inputs' final
      components differ, as they do for the files of one directory. */
  lemma SavedPathsDistinct(outputDir: string, imagePaths: seq<string>, results: seq<EditResult>, prompt: string, maxPixels: int, ed: Editor)
    requires results == EditResults(ed, Outputs(outputDir), imagePaths, prompt, maxPixels)
    requires forall i, j :: 0 <= i < j < |imagePaths| ==> Paths.Basename(imagePaths[i]) != Paths.Basename(imagePaths[j])
    ensures forall i, j :: 0 <= i < j < |results| && results[i].Saved? && results[j].Saved? ==>
      results[i].path != results[j].path
  {
    EditResultsPointwise(ed, Outputs(outputDir), imagePaths, prompt, maxPixels);
    forall i, j | 0 <= i < j < |results| && results[i].Saved? && results[j].Saved?
      ensures results[i].path != results[j].path
    {
      OutputPathDependsOnBasename(outputDir, imagePaths[i], imagePaths[j]);
    }
  }
}
