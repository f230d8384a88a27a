/**
 * The per-file job (`extract_text`) and the batch loop of `main`, over an
 * abstract output directory: a map from output path to file contents.
 * Decoding, cleanup, recognition and opening the output file are opaque
 * stages passed in as a `Pipeline`; each may raise, and `extract_text`
 * catches whatever is raised.
 */
module Extraction {
  import opened Wrappers
  import opened Paths
  import opened Selection
  import opened Naming

  /** What a stage did: produced a value or raised an exception with a message. */
  datatype Step<T> = Ok(value: T) | Raised(message: string)

  /** The language and configuration `extract_text` hands to the recognizer. */
  const OCR_LANGUAGE: string := "chi_sim"
  const OCR_CONFIG: string := "--psm 6"

  /**
   * The opaque stages of one job:
   *  - imread: `cv2.imread(path)`; `Ok(None)` is the `None` it returns for an unreadable file,
   *  - clean: `clean_image(image)`,
   *  - ocr: `pytesseract.image_to_string(image, lang, config)`,
   *  - openFile: `open(path, 'w', encoding='utf-8')`.
   */
  datatype Pipeline<!Image> = Pipeline(
    imread: string -> Step<Option<Image>>,
    clean: Image -> Step<Image>,
    ocr: (Image, string, string) -> Step<string>,
    openFile: string -> Step<()>)

  /**
   * How a job ended: the text was written, the image could not be read
   * (the early return), or a stage raised and the exception was caught.
   */
  datatype JobOutcome = Written(text: string) | Unreadable | Failed(message: string)

  /** One iteration of the batch loop: the image to read and the file to write. */
  datatype Task = Task(imagePath: string, outputFile: string)

  /** The outcome of `extract_text(imagePath, outputFile)`, stage by stage. */
  function Job<Image>(p: Pipeline<Image>, imagePath: string, outputFile: string): JobOutcome
  {
    match p.imread(imagePath)
    case Raised(e) => Failed(e)
    case Ok(None) => Unreadable
    case Ok(Some(image)) =>
      match p.clean(image)
      case Raised(e) => Failed(e)
      case Ok(cleaned) =>
        match p.ocr(cleaned, OCR_LANGUAGE, OCR_CONFIG)
        case Raised(e) => Failed(e)
        case Ok(text) =>
          match p.openFile(outputFile)
          case Raised(e) => Failed(e)
          case Ok(_) => Written(text)
  }

  /** The image at imagePath decodes to image, cleans to cleaned and is recognized as text. */
  ghost predicate Recognizes<Image>(p: Pipeline<Image>, imagePath: string, image: Image, cleaned: Image, text: string)
  {
    p.imread(imagePath) == Ok(Some(image)) && p.clean(image) == Ok(cleaned) &&
    p.ocr(cleaned, OCR_LANGUAGE, OCR_CONFIG) == Ok(text)
  }

  /** A job writes text exactly when every stage succeeds, and the text is the recognizer's. */
  lemma JobWrittenExactly<Image>(p: Pipeline<Image>, imagePath: string, outputFile: string, text: string)
    ensures Job(p, imagePath, outputFile) == Written(text)
        <==> p.openFile(outputFile).Ok? &&
             exists image: Image, cleaned: Image :: Recognizes(p, imagePath, image, cleaned, text)
  {
    if Job(p, imagePath, outputFile) == Written(text) {
      var image := p.imread(imagePath).value.value;
      var cleaned := p.clean(image).value;
      assert Recognizes(p, imagePath, image, cleaned, text);
    }
  }

  /** A job ends early, writing nothing, exactly when the image decodes to nothing. */
  lemma JobUnreadableExactly<Image>(p: Pipeline<Image>, imagePath: string, outputFile: string)
    ensures Job(p, imagePath, outputFile) == Unreadable <==> p.imread(imagePath) == Ok(None)
  {
  }

  /** The effect of one job's outcome on the output directory. */
  function Commit(files: map<string, string>, outputFile: string, outcome: JobOutcome): map<string, string>
  {
    if outcome.Written? then files[outputFile := outcome.text] else files
  }

  /** The tasks of a run: the i-th selected file and `text{i+1}.txt`, both joined to their directory. */
  function Plan(imagesDir: string, outputDir: string, listing: seq<string>): seq<Task>
  {
    var selected := Select(listing);
    seq(|selected|, i requires 0 <= i < |selected| => Task(Join(imagesDir, selected[i]), OutputPath(outputDir, i)))
  }

  predicate DistinctOutputs(plan: seq<Task>)
  {
    forall i, j :: 0 <= i < j < |plan| ==> plan[i].outputFile != plan[j].outputFile
  }

  function OutputFiles(plan: seq<Task>): set<string>
  {
    set i | 0 <= i < |plan| :: plan[i].outputFile
  }

  /** The output files of one run are pairwise distinct. */
  lemma PlanOutputsDistinct(imagesDir: string, outputDir: string, listing: seq<string>)
    ensures DistinctOutputs(Plan(imagesDir, outputDir, listing))
  {
    var plan := Plan(imagesDir, outputDir, listing);
    forall i, j | 0 <= i < j < |plan|
      ensures plan[i].outputFile != plan[j].outputFile
    {
      if plan[i].outputFile == plan[j].outputFile {
        OutputPathInjective(outputDir, i, j);
      }
    }
  }

  /** The directory after the tasks of `plan` ran in order, starting from `files`. */
  function RunJobs<Image>(files: map<string, string>, p: Pipeline<Image>, plan: seq<Task>): map<string, string>
  {
    if plan == [] then files
    else
      var last := plan[|plan| - 1];
      Commit(RunJobs(files, p, plan[..|plan| - 1]), last.outputFile, Job(p, last.imagePath, last.outputFile))
  }

  /** `key` is present in both maps with the same contents, or in neither. */
  predicate SameAt(m1: map<string, string>, m2: map<string, string>, key: string)
  {
    (key in m1 <==> key in m2) && (key in m1 ==> m1[key] == m2[key])
  }

  /** A file that is no task's output is left as it was. */
  lemma {:induction false} RunJobsElsewhere<Image>(files: map<string, string>, p: Pipeline<Image>, plan: seq<Task>, key: string)
    requires key !in OutputFiles(plan)
    ensures SameAt(RunJobs(files, p, plan), files, key)
  {
    if plan != [] {
      var n := |plan| - 1;
      assert plan[n].outputFile in OutputFiles(plan);
      assert OutputFiles(plan[..n]) <= OutputFiles(plan) by {
        forall f | f in OutputFiles(plan[..n]) ensures f in OutputFiles(plan) {
          var i :| 0 <= i < n && plan[..n][i].outputFile == f;
          assert plan[i].outputFile == f;
        }
      }
      RunJobsElsewhere(files, p, plan[..n], key);
    }
  }

  /**
   * With distinct outputs, the output of task i ends up holding that job's
   * text if it was written, and otherwise exactly what it held before the
   * run: no other task, and no failure, touches it.
   */
  lemma {:induction false} RunJobsAt<Image>(files: map<string, string>, p: Pipeline<Image>, plan: seq<Task>, i: nat)
    requires DistinctOutputs(plan) && i < |plan|
    ensures var key := plan[i].outputFile;
            var outcome := Job(p, plan[i].imagePath, key);
            var after := RunJobs(files, p, plan);
            if outcome.Written? then key in after && after[key] == outcome.text
            else SameAt(after, files, key)
  {
    var n := |plan| - 1;
    var init := plan[..n];
    assert DistinctOutputs(init);
    if i == n {
      assert plan[i].outputFile !in OutputFiles(init);
      RunJobsElsewhere(files, p, init, plan[i].outputFile);
    } else {
      assert init[i] == plan[i];
      RunJobsAt(files, p, init, i);
    }
  }

  /** `RunJobsAt` and `RunJobsElsewhere` for all files at once. */
  lemma RunJobsEffect<Image>(files: map<string, string>, p: Pipeline<Image>, plan: seq<Task>)
    requires DistinctOutputs(plan)
    ensures var after := RunJobs(files, p, plan);
            forall i :: 0 <= i < |plan| ==>
              var key := plan[i].outputFile;
              var outcome := Job(p, plan[i].imagePath, key);
              if outcome.Written? then key in after && after[key] == outcome.text
              else SameAt(after, files, key)
    ensures forall key :: key !in OutputFiles(plan) ==> SameAt(RunJobs(files, p, plan), files, key)
  {
    forall i | 0 <= i < |plan|
      ensures var key := plan[i].outputFile;
              var outcome := Job(p, plan[i].imagePath, key);
              var after := RunJobs(files, p, plan);
              if outcome.Written? then key in after && after[key] == outcome.text
              else SameAt(after, files, key)
    {
      RunJobsAt(files, p, plan, i);
    }
    forall key | key !in OutputFiles(plan)
      ensures SameAt(RunJobs(files, p, plan), files, key)
    {
      RunJobsElsewhere(files, p, plan, key);
    }
  }

  /** The output directory `main` writes into. */
  class OutputDirectory {
    /** Output path to file contents. */
    var files: map<string, string>

    constructor (initial: map<string, string>)
      ensures files == initial
    {
      files := initial;
    }

    /**
     * `extract_text`: read, clean, recognize, open, write; an unreadable
     * image returns early and any raised stage is caught, and in both
     * cases the directory is left exactly as it was.
     */
    method ExtractText<Image>(imagePath: string, outputFile: string, p: Pipeline<Image>) returns (outcome: JobOutcome)
      modifies this
      ensures outcome == Job(p, imagePath, outputFile)
      ensures outcome.Written? ==> files == old(files)[outputFile := outcome.text]
      ensures !outcome.Written? ==> files == old(files)
    {
      var decoded := p.imread(imagePath);
      if decoded.Raised? {
        return Failed(decoded.message);
      }
      if decoded.value.None? {
        return Unreadable;
      }
      var cleaned := p.clean(decoded.value.value);
      if cleaned.Raised? {
        return Failed(cleaned.message);
      }
      var text := p.ocr(cleaned.value, OCR_LANGUAGE, OCR_CONFIG);
      if text.Raised? {
        return Failed(text.message);
      }
      var handle := p.openFile(outputFile);
      if handle.Raised? {
        return Failed(handle.message);
      }
      files := files[outputFile := text.value];
      outcome := Written(text.value);
    }

    /**
     * The loop of `main`: every selected file is visited in order and
     * handed to `ExtractText` with `text{i+1}.txt`. Each output holds its
     * job's text when the job wrote it and is otherwise unchanged, and
     * every other file of the directory is unchanged.
     */
    method Run<Image>(imagesDir: string, outputDir: string, listing: seq<string>, p: Pipeline<Image>)
      returns (outcomes: seq<JobOutcome>)
      modifies this
      ensures var plan := Plan(imagesDir, outputDir, listing);
              |outcomes| == |plan| &&
              (forall i :: 0 <= i < |plan| ==> outcomes[i] == Job(p, plan[i].imagePath, plan[i].outputFile)) &&
              files == RunJobs(old(files), p, plan)
      ensures var plan := Plan(imagesDir, outputDir, listing);
              forall i :: 0 <= i < |plan| ==>
                if outcomes[i].Written? then plan[i].outputFile in files && files[plan[i].outputFile] == outcomes[i].text
                else SameAt(files, old(files), plan[i].outputFile)
      ensures forall key :: key !in OutputFiles(Plan(imagesDir, outputDir, listing)) ==> SameAt(files, old(files), key)
    {
      ghost var plan := Plan(imagesDir, outputDir, listing);
      var imageFiles := Select(listing);
      outcomes := [];
      for i := 0 to |imageFiles|
        invariant |outcomes| == i
        invariant forall k :: 0 <= k < i ==> outcomes[k] == Job(p, plan[k].imagePath, plan[k].outputFile)
        invariant files == RunJobs(old(files), p, plan[..i])
      {
        var imagePath := Join(imagesDir, imageFiles[i]);
        var outputFile := Join(outputDir, OutputName(i));
        var outcome := ExtractText(imagePath, outputFile, p);
        outcomes := outcomes + [outcome];
        assert plan[..i + 1][..i] == plan[..i];
      }
      assert plan[..|plan|] == plan;
      PlanOutputsDistinct(imagesDir, outputDir, listing);
      RunJobsEffect(old(files), p, plan);
    }
  }
}
