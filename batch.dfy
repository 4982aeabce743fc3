/**
 * `main` and `processImage`: check the input directory, make the output directory,
 * select the JPEG files and give each one exactly one outcome, in listing order.
 * The libraries' and the file system's answers are inputs.
 */
module Batch {
  import opened Wrappers
  import opened Watermark
  import opened ExifDate
  import opened FileSelection

  /**
   * One entry of the input directory with what the libraries make of it: the
   * metadata lookup, the decoded image (None when `ImageIO.read` gives null or
   * throws), the font metrics of the date text, and whether `ImageIO.write` succeeds
   * given that the output directory exists.
   */
  datatype FileInput = FileInput(
    name: string,
    metadata: MetadataRead,
    image: Option<Raster>,
    metrics: TextMetrics,
    writeSucceeds: bool)

  /** Why a file ended up in `processImage`'s catch clause. */
  datatype FailReason = DateExtractionThrew | DecodeFailed | WriteFailed

  /** The per-file result, reported on the console. */
  datatype Outcome =
    | Written(name: string, stamp: Stamp)
    | SkippedNoDate(name: string)
    | Failed(name: string, reason: FailReason)

  /** The input path as the file system presents it. */
  datatype InputDir = InputDir(
    present: bool,
    isDirectory: bool,
    name: string,
    listing: Option<seq<FileInput>>)

  /** How a run ends: before the output directory, with no images, or after the loop. */
  datatype BatchResult =
    | InvalidPath
    | NoImages(outputDir: string, outputDirReady: bool)
    | Completed(outputDir: string, outputDirReady: bool, outcomes: seq<Outcome>, written: map<string, Stamp>)

  /**
   * `processImage`: the date is looked for first, then the image is decoded, then the
   * watermarked copy is written under the same file name; any exception on the way
   * makes the file Failed.
   */
  function ProcessImage(config: WatermarkConfig, outputDirReady: bool, f: FileInput): (r: Outcome)
    ensures r.name == f.name
    ensures r.SkippedNoDate? <==> ExtractExifDate(f.metadata).NoDate?
    ensures r.Failed? && r.reason == DecodeFailed <==> ExtractExifDate(f.metadata).Date? && f.image.None?
    ensures r.Written? <==>
      ExtractExifDate(f.metadata).Date? && f.image.Some? && outputDirReady && f.writeSucceeds
    ensures r.Written? ==>
      r.stamp == Render(f.image.value, ExtractExifDate(f.metadata).value, config, f.metrics)
  {
    match ExtractExifDate(f.metadata)
    case Throws => Failed(f.name, DateExtractionThrew)
    case NoDate => SkippedNoDate(f.name)
    case Date(text) =>
      match f.image
      case None => Failed(f.name, DecodeFailed)
      case Some(image) =>
        var stamp := Render(image, text, config, f.metrics);
        if outputDirReady && f.writeSucceeds then Written(f.name, stamp) else Failed(f.name, WriteFailed)
  }

  /** The `listFiles` filter, in listing order. */
  function Candidates(listing: seq<FileInput>): (r: seq<FileInput>)
    ensures |r| <= |listing|
    ensures forall f :: f in r <==> f in listing && IsCandidate(f.name)
  {
    if listing == [] then []
    else (if IsCandidate(listing[0].name) then [listing[0]] else []) + Candidates(listing[1..])
  }

  /**
   * Filtering keeps the listing's order and multiplicity: the candidates of two
   * listings put together are the first one's candidates followed by the second one's.
   */
  lemma {:induction false} CandidatesAppend(a: seq<FileInput>, b: seq<FileInput>)
    ensures Candidates(a + b) == Candidates(a) + Candidates(b)
  {
    if a != [] {
      assert (a + b)[0] == a[0];
      assert (a + b)[1..] == a[1..] + b;
      CandidatesAppend(a[1..], b);
    } else {
      assert a + b == b;
    }
  }

  predicate DistinctNames(fs: seq<FileInput>) {
    forall i, j :: 0 <= i < j < |fs| ==> fs[i].name != fs[j].name
  }

  /** Names in a directory are distinct, and so are the names of its candidates. */
  lemma {:induction false} CandidatesDistinct(listing: seq<FileInput>)
    requires DistinctNames(listing)
    ensures DistinctNames(Candidates(listing))
  {
    if listing != [] {
      var rest := Candidates(listing[1..]);
      CandidatesDistinct(listing[1..]);
      if IsCandidate(listing[0].name) {
        var r := Candidates(listing);
        assert r == [listing[0]] + rest;
        forall j | 0 < j < |r| ensures r[0].name != r[j].name {
          assert r[j] in listing[1..];
        }
      }
    }
  }

  /** The output files written by a sequence of outcomes, keyed by file name; a later write replaces an earlier one. */
  function WrittenBy(outcomes: seq<Outcome>): map<string, Stamp> {
    if outcomes == [] then map[]
    else
      var before := WrittenBy(outcomes[..|outcomes| - 1]);
      var last := outcomes[|outcomes| - 1];
      if last.Written? then before[last.name := last.stamp] else before
  }

  /** One more outcome adds its file, if it wrote one, replacing an earlier one of that name. */
  lemma WrittenByAppend(outcomes: seq<Outcome>, last: Outcome)
    ensures WrittenBy(outcomes + [last]) ==
      if last.Written? then WrittenBy(outcomes)[last.name := last.stamp] else WrittenBy(outcomes)
  {
    assert (outcomes + [last])[..|outcomes|] == outcomes;
  }

  /** A name is written exactly when some outcome wrote it. */
  lemma {:induction false} WrittenByKeys(outcomes: seq<Outcome>, name: string)
    ensures name in WrittenBy(outcomes) <==>
      exists i :: 0 <= i < |outcomes| && outcomes[i].Written? && outcomes[i].name == name
  {
    if outcomes != [] {
      var n := |outcomes| - 1;
      var before := outcomes[..n];
      WrittenByKeys(before, name);
      if name in WrittenBy(before) {
        var i :| 0 <= i < n && before[i].Written? && before[i].name == name;
        assert outcomes[i] == before[i];
      }
      if exists i :: 0 <= i < |outcomes| && outcomes[i].Written? && outcomes[i].name == name {
        var i :| 0 <= i < |outcomes| && outcomes[i].Written? && outcomes[i].name == name;
        if i < n {
          assert before[i] == outcomes[i];
        }
      }
    }
  }

  /**
   * With distinct file names, each Written outcome's stamp is what the output file
   * holds, and a skipped or failed file has no output file at all.
   */
  lemma {:induction false} WrittenByDistinct(outcomes: seq<Outcome>, i: nat)
    requires i < |outcomes|
    requires forall j, k :: 0 <= j < k < |outcomes| ==> outcomes[j].name != outcomes[k].name
    ensures outcomes[i].Written? ==>
      outcomes[i].name in WrittenBy(outcomes) && WrittenBy(outcomes)[outcomes[i].name] == outcomes[i].stamp
    ensures !outcomes[i].Written? ==> outcomes[i].name !in WrittenBy(outcomes)
  {
    var n := |outcomes| - 1;
    var before := outcomes[..n];
    if i < n {
      WrittenByDistinct(before, i);
      assert before[i] == outcomes[i];
    } else {
      WrittenByKeys(before, outcomes[i].name);
    }
  }

  /**
   * Over a whole run: a candidate's file appears in the output directory exactly when
   * its date was found, its image decoded, the output directory exists and the write
   * succeeded, and then it holds that image with that date drawn on it. In particular
   * a file without a date is skipped and nothing is written for it.
   */
  lemma {:induction false} RunWrites(config: WatermarkConfig, ready: bool, files: seq<FileInput>,
                                     outcomes: seq<Outcome>, i: nat)
    requires DistinctNames(files) && i < |files| && |outcomes| == |files|
    requires forall k :: 0 <= k < |files| ==> outcomes[k] == ProcessImage(config, ready, files[k])
    ensures var f := files[i];
      files[i].name in WrittenBy(outcomes) <==>
        ExtractExifDate(f.metadata).Date? && f.image.Some? && ready && f.writeSucceeds
    ensures var f := files[i];
      files[i].name in WrittenBy(outcomes) ==>
        WrittenBy(outcomes)[f.name] == Render(f.image.value, ExtractExifDate(f.metadata).value, config, f.metrics)
    ensures ExtractExifDate(files[i].metadata).NoDate? ==>
      outcomes[i] == SkippedNoDate(files[i].name) && files[i].name !in WrittenBy(outcomes)
  {
    forall j, k | 0 <= j < k < |outcomes| ensures outcomes[j].name != outcomes[k].name {
      assert outcomes[j].name == files[j].name && outcomes[k].name == files[k].name;
    }
    WrittenByDistinct(outcomes, i);
  }

  /**
   * Two photos, one dated 2023:07:15 and one without metadata, placed at the centre:
   * both are candidates, the first is written with "2023-07-15" drawn at the centre
   * anchor, the second is skipped, and only "a.jpg" appears in the output directory.
   */
  lemma TwoPhotoScenario(config: WatermarkConfig, raw: string, a: FileInput, b: FileInput)
    requires config.position == "center"
    requires raw == "2023:07:15 14:30:00"
    requires a.name == "a.jpg" && a.metadata == DateTime(raw) && a.image.Some? && a.writeSucceeds
    requires b.name == "b.jpg" && b.metadata == NoMetadata
    ensures Candidates([a, b]) == [a, b]
    ensures var outcomes := [ProcessImage(config, true, a), ProcessImage(config, true, b)];
      && outcomes[0].Written?
      && outcomes[0].stamp.text == "2023-07-15"
      && outcomes[0].stamp.at == Place(a.image.value.width, a.image.value.height, a.metrics, "center")
      && outcomes[1] == SkippedNoDate("b.jpg")
      && WrittenBy(outcomes).Keys == {"a.jpg"}
  {
    ScenarioListing(a, b);
    ScenarioDated(config, raw, a);
    ScenarioWritten(config, a, b);
  }

  lemma ScenarioListing(a: FileInput, b: FileInput)
    requires a.name == "a.jpg" && b.name == "b.jpg"
    ensures Candidates([a, b]) == [a, b]
  {
    CandidateIgnoresCase(a.name);
    CandidateIgnoresCase(b.name);
    assert Candidates([a, b]) == [a] + Candidates([b]);
    assert Candidates([b]) == [b] + Candidates([]);
  }

  lemma ScenarioDated(config: WatermarkConfig, raw: string, a: FileInput)
    requires raw == "2023:07:15 14:30:00"
    requires a.metadata == DateTime(raw) && a.image.Some? && a.writeSucceeds
    ensures ProcessImage(config, true, a).Written?
    ensures ProcessImage(config, true, a).stamp.text == "2023-07-15"
  {
    NormalizeExample(raw);
    assert ExtractExifDate(a.metadata) == Date("2023-07-15");
  }

  lemma ScenarioWritten(config: WatermarkConfig, a: FileInput, b: FileInput)
    requires a.name == "a.jpg" && ProcessImage(config, true, a).Written? && b.metadata == NoMetadata
    ensures WrittenBy([ProcessImage(config, true, a), ProcessImage(config, true, b)]).Keys == {"a.jpg"}
  {
    var outcomes := [ProcessImage(config, true, a), ProcessImage(config, true, b)];
    assert outcomes[..1] == [outcomes[0]];
    assert WrittenBy(outcomes[..1]) == map["a.jpg" := outcomes[0].stamp] by {
      assert outcomes[..1][..0] == [];
    }
  }

  /**
   * The `for` loop of `main`: each file, in listing order, goes through
   * `processImage`, whose catch clause keeps a failure from reaching the loop.
   */
  method ProcessAll(config: WatermarkConfig, outputDirReady: bool, files: seq<FileInput>)
    returns (outcomes: seq<Outcome>, written: map<string, Stamp>)
    ensures |outcomes| == |files|
    ensures forall i :: 0 <= i < |files| ==> outcomes[i] == ProcessImage(config, outputDirReady, files[i])
    ensures written == WrittenBy(outcomes)
  {
    outcomes, written := [], map[];
    for i := 0 to |files|
      invariant |outcomes| == i
      invariant forall k :: 0 <= k < i ==> outcomes[k] == ProcessImage(config, outputDirReady, files[k])
      invariant written == WrittenBy(outcomes)
    {
      var outcome := ProcessImage(config, outputDirReady, files[i]);
      if outcome.Written? {
        written := written[outcome.name := outcome.stamp];
      }
      WrittenByAppend(outcomes, outcome);
      outcomes := outcomes + [outcome];
    }
  }

  /**
   * `main`: an invalid input path stops the run before the output directory is
   * touched; otherwise the output directory is made if missing, before the listing
   * is checked for images; then every candidate gets its outcome in listing order,
   * whatever happened to the files before it.
   */
  method RunBatch(config: WatermarkConfig, input: InputDir, outputDirExisted: bool, mkdirSucceeds: bool)
    returns (r: BatchResult, outputDirExists: bool)
    ensures r.InvalidPath? <==> !(input.present && input.isDirectory)
    ensures r.InvalidPath? ==> outputDirExists == outputDirExisted
    ensures !r.InvalidPath? ==> outputDirExists == (outputDirExisted || mkdirSucceeds)
    ensures !r.InvalidPath? ==>
      r.outputDir == OutputDirName(input.name) && r.outputDirReady == (outputDirExisted || mkdirSucceeds)
    ensures r.NoImages? <==>
      input.present && input.isDirectory && (input.listing.None? || Candidates(input.listing.value) == [])
    ensures r.Completed? ==>
      var files := Candidates(input.listing.value);
      && |r.outcomes| == |files|
      && (forall i :: 0 <= i < |files| ==> r.outcomes[i] == ProcessImage(config, r.outputDirReady, files[i]))
      && r.written == WrittenBy(r.outcomes)
  {
    outputDirExists := outputDirExisted;
    if !input.present || !input.isDirectory {
      return InvalidPath, outputDirExists;
    }
    var outputDir := OutputDirName(input.name);
    if !outputDirExists {
      outputDirExists := mkdirSucceeds;
    }
    if input.listing.None? {
      return NoImages(outputDir, outputDirExists), outputDirExists;
    }
    var files := Candidates(input.listing.value);
    if |files| == 0 {
      return NoImages(outputDir, outputDirExists), outputDirExists;
    }
    var outcomes, written := ProcessAll(config, outputDirExists, files);
    return Completed(outputDir, outputDirExists, outcomes, written), outputDirExists;
  }
}
