/**
 * The two transcription endpoints, `POST /predict` and `POST /predict/file`.
 * Each one checks the request, makes a scratch directory and its `output/`,
 * writes the upload to the scratch directory joined with the upload's filename
 * (which need not stay inside it), runs the transcription engine, and picks the
 * first `*.mid` file the engine left in `output/`. `/predict` returns the MIDI
 * bytes inline and removes the scratch directory on every way out;
 * `/predict/file` returns a reference to the MIDI file and never removes its
 * scratch directory.
 */
module Api {
  import opened Wrappers
  import opened Pathlib
  import opened Validation
  import opened Files

  // ---------------------------------------------------------------------------
  // The request, the engine and the response
  // ---------------------------------------------------------------------------

  /** The multipart upload: the declared filename ("" when absent) and the bytes. */
  datatype Upload = Upload(filename: string, content: Bytes)

  /** What the engine does when called: raise, or return having written these files into the output directory. */
  datatype EngineOutcome = Raises(message: string) | Completes(written: map<string, Bytes>)

  /** The engine writes plain directory entries into the output directory it is given. */
  predicate WritesEntries(engine: EngineOutcome) {
    engine.Completes? ==> forall n :: n in engine.written ==> IsPart(n) && n != ".."
  }

  /** The bundled model weights, the only model the service uses. */
  datatype ModelPath = Icassp2022ModelPath

  /** The arguments of one `predict_and_save` call. */
  datatype EngineCall = EngineCall(
    audioPathList: seq<string>,
    outputDirectory: string,
    saveMidi: bool,
    sonifyMidi: bool,
    saveModelOutputs: bool,
    saveNotes: bool,
    params: DetectionParams,
    model: ModelPath)

  /** The HTTP outcome of one request. */
  datatype Response =
    | InvalidQuery                                   // a query parameter outside its bounds
    | BadRequest(reason: Verdict)                    // the filename check failed
    | InternalError                                  // writing the upload raised
    | PredictionFailed(cause: string)                // "Prediction failed: <cause>"
    | NoMidiGenerated                                // "No MIDI file generated"
    | MidiPayload(midi: Bytes, filename: string)     // /predict: `midi_base64` is the base64 text of `midi`
    | MidiFile(path: Location, filename: string, mediaType: string)  // /predict/file
  {
    function StatusCode(): int {
      match this
      case InvalidQuery => 422
      case BadRequest(_) => 400
      case MidiPayload(_, _) => 200
      case MidiFile(_, _, _) => 200
      case _ => 500
    }

    predicate IsSuccess() {
      MidiPayload? || MidiFile?
    }
  }

  const OutputDirName: string := "output"
  const MidiMediaType: string := "audio/midi"

  /** `Path(tmpdir) / "output"`. */
  function OutputDir(ws: Location): Location {
    ws + [OutputDirName]
  }

  /** `Path(tmpdir) / file.filename`. */
  function InputPath(ws: Location, filename: string): PurePath {
    Join(PurePath(true, ws), Parse(filename))
  }

  /** The directories present when the handler writes the upload: the scratch directory and its `output`. */
  function WorkspaceDirs(dirs: set<Location>, ws: Location): set<Location> {
    dirs + {ws, OutputDir(ws)}
  }

  /** Where writing the upload puts it, given the directories before the request. */
  function UploadTarget(dirs: set<Location>, ws: Location, filename: string): Option<Location> {
    WriteTarget(WorkspaceDirs(dirs, ws), InputPath(ws, filename))
  }

  /** The engine call the handlers make, with the paths handed over as `str(...)`. */
  function EngineRequest(ws: Location, filename: string, params: DetectionParams): EngineCall {
    EngineCall([Str(InputPath(ws, filename))], Str(Join(PurePath(true, ws), PurePath(false, [OutputDirName]))),
      true, false, false, false, params, Icassp2022ModelPath)
  }

  /**
   * The call names the written upload and `output/` as the engine will read
   * them back, saves only the MIDI file, passes the detection parameters on
   * unchanged, and uses the bundled model.
   */
  predicate IsEngineRequest(call: EngineCall, ws: Location, filename: string, params: DetectionParams) {
    && |call.audioPathList| == 1
    && Parse(call.audioPathList[0]) == InputPath(ws, filename)
    && Parse(call.outputDirectory) == PurePath(true, OutputDir(ws))
    && call.saveMidi && !call.sonifyMidi && !call.saveModelOutputs && !call.saveNotes
    && call.params == params
    && call.model == Icassp2022ModelPath
  }

  /** The strings the handlers pass to the engine parse back to the upload's path and to `output/`. */
  lemma EngineRequestNamesPaths(ws: Location, filename: string, params: DetectionParams)
    requires Resolved(ws)
    ensures IsEngineRequest(EngineRequest(ws, filename, params), ws, filename, params)
  {
    var input := InputPath(ws, filename);
    assert WellFormed(input) by {
      ParseWellFormed(filename);
      var rel := Parse(filename);
      if !rel.rooted {
        forall k | 0 <= k < |input.parts| ensures IsPart(input.parts[k]) {
          if k >= |ws| {
            assert input.parts[k] == rel.parts[k - |ws|];
          }
        }
      }
    }
    ParseOfStr(input);
    var outDir := PurePath(true, OutputDir(ws));
    assert Join(PurePath(true, ws), PurePath(false, [OutputDirName])) == outDir;
    assert WellFormed(outDir);
    ParseOfStr(outDir);
  }

  /** The glob pattern `*.mid` on POSIX: case-sensitive, names starting with a dot included. */
  predicate IsMidiName(n: string) {
    |n| >= |MidiExtension| && n[|n| - |MidiExtension|..] == MidiExtension
  }

  /** `dir.glob("*.mid")`, as a set: the files directly in `dir` whose name matches. */
  function MidiEntries(files: map<Location, Bytes>, dir: Location): set<Location> {
    set loc | loc in files && |loc| == |dir| + 1 && loc[..|dir|] == dir && IsMidiName(loc[|dir|])
  }

  /** The response the checks before any disk access give, or None when the request goes on. */
  function Admission(params: DetectionParams, filename: string): Option<Response> {
    if !InRange(params) then Some(InvalidQuery)
    else
      var verdict := Validate(filename);
      if verdict != Accepted then Some(BadRequest(verdict)) else None
  }

  /**
   * The checks before any disk access: 422 exactly when a parameter is out of
   * bounds; otherwise 400 exactly when the filename's final component does not
   * end, in any case, with an allowed extension that has something before it.
   */
  lemma AdmissionStatus(params: DetectionParams, filename: string)
    ensures Admission(params, filename).None? <==> InRange(params) && EndsWithAllowed(Name(filename))
    ensures Admission(params, filename).Some? ==>
      Admission(params, filename).value.StatusCode() == if InRange(params) then 400 else 422
  {
    AcceptedIffEndsWithAllowed(filename);
  }

  /**
   * The request pipeline both endpoints follow, from the request, the place
   * the upload lands (`target`) and the engine's behaviour: the first failing
   * step decides the response, and the engine is called exactly when every
   * step before it succeeded.
   */
  predicate Outcome(resp: Response, call: Option<EngineCall>, ws: Location, upload: Upload,
                    params: DetectionParams, target: Option<Location>, engine: EngineOutcome)
  {
    if !InRange(params) then resp == InvalidQuery && call == None
    else if Validate(upload.filename) != Accepted then resp == BadRequest(Validate(upload.filename)) && call == None
    else if target == None then resp == InternalError && call == None
    else
      && call.Some? && IsEngineRequest(call.value, ws, upload.filename, params)
      && match engine
         case Raises(message) => resp == PredictionFailed(message)
         case Completes(written) =>
           if forall n :: n in written ==> !IsMidiName(n) then resp == NoMidiGenerated
           else resp.IsSuccess() && resp.filename == OutputFilename(upload.filename)
  }

  // ---------------------------------------------------------------------------
  // Facts the handlers rely on
  // ---------------------------------------------------------------------------

  /** The name ".mid" alone has no suffix, since its only dot comes first. */
  lemma BareMidiNameHasNoSuffix(filename: string)
    requires Name(filename) == MidiExtension
    ensures Suffix(filename) == ""
  {
    var name := Name(filename);
    forall ext ensures !IsExtension(name, ext) {
    }
    NoExtension(filename);
  }

  /** A longer name ending in ".mid" has ".mid" as its suffix. */
  lemma MidiNameSuffix(filename: string)
    requires IsMidiName(Name(filename)) && |Name(filename)| > |MidiExtension|
    ensures Suffix(filename) == MidiExtension
  {
    assert IsExtension(Name(filename), MidiExtension);
    SuffixIsTheExtension(filename, MidiExtension);
  }

  /** An accepted upload's final component never matches `*.mid`, so the upload is never taken for the result. */
  lemma AcceptedNameIsNotMidi(filename: string)
    requires Validate(filename) == Accepted
    ensures !IsMidiName(Name(filename))
  {
    var name := Name(filename);
    assert Lower(MidiExtension) == MidiExtension by {
      assert forall k :: 0 <= k < |MidiExtension| ==> LowerChar(MidiExtension[k]) == MidiExtension[k];
    }
    assert Lower("") !in AllowedExtensions;
    if IsMidiName(name) {
      if |name| > |MidiExtension| {
        MidiNameSuffix(filename);
      } else {
        BareMidiNameHasNoSuffix(filename);
      }
    }
  }

  /** The upload lands under the name of the filename's final component. */
  lemma UploadTargetName(dirs: set<Location>, ws: Location, filename: string)
    requires Validate(filename) == Accepted
    requires WriteTarget(dirs, InputPath(ws, filename)).Some?
    ensures var t := WriteTarget(dirs, InputPath(ws, filename)).value; t != [] && t[|t| - 1] == Name(filename)
  {
    var rel := Parse(filename);
    var p := InputPath(ws, filename);
    assert rel.parts != [] by {
      AcceptedHasName(filename);
    }
    assert Name(filename) == rel.parts[|rel.parts| - 1];
    assert p.parts != [] && p.parts[|p.parts| - 1] == rel.parts[|rel.parts| - 1] by {
      if !rel.rooted {
        assert p.parts == ws + rel.parts;
      }
    }
    WriteTargetName(dirs, p);
  }

  /** An accepted filename has a final component. */
  lemma AcceptedHasName(filename: string)
    requires Validate(filename) == Accepted
    ensures Name(filename) != "" && Parse(filename).parts != []
  {
    assert Lower("") !in AllowedExtensions;
  }

  /** Before the engine runs, nothing in the fresh `output/` matches `*.mid`: at most the upload is there. */
  lemma NoMidiBeforeEngine(before: map<Location, Bytes>, target: Location, content: Bytes, ws: Location, filename: string)
    requires forall loc :: loc in before ==> !Within(loc, ws)
    requires Validate(filename) == Accepted
    requires target != [] && target[|target| - 1] == Name(filename)
    ensures var outDir := OutputDir(ws);
      forall loc :: loc in before[target := content] && |loc| == |outDir| + 1 && loc[..|outDir|] == outDir ==>
        !IsMidiName(loc[|outDir|])
  {
    var outDir := OutputDir(ws);
    AcceptedNameIsNotMidi(filename);
    forall loc | loc in before[target := content] && |loc| == |outDir| + 1 && loc[..|outDir|] == outDir
      ensures !IsMidiName(loc[|outDir|])
    {
      assert Within(loc, ws) by { assert loc[..|ws|] == outDir[..|ws|]; }
    }
  }

  /** Once the upload is written, still nothing in the fresh `output/` matches `*.mid`. */
  lemma UploadLeavesNoMidi(dirs: set<Location>, files: map<Location, Bytes>, ws: Location, filename: string, content: Bytes)
    requires Validate(filename) == Accepted
    requires forall loc :: loc in files ==> !Within(loc, ws)
    requires WriteTarget(dirs, InputPath(ws, filename)).Some?
    ensures var outDir := OutputDir(ws);
      var after := files[WriteTarget(dirs, InputPath(ws, filename)).value := content];
      forall loc :: loc in after && |loc| == |outDir| + 1 && loc[..|outDir|] == outDir ==> !IsMidiName(loc[|outDir|])
  {
    UploadTargetName(dirs, ws, filename);
    NoMidiBeforeEngine(files, WriteTarget(dirs, InputPath(ws, filename)).value, content, ws, filename);
  }

  /** When the scratch directory held no subdirectory, `output/` has none either once made. */
  lemma OnlyOutputBelowOutput(dirs: set<Location>, ws: Location)
    requires forall d :: d in dirs && Within(d, ws) ==> d == ws
    ensures forall d :: d in dirs + {OutputDir(ws)} && Within(d, OutputDir(ws)) ==> d == OutputDir(ws)
  {
    forall d | d in dirs + {OutputDir(ws)} && Within(d, OutputDir(ws)) ensures d == OutputDir(ws) {
      assert Within(d, ws) by { assert d[..|ws|] == OutputDir(ws)[..|ws|]; }
    }
  }

  /** After the engine ran, the `*.mid` entries of the output directory are exactly the matching files the engine wrote. */
  lemma MidiEntriesAfterEngine(before: map<Location, Bytes>, dir: Location, written: map<string, Bytes>)
    requires forall loc :: loc in before && |loc| == |dir| + 1 && loc[..|dir|] == dir ==> !IsMidiName(loc[|dir|])
    ensures forall loc :: loc in MidiEntries(before + FilesIn(dir, written), dir) <==>
      |loc| == |dir| + 1 && loc[..|dir|] == dir && loc[|dir|] in written && IsMidiName(loc[|dir|])
  {
    var produced := FilesIn(dir, written);
    forall loc | |loc| == |dir| + 1 && loc[..|dir|] == dir && loc[|dir|] in written
      ensures loc in produced
    {
      assert loc == dir + [loc[|dir|]];
    }
  }

  /** The glob comes back empty exactly when the engine wrote no `*.mid` file. */
  lemma NoMidiEntriesIffNoneWritten(before: map<Location, Bytes>, dir: Location, written: map<string, Bytes>)
    requires forall loc :: loc in before && |loc| == |dir| + 1 && loc[..|dir|] == dir ==> !IsMidiName(loc[|dir|])
    ensures MidiEntries(before + FilesIn(dir, written), dir) == {} <==> forall n :: n in written ==> !IsMidiName(n)
  {
    MidiEntriesAfterEngine(before, dir, written);
    if exists n :: n in written && IsMidiName(n) {
      var n :| n in written && IsMidiName(n);
      var loc := dir + [n];
      assert loc[..|dir|] == dir && loc[|dir|] == n;
    }
  }

  /**
   * The files after the steps inside the scratch directory: the upload, when it
   * could be written, and then whatever the engine wrote into `output/`.
   */
  function FilesAfterRun(before: map<Location, Bytes>, target: Option<Location>, content: Bytes,
                         engine: EngineOutcome, outDir: Location): map<Location, Bytes>
  {
    if target.None? then before
    else if engine.Raises? then before[target.value := content]
    else before[target.value := content] + FilesIn(outDir, engine.written)
  }

  /** Removing the scratch tree after a run leaves the files as they were, except an upload written outside it. */
  lemma CleanupKeepsEscapedUpload(before: map<Location, Bytes>, ws: Location, target: Option<Location>,
                                  content: Bytes, engine: EngineOutcome)
    requires forall loc :: loc in before ==> !Within(loc, ws)
    ensures Outside(FilesAfterRun(before, target, content, engine, OutputDir(ws)), ws) ==
      if target.Some? && !Within(target.value, ws) then before[target.value := content] else before
  {
    if target.Some? {
      var written := before[target.value := content];
      if engine.Completes? {
        OutsideDropsOutput(written, ws, engine.written);
      }
      OutsideOfFresh(before, ws, target.value, content);
    } else {
      OutsideOfFresh(before, ws, [], []);
    }
  }

  /** Files the engine writes into `output/` all lie in the scratch directory. */
  lemma OutsideDropsOutput(files: map<Location, Bytes>, ws: Location, written: map<string, Bytes>)
    ensures Outside(files + FilesIn(OutputDir(ws), written), ws) == Outside(files, ws)
  {
    var produced := FilesIn(OutputDir(ws), written);
    forall loc | loc in produced ensures Within(loc, ws) {
      assert loc[..|ws|] == OutputDir(ws)[..|ws|];
    }
    OutsideIgnoresInside(files, produced, ws);
  }

  /** Removing a fresh scratch tree leaves exactly the directories and scratch directories there were before it. */
  lemma RemovingWorkspaceRestores(dirs: set<Location>, workspaces: set<Location>, ws: Location)
    requires workspaces <= dirs
    requires forall d :: d in dirs ==> !Within(d, ws)
    ensures (set d | d in WorkspaceDirs(dirs, ws) && !Within(d, ws)) == dirs
    ensures (set w | w in workspaces + {ws} && !Within(w, ws)) == workspaces
  {
    assert Within(OutputDir(ws), ws);
  }

  // ---------------------------------------------------------------------------
  // The pipeline inside the scratch directory
  // ---------------------------------------------------------------------------

  /** How the steps inside the scratch directory end: a failure response, or the chosen MIDI file. */
  datatype Stage = Failed(response: Response) | Picked(artifact: Location)

  /** How the steps inside the scratch directory end, for an admitted request. */
  predicate StageOutcome(stage: Stage, call: Option<EngineCall>, ws: Location, upload: Upload,
                         params: DetectionParams, target: Option<Location>, engine: EngineOutcome)
  {
    if target == None then stage == Failed(InternalError) && call == None
    else
      && call == Some(EngineRequest(ws, upload.filename, params))
      && match engine
         case Raises(message) => stage == Failed(PredictionFailed(message))
         case Completes(written) =>
           if forall n :: n in written ==> !IsMidiName(n) then stage == Failed(NoMidiGenerated) else stage.Picked?
  }

  /**
   * Packaging keeps the pipeline's verdict: a failed stage is the response, and a
   * picked artifact becomes a success named after the upload.
   */
  lemma PackagingFollowsPipeline(resp: Response, stage: Stage, call: Option<EngineCall>, ws: Location, upload: Upload,
                                 params: DetectionParams, target: Option<Location>, engine: EngineOutcome)
    requires InRange(params) && Validate(upload.filename) == Accepted && Resolved(ws)
    requires StageOutcome(stage, call, ws, upload, params, target, engine)
    requires stage.Failed? ==> resp == stage.response
    requires stage.Picked? ==> resp.IsSuccess() && resp.filename == OutputFilename(upload.filename)
    ensures Outcome(resp, call, ws, upload, params, target, engine)
    ensures call.Some? ==> call.value == EngineRequest(ws, upload.filename, params)
  {
    if target.Some? {
      EngineRequestNamesPaths(ws, upload.filename, params);
    }
  }

  /** `output_dir.mkdir()` and `input_path.write_bytes(content)`; `wrote` is false where writing raises. */
  method WriteUpload(fs: FileSystem, ws: Location, upload: Upload) returns (wrote: bool)
    requires fs.Valid() && ws in fs.dirs && ws != []
    requires forall d :: d in fs.dirs && Within(d, ws) ==> d == ws
    requires forall loc :: loc in fs.files ==> !Within(loc, ws)
    modifies fs
    ensures fs.Valid()
    ensures fs.dirs == old(fs.dirs) + {OutputDir(ws)} && fs.workspaces == old(fs.workspaces)
    ensures var target := WriteTarget(old(fs.dirs) + {OutputDir(ws)}, InputPath(ws, upload.filename));
      && wrote == target.Some?
      && fs.files == if wrote then old(fs.files)[target.value := upload.content] else old(fs.files)
  {
    var outDir := OutputDir(ws);
    assert Within(outDir, ws);
    fs.MakeDir(outDir);
    wrote := fs.WriteBytes(InputPath(ws, upload.filename), upload.content);
  }

  /**
   * The engine's files appear in `output/`, then `output_dir.glob("*.mid")` and
   * its first entry. The glob's order is up to the filesystem, so the pick is
   * any matching entry.
   */
  method CollectMidi(fs: FileSystem, outDir: Location, written: map<string, Bytes>) returns (stage: Stage)
    requires fs.Valid() && outDir in fs.dirs
    requires forall n :: n in written ==> IsPart(n) && n != ".."
    requires forall d :: d in fs.dirs && Within(d, outDir) ==> d == outDir
    requires forall loc :: loc in fs.files && |loc| == |outDir| + 1 && loc[..|outDir|] == outDir ==>
      !IsMidiName(loc[|outDir|])
    modifies fs
    ensures fs.Valid()
    ensures fs.dirs == old(fs.dirs) && fs.workspaces == old(fs.workspaces)
    ensures fs.files == old(fs.files) + FilesIn(outDir, written)
    ensures if forall n :: n in written ==> !IsMidiName(n) then stage == Failed(NoMidiGenerated) else stage.Picked?
    ensures stage.Picked? ==>
      && stage.artifact in MidiEntries(fs.files, outDir)
      && var n := stage.artifact[|outDir|];
         n in written && IsMidiName(n) && stage.artifact == outDir + [n] && fs.files[stage.artifact] == written[n]
  {
    ghost var before := fs.files;
    forall n | n in written ensures outDir + [n] !in fs.dirs {
      assert Within(outDir + [n], outDir);
    }
    fs.SaveFiles(outDir, written);
    MidiEntriesAfterEngine(before, outDir, written);
    NoMidiEntriesIffNoneWritten(before, outDir, written);
    var midiFiles := MidiEntries(fs.files, outDir);
    if midiFiles == {} {
      stage := Failed(NoMidiGenerated);
    } else {
      var first :| first in midiFiles;
      assert first == outDir + [first[|outDir|]];
      stage := Picked(first);
    }
  }

  /**
   * `predict_and_save`, then the glob of `output/`: a raising engine ends the
   * request with "Prediction failed"; otherwise its files are collected.
   */
  method RunEngine(fs: FileSystem, outDir: Location, engine: EngineOutcome) returns (stage: Stage)
    requires fs.Valid() && outDir in fs.dirs && WritesEntries(engine)
    requires forall d :: d in fs.dirs && Within(d, outDir) ==> d == outDir
    requires forall loc :: loc in fs.files && |loc| == |outDir| + 1 && loc[..|outDir|] == outDir ==>
      !IsMidiName(loc[|outDir|])
    modifies fs
    ensures fs.Valid()
    ensures fs.dirs == old(fs.dirs) && fs.workspaces == old(fs.workspaces)
    ensures fs.files == if engine.Completes? then old(fs.files) + FilesIn(outDir, engine.written) else old(fs.files)
    ensures match engine
      case Raises(message) => stage == Failed(PredictionFailed(message))
      case Completes(written) =>
        if forall n :: n in written ==> !IsMidiName(n) then stage == Failed(NoMidiGenerated) else stage.Picked?
    ensures stage.Picked? ==>
      && engine.Completes?
      && stage.artifact in MidiEntries(fs.files, outDir)
      && var n := stage.artifact[|outDir|];
         n in engine.written && IsMidiName(n) && stage.artifact == outDir + [n]
         && fs.files[stage.artifact] == engine.written[n]
  {
    match engine {
      case Raises(message) =>
        stage := Failed(PredictionFailed(message));
      case Completes(written) =>
        stage := CollectMidi(fs, outDir, written);
    }
  }

  /**
   * The steps both handlers run once the scratch directory `ws` exists: make
   * `output/`, write the upload, call the engine, and pick the first `*.mid`
   * entry of `output/`.
   */
  method RunInWorkspace(fs: FileSystem, ws: Location, upload: Upload, params: DetectionParams, engine: EngineOutcome)
    returns (stage: Stage, call: Option<EngineCall>)
    requires fs.Valid() && ws in fs.dirs && ws != []
    requires forall d :: d in fs.dirs && Within(d, ws) ==> d == ws
    requires forall loc :: loc in fs.files ==> !Within(loc, ws)
    requires Validate(upload.filename) == Accepted
    requires WritesEntries(engine)
    modifies fs
    ensures fs.Valid()
    ensures fs.dirs == old(fs.dirs) + {OutputDir(ws)} && fs.workspaces == old(fs.workspaces)
    ensures var target := WriteTarget(old(fs.dirs) + {OutputDir(ws)}, InputPath(ws, upload.filename));
      && fs.files == FilesAfterRun(old(fs.files), target, upload.content, engine, OutputDir(ws))
      && StageOutcome(stage, call, ws, upload, params, target, engine)
    ensures stage.Picked? ==>
      && call.Some? && engine.Completes?
      && stage.artifact in MidiEntries(fs.files, OutputDir(ws))
      && var n := stage.artifact[|OutputDir(ws)|];
         n in engine.written && IsMidiName(n) && stage.artifact == OutputDir(ws) + [n]
         && fs.files[stage.artifact] == engine.written[n]
  {
    var wrote := WriteUpload(fs, ws, upload);
    if !wrote {
      return Failed(InternalError), None;
    }
    call := Some(EngineRequest(ws, upload.filename, params));
    UploadLeavesNoMidi(old(fs.dirs) + {OutputDir(ws)}, old(fs.files), ws, upload.filename, upload.content);
    OnlyOutputBelowOutput(old(fs.dirs), ws);
    stage := RunEngine(fs, OutputDir(ws), engine);
  }

  // ---------------------------------------------------------------------------
  // The endpoints
  // ---------------------------------------------------------------------------

  /**
   * `POST /predict`. The scratch directory lives in a `with` block, so it is
   * removed on every way out once made; the MIDI bytes are read before that.
   * `ws` is the name `tempfile` picks.
   */
  method PredictAudio(fs: FileSystem, upload: Upload, params: DetectionParams, ws: Location, engine: EngineOutcome)
    returns (resp: Response, call: Option<EngineCall>)
    requires fs.Valid() && fs.FreshName(ws) && WritesEntries(engine)
    modifies fs
    ensures fs.Valid()
    ensures Outcome(resp, call, ws, upload, params, UploadTarget(old(fs.dirs), ws, upload.filename), engine)
    ensures Admission(params, upload.filename).Some? ==>
      fs.dirs == old(fs.dirs) && fs.files == old(fs.files) && fs.workspaces == old(fs.workspaces)
    ensures fs.workspaces == old(fs.workspaces) && fs.dirs == old(fs.dirs)
    ensures var target := UploadTarget(old(fs.dirs), ws, upload.filename);
      Admission(params, upload.filename).None? ==>
        fs.files == if target.Some? && !Within(target.value, ws) then old(fs.files)[target.value := upload.content]
                    else old(fs.files)
    ensures call.Some? ==> call.value == EngineRequest(ws, upload.filename, params)
    ensures resp.MidiFile? ==> false
    ensures resp.MidiPayload? ==>
      && engine.Completes?
      && exists n :: n in engine.written && IsMidiName(n) && resp.midi == engine.written[n]
  {
    var rejection := Admission(params, upload.filename);
    if rejection.Some? {
      return rejection.value, None;
    }
    fs.MakeTempDir(ws);
    ghost var dirsBefore := old(fs.dirs);
    assert fs.dirs + {OutputDir(ws)} == WorkspaceDirs(dirsBefore, ws);
    ghost var filesBefore := old(fs.files);
    ghost var target := UploadTarget(dirsBefore, ws, upload.filename);
    var stage;
    stage, call := RunInWorkspace(fs, ws, upload, params, engine);
    ghost var picked := fs.files;
    match stage {
      case Failed(failure) =>
        resp := failure;
      case Picked(artifact) =>
        var midiData := fs.files[artifact];
        resp := MidiPayload(midiData, OutputFilename(upload.filename));
    }
    fs.RemoveTree(ws);
    RemovingWorkspaceRestores(dirsBefore, old(fs.workspaces), ws);
    PackagingFollowsPipeline(resp, stage, call, ws, upload, params, target, engine);
    CleanupKeepsEscapedUpload(filesBefore, ws, target, upload.content, engine);
  }

  /**
   * `POST /predict/file`. The scratch directory comes from `mkdtemp` and
   * nothing removes it: it stays behind after the success and after every
   * failure that follows its creation.
   */
  method PredictAudioFile(fs: FileSystem, upload: Upload, params: DetectionParams, ws: Location, engine: EngineOutcome)
    returns (resp: Response, call: Option<EngineCall>)
    requires fs.Valid() && fs.FreshName(ws) && WritesEntries(engine)
    modifies fs
    ensures fs.Valid()
    ensures Outcome(resp, call, ws, upload, params, UploadTarget(old(fs.dirs), ws, upload.filename), engine)
    ensures Admission(params, upload.filename).Some? ==>
      fs.dirs == old(fs.dirs) && fs.files == old(fs.files) && fs.workspaces == old(fs.workspaces)
    ensures Admission(params, upload.filename).None? ==>
      fs.workspaces == old(fs.workspaces) + {ws} && fs.dirs == WorkspaceDirs(old(fs.dirs), ws)
    ensures Admission(params, upload.filename).None? ==>
      fs.files == FilesAfterRun(old(fs.files), UploadTarget(old(fs.dirs), ws, upload.filename), upload.content,
                                engine, OutputDir(ws))
    ensures call.Some? ==> call.value == EngineRequest(ws, upload.filename, params)
    ensures resp.MidiPayload? ==> false
    ensures resp.MidiFile? ==>
      && engine.Completes?
      && resp.mediaType == MidiMediaType
      && resp.path in MidiEntries(fs.files, OutputDir(ws))
      && exists n :: n in engine.written && IsMidiName(n) && resp.path == OutputDir(ws) + [n]
                     && fs.files[resp.path] == engine.written[n]
  {
    var rejection := Admission(params, upload.filename);
    if rejection.Some? {
      return rejection.value, None;
    }
    fs.MakeTempDir(ws);
    assert fs.dirs + {OutputDir(ws)} == WorkspaceDirs(old(fs.dirs), ws);
    ghost var target := UploadTarget(old(fs.dirs), ws, upload.filename);
    var stage;
    stage, call := RunInWorkspace(fs, ws, upload, params, engine);
    match stage {
      case Failed(failure) =>
        resp := failure;
      case Picked(artifact) =>
        resp := MidiFile(artifact, OutputFilename(upload.filename), MidiMediaType);
    }
    PackagingFollowsPipeline(resp, stage, call, ws, upload, params, target, engine);
  }
}
