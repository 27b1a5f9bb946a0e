# Basic Pitch transcription API, modelled in Dafny

`api.py` is a small FastAPI service around Spotify's Basic Pitch
audio-to-MIDI engine. It has two transcription endpoints:

- `POST /predict` returns the MIDI file as base64 text in a JSON body.
- `POST /predict/file` returns the MIDI file itself.

Both endpoints first check the query parameters (FastAPI's `ge`/`le`
bounds) and the upload's filename. The filename must be present and its
lower-cased `pathlib` suffix must be one of `.wav`, `.mp3`, `.ogg`,
`.flac` and `.m4a`. Each endpoint then does the following:

1. Makes a scratch directory.
2. Creates `scratch / "output"`.
3. Writes the upload to `scratch / filename`. This path need not lie inside
   the scratch directory: `..` and a leading `/` take it elsewhere.
4. Calls `predict_and_save`, saving only the MIDI file.
5. Takes the first `*.mid` entry that `output/` holds.
6. Names the result `stem + ".mid"`.

`/predict` keeps its scratch directory in a `with tempfile.TemporaryDirectory()`
block, so the directory is removed on every exit. `/predict/file` uses
`tempfile.mkdtemp()` and never removes it.

The project has these modules:

- `Wrappers` holds `Option`.
- `Pathlib` models the parts of CPython's `PurePosixPath` the service
  uses: parsing, `str()`, `name`, `suffix`, `stem` and the `/` operator.
  A leading `//` is read as `/` (see "## Left out").
- `Validation` models the filename check, the name of the returned file
  and the detection parameters with their bounds.
- `Files` models a POSIX file system as a class. It has directories,
  files with their bytes, and the live scratch directories. It also
  models how the OS resolves a path when writing (`..` climbs; every
  other directory component must exist).
- `Api` models the two handlers as module-level methods that take the
  `FileSystem` as a parameter and change it. The engine is a parameter:
  it either raises or writes a set of files into the output directory.
- `Scenarios` runs particular filenames and upload paths through the
  model, and one whole `/predict` request from a fresh file system.

The response datatype covers every outcome:

| outcome | status |
|---|---|
| `InvalidQuery` | 422 |
| `BadRequest` | 400 |
| `InternalError` (writing the upload raised) | 500 |
| `PredictionFailed` | 500 |
| `NoMidiGenerated` | 500 |
| `MidiPayload` (`/predict`) | 200 |
| `MidiFile` (`/predict/file`) | 200 |

Three behaviours of `api.py` worth knowing:

- `/predict/file` never releases its scratch directory.
- The pick among several `*.mid` files is whatever `glob` yields first,
  which is the file system's order, not necessarily lexicographic.
- A query parameter out of bounds gives FastAPI's 422, not 400. That
  check runs before the filename check.

## Model

| member | source | states |
|---|---|---|
| Pathlib.FindSep | api.py:55 | the index of the first `/` of the string, or its length when it has none |
| Pathlib.Split | api.py:55 | splitting at `/` gives at least one piece |
| Pathlib.SplitHasNoSep | api.py:55 | no piece of a split holds a `/` |
| Pathlib.JoinSepSplit | api.py:55 | splitting at `/` loses nothing: joining the pieces gives the string back |
| Pathlib.JoinSepCons | api.py:55 | joining a piece in front of others puts exactly one `/` between them |
| Pathlib.SplitJoinSep | api.py:55 | pieces without `/`, once joined, split back into the same pieces |
| Pathlib.FindSepOfPiece | api.py:55 | when a piece without `/` is followed by `/…`, the first `/` comes right after the piece |
| Pathlib.JoinSepAppend | api.py:63 | joining two lists of pieces one after the other puts exactly one `/` between their joins |
| Pathlib.SplitAppend | api.py:63 | splitting `a/b` gives the pieces of `a` followed by the pieces of `b` |
| Pathlib.PartsAreKept | api.py:55 | parsing keeps exactly the pieces that are neither empty nor `.` |
| Pathlib.PartsAppend | api.py:63 | parsing keeps pieces one at a time, so it distributes over concatenation |
| Pathlib.Parse | api.py:55 | `PurePosixPath(s)`: absolute iff `s` starts with `/`; what the components are is stated by Pathlib.PartsAreKept and Pathlib.ParseWellFormed, and that a path survives `str()` by Pathlib.ParseOfStr |
| Pathlib.ParseWellFormed | api.py:55 | every parsed component is non-empty, is not `.`, and holds no `/` |
| Pathlib.ParseJoined | api.py:55 | parsing pieces joined by `/` keeps the pieces parsing keeps |
| Pathlib.PartsKeepsKept | api.py:55 | pieces that are all kept survive parsing unchanged |
| Pathlib.ParseOfParts | api.py:55 | components joined by `/` parse back to themselves, and the last one is the name |
| Pathlib.Str | api.py:72-73 | `str(path)`, the form in which the paths reach the engine; Pathlib.ParseOfStr states that nothing is lost |
| Pathlib.ParseOfStr | api.py:72-73 | parsing `str(p)` gives back `p` for every well-formed path, absolute or relative, with or without components |
| Pathlib.Join | api.py:63 | the `/` operator on parsed paths; its meaning on the strings it comes from is stated by Pathlib.JoinOfParsed |
| Pathlib.JoinOfParsed | api.py:63 | `Path(a) / b` is the path of the string `a + "/" + b` when `b` is relative, and the path of `b` alone when `b` starts with `/` |
| Pathlib.Name | api.py:55 | `PurePosixPath(s).name`, the last component or ""; stated by Pathlib.NameIsPart and Pathlib.ParseOfParts |
| Pathlib.NameIsPart | api.py:55 | `name` is "" or a single component: it holds no `/` and is never `.` |
| Pathlib.RFind | api.py:55 | `rfind('.')`: the last index holding the character, or -1 |
| Pathlib.Suffix | api.py:55 | `PurePosixPath(s).suffix`; stated by Pathlib.StemSuffix and Pathlib.SuffixIsTheExtension |
| Pathlib.Stem | api.py:96 | `PurePosixPath(s).stem`; stated by Pathlib.StemSuffix and Validation.OutputFilenameReplacesSuffix |
| Pathlib.StemSuffixOfName | api.py:55 | a component's stem and suffix concatenate to the component; the suffix is "" or the component's extension; a non-empty component has a non-empty stem |
| Pathlib.SuffixOfNameIsTheExtension | api.py:55 | a component has at most one extension, meaning a final `.x…` that is not the whole component, and its suffix is exactly that extension |
| Pathlib.StemSuffix | api.py:55 | `stem + suffix == name` for every path; the suffix is "" or the name's extension |
| Pathlib.SuffixIsTheExtension | api.py:55 | a path's `suffix` is exactly its name's extension, when there is one |
| Pathlib.NoExtensionOfName | api.py:55 | a component without an extension has no suffix and is its own stem |
| Pathlib.NoExtension | api.py:55 | a name without an extension has suffix "" and is its own stem |
| Validation.LowerChar | api.py:55 | `.lower()` of one character, ASCII letters only; stated through Validation.EndsWithAllowedSuffix |
| Validation.Lower | api.py:55 | `.lower()` of the suffix; Validation.EndsWithAllowedSuffix states that an allowed extension in any case lower-cases to itself as the suffix |
| Validation.Validate | api.py:51-60 | the filename check; what it accepts is stated by Validation.AcceptedIffEndsWithAllowed |
| Validation.AllowedExtensionShape | api.py:54 | every allowed extension is a dot followed by at least one character that is not a dot |
| Validation.EmptyHasNoName | api.py:51 | the empty filename has no final component |
| Validation.AcceptedEndsWithAllowed | api.py:51-60 | an accepted filename's last component, lower-cased, ends with an allowed extension and has something before it |
| Validation.EndsWithAllowedSuffix | api.py:55-56 | a last component ending with an allowed extension, in any case, has that extension as its lower-cased suffix |
| Validation.EndsWithAllowedAccepted | api.py:51-60 | a filename whose last component ends with an allowed extension, in any case, passes the check |
| Validation.AcceptedIffEndsWithAllowed | api.py:115-124 | the filename check accepts exactly the filenames whose last component, lower-cased, ends with an allowed extension and is longer than it |
| Validation.OutputFilename | api.py:96 | `Path(filename).stem + ".mid"`; stated by Validation.OutputFilenameReplacesSuffix and Validation.AcceptedOutputFilenameHasStem |
| Validation.OutputFilenameReplacesSuffix | api.py:96 | the returned name is the last component with its suffix, whatever it was, replaced by `.mid`; it holds no `/` |
| Validation.AcceptedOutputFilenameHasStem | api.py:157 | for an accepted upload, something precedes `.mid` in the returned name |
| Validation.DefaultsInRange | api.py:40-44 | the default parameters 0.5, 0.3 and 58.0 lie within the `ge`/`le` bounds |
| Validation.InRange | api.py:40-42 | the `ge`/`le` bounds on the three thresholds; Api.AdmissionStatus states that a request outside them gets 422 |
| Files.Walk | api.py:68 | how the OS resolves a path when opening it; stated by Files.WalkDescends, Files.WalkAppend, Files.WalkMonotone and Files.ReachableChild |
| Files.WriteTarget | api.py:68 | the file `write_bytes` creates or truncates, or None where it raises; stated by Files.WriteTargetName, Files.RelativeWriteStaysWithin, Files.ParentRelativeWriteEscapes and Files.AbsoluteWriteEscapes |
| Files.WriteTargetName | api.py:68 | a file that can be written is named after the path's last component |
| Files.WalkDescends | api.py:63 | without `..`, resolving a path only descends |
| Files.WalkAppend | api.py:63 | resolving `a/b` is resolving `a`, then `b` from where `a` led |
| Files.WalkMonotone | api.py:62-65 | a path that resolves keeps resolving to the same place once more directories exist |
| Files.ReachableChild | api.py:64-65 | below a reachable directory, a child resolves iff it exists as a directory |
| Files.RelativeWriteStaysWithin | api.py:63 | a relative filename without `..` can only be written strictly inside the scratch directory |
| Files.ReachableExists | api.py:62 | a reachable directory other than the root exists |
| Files.ParentRelativeWriteEscapes | api.py:63 | `dir / "../name"` writes next to `dir`, outside it |
| Files.AbsoluteWriteEscapes | api.py:63 | `dir / "/name"` writes `/name`, outside `dir` |
| Files.FileSystem.constructor | api.py:62 | a file system holding only the root and the path to the system temporary directory |
| Files.FileSystem.MakeTempDir | api.py:126 | `mkdtemp` adds a fresh directory and records it as a live scratch directory; nothing else changes |
| Files.FileSystem.MakeDir | api.py:65 | `mkdir` adds the directory; files are unchanged |
| Files.FileSystem.WriteBytes | api.py:68 | `write_bytes` fails exactly where the OS cannot open the path; otherwise it creates or overwrites exactly that file |
| Files.FileSystem.SaveFiles | api.py:71-84 | the engine's files appear in the output directory and nothing else changes |
| Files.FileSystem.RemoveTree | api.py:62 | leaving the `with` block removes the directory and everything below it, and only that |
| Files.FilesIn | api.py:71-84 | the engine's files, placed in the output directory: each written name at `dir/name`, and nothing else |
| Files.Outside | api.py:62 | the files left after removing a tree; its meaning across a request is stated by Files.OutsideIgnoresInside and Files.OutsideOfFresh |
| Files.OutsideIgnoresInside | api.py:62 | files added below a directory leave no trace once the directory is removed |
| Files.OutsideOfFresh | api.py:62 | removing a directory that held no files changes nothing, and after one file is written only a file written outside it remains |
| Api.OutputDir | api.py:64 | `Path(tmpdir) / "output"`; Api.EngineRequestNamesPaths states the engine is pointed at it and Api.MidiEntriesAfterEngine that the glob reads it |
| Api.InputPath | api.py:63 | `Path(tmpdir) / file.filename`; its meaning is stated by Pathlib.JoinOfParsed, and where it lands by Files.RelativeWriteStaysWithin, Files.ParentRelativeWriteEscapes and Files.AbsoluteWriteEscapes |
| Api.EngineRequest | api.py:70-84 | the arguments of `predict_and_save`; stated by Api.EngineRequestNamesPaths |
| Api.EngineRequestNamesPaths | api.py:70-84 | the strings passed to `predict_and_save` parse back to the upload's path and to `output/`; only `save_midi` is set; the parameters and the bundled model pass unchanged |
| Api.MidiEntries | api.py:88 | `output_dir.glob("*.mid")` as a set; stated by Api.MidiEntriesAfterEngine and Api.NoMidiEntriesIffNoneWritten |
| Api.IsMidiName | api.py:88 | the pattern `*.mid`; stated by Api.MidiNameSuffix and Api.AcceptedNameIsNotMidi |
| Api.Admission | api.py:37-60 | the checks before any disk access; stated by Api.AdmissionStatus |
| Api.AdmissionStatus | api.py:37-60 | a request gets past the checks iff its parameters are in bounds and its filename's last component ends, in any case, with an allowed extension that has something before it; a rejection is 422 for the parameters and otherwise 400 |
| Api.Response.StatusCode | api.py:37-98 | the HTTP status of each response; Api.AdmissionStatus states 422 and 400, and Scenarios.NestedUploadEndsInInternalError and Scenarios.PredictSongWav state 500 and 200 |
| Api.Outcome | api.py:37-98 | the response of one request, first failing step first; established for both handlers by Api.PredictAudio and Api.PredictAudioFile through Api.PackagingFollowsPipeline |
| Api.BareMidiNameHasNoSuffix | api.py:88 | the name `.mid` alone has no suffix |
| Api.MidiNameSuffix | api.py:88 | a longer name ending in `.mid` has `.mid` as its suffix |
| Api.AcceptedNameIsNotMidi | api.py:55-56 | an accepted upload never matches `*.mid`, so `glob` can never return the upload |
| Api.UploadTargetName | api.py:63 | when the upload is written, it lands under its filename's last component |
| Api.AcceptedHasName | api.py:51-56 | an accepted filename has a final component |
| Api.NoMidiBeforeEngine | api.py:64-68 | before the engine runs, nothing in `output/` matches `*.mid` |
| Api.UploadLeavesNoMidi | api.py:63-68 | once the upload is written, still nothing in the fresh `output/` matches `*.mid` |
| Api.OnlyOutputBelowOutput | api.py:64-65 | the fresh `output/` has no subdirectory |
| Api.MidiEntriesAfterEngine | api.py:88 | after the engine runs, the `*.mid` entries of `output/` are exactly the matching files it wrote |
| Api.NoMidiEntriesIffNoneWritten | api.py:88-90 | the glob comes back empty iff the engine wrote no `*.mid` file |
| Api.CleanupKeepsEscapedUpload | api.py:62-98 | after the scratch tree is removed, the file system is as before, except for an upload written outside the tree |
| Api.OutsideDropsOutput | api.py:62 | removing the scratch tree removes everything the engine wrote |
| Api.RemovingWorkspaceRestores | api.py:62 | removing a fresh scratch tree restores the directories and the live scratch directories as they were |
| Api.PackagingFollowsPipeline | api.py:85-98 | turning the stage into a response keeps the pipeline's verdict: a failure passes through, and a pick becomes a success named after the upload |
| Api.WriteUpload | api.py:63-68 | creates `output/`, then writes the upload where the OS resolves `scratch / filename`, or reports the failure |
| Api.CollectMidi | api.py:88-92 | "No MIDI file generated" iff the engine wrote no `*.mid` file; otherwise the pick is one of the engine's `*.mid` files, with its bytes |
| Api.RunEngine | api.py:70-92 | a raising engine gives "Prediction failed: <message>" and writes nothing; a completing one goes on to the glob |
| Api.RunInWorkspace | api.py:63-92 | the steps inside the scratch directory: write failure → 500; engine raises → "Prediction failed"; no MIDI → 500; otherwise one of the engine's `*.mid` files is picked; the files end up as the run defines them |
| Api.PredictAudio | api.py:37-98 | `/predict`: 422 and 400 before touching disk; then the pipeline's verdict; the engine is called with the upload path, `output/`, only `save_midi`, and the parameters unchanged; the MIDI bytes are those of an engine-written `*.mid` file; afterwards the directories and scratch directories are as before, and so are the files, except an upload that escaped the scratch directory |
| Api.PredictAudioFile | api.py:101-163 | `/predict/file`: the same verdicts and engine call; the response references an engine-written `*.mid` file in `output/` with media type `audio/midi`; the scratch directory, its `output/`, the upload and the engine's files all stay behind |
| Scenarios.SingleComponent | api.py:55 | a filename without `/` is a relative path of one component, its own last component |
| Scenarios.NestedName | api.py:55 | `dir/song.wav` parses to the relative components `dir` and `song.wav` |
| Scenarios.NestedNameIsJudgedByItsLastComponent | api.py:55 | `dir/song.wav` is accepted as `.wav` and returned as `song.mid` |
| Scenarios.UpperCaseExtensionIsAccepted | api.py:55 | `SONG.WAV` is accepted, since the suffix is lower-cased, and returned as `SONG.mid` |
| Scenarios.LastExtensionCounts | api.py:55 | `x.tar.flac` is a FLAC upload returned as `x.tar.mid` |
| Scenarios.HiddenFileIsRefused | api.py:55-56 | `.wav` has no suffix and is refused |
| Scenarios.TrailingDotIsRefused | api.py:55-56 | `song.` has no suffix and is refused |
| Scenarios.NoExtensionIsRefused | api.py:55-56 | `noext` has no suffix and is refused |
| Scenarios.UnknownExtensionIsRefused | api.py:55-56 | `track.aiff` has a suffix outside the list and is refused |
| Scenarios.FreshWorkspaceIsReachable | api.py:126 | a fresh scratch directory is reachable once created |
| Scenarios.NestedUploadCannotBeWritten | api.py:55-68 | `dir/song.wav` passes the filename check, but it cannot be written because the scratch directory has no `dir` |
| Scenarios.NestedUploadEndsInInternalError | api.py:63-68 | so a request uploading `dir/song.wav` with its parameters in bounds ends in a 500 and never calls the engine |
| Scenarios.PlainUploadLandsInside | api.py:63-68 | a filename of one plain component other than `output` is written directly inside the scratch directory |
| Scenarios.ParentPrefixKeepsVerdict | api.py:51-60 | `../name` gets the same verdict and returned name as `name` |
| Scenarios.ParentUploadEscapes | api.py:63 | an accepted upload named `../name` is written next to the scratch directory, outside it |
| Scenarios.AbsoluteUploadEscapes | api.py:63 | an accepted upload named `/name` is written at `/name`, outside the scratch directory |
| Scenarios.SongWavIsAccepted | api.py:51-60 | `song.wav` is accepted and returned as `song.mid` |
| Scenarios.SingleMidiPayload | api.py:85-98 | when the engine writes a single `*.mid` file, a `/predict` success carries exactly its bytes, named after the upload, with status 200 |
| Scenarios.PredictSongWav | api.py:37-98 | a whole `/predict` request on a file system holding only `/tmp`: `song.wav` with the default parameters and an engine writing `song_basic_pitch.mid` gives a 200 with that file's bytes named `song.mid`, and the file system ends as it began |

## Left out

- HTTP itself is not modelled: multipart parsing, the `async` reads, JSON encoding and the `/health` endpoint. The response datatype stands for what the handlers return or raise.
- Base64 is not modelled. `MidiPayload` carries the raw MIDI bytes that `midi_base64` encodes.
- `predict_and_save` is not modelled beyond what it does to the file system. The model has an engine parameter that either raises with a message or writes named files into the output directory. The neural network and how MIDI is produced are outside the model.
- Detection parameters are reals. NaN and infinities, which FastAPI's float bounds treat specially, are not modelled.
- The order of `glob` is the file system's. The model picks any matching entry and does not fix which one.
- `tempfile`'s random naming is not modelled. The name it settles on is a parameter that must be fresh, and the retries on a clash are not modelled.
- Symbolic links, permissions, full disks and other I/O errors are not modelled. The only write failures modelled are a missing directory, a name that is a directory, and a path with no final component.
- A failure inside `rmtree` is not modelled.
- Concurrent requests sharing the file system are not modelled.
- Directories that the engine might create in `output/` are not modelled, including one named `*.mid`. The engine writes only regular files.
- `str.lower()` is modelled for ASCII letters only. This is exact for the five extensions: the only non-ASCII characters that lower-case into ASCII letters are U+212A (to `k`) and U+0130 (to `i` plus a combining dot), and no allowed extension holds `k` or `i`.
- Pathlib.Parse: CPython keeps exactly two leading slashes as the root `//` (`PurePosixPath("//x.wav")` prints as `//x.wav`); the model folds that root into `/`. So `str()` of such a path loses one slash, and for an upload named `//x.wav` the audio path handed to the engine is modelled as `/x.wav` where `api.py` passes `//x.wav`. Linux resolves `//` like `/`, so where the upload is written, the verdicts and the cleanup are the same either way.
- `suffix` follows CPython up to 3.13. In that version a name ending in `.` has no suffix.
- The `__main__` block that starts uvicorn is not modelled.
