/**
 * Particular uploads run through the model: names the filename check accepts
 * or refuses, the name of the returned MIDI file, and upload names that make
 * `write_bytes` fail or land outside the scratch directory.
 */
module Scenarios {
  import opened Wrappers
  import opened Pathlib
  import opened Validation
  import opened Files
  import opened Api

  // ---------------------------------------------------------------------------
  // The filename check
  // ---------------------------------------------------------------------------

  /** A filename without a separator is a relative path of one component, its own final component. */
  lemma SingleComponent(name: string)
    requires IsPart(name)
    ensures Parse(name) == PurePath(false, [name])
    ensures Name(name) == name
  {
    assert name == JoinSep([name]);
    ParseOfParts([name]);
    assert name[0] in name;
  }

  /** The final component of "dir/song.wav" is "song.wav". */
  lemma NestedName(filename: string)
    requires filename == "dir/song.wav"
    ensures Parse(filename) == PurePath(false, ["dir", "song.wav"])
    ensures Name(filename) == "song.wav"
  {
    assert filename == JoinSep(["dir", "song.wav"]);
    ParseOfParts(["dir", "song.wav"]);
  }

  /** An upload named after a nested path is judged and renamed by its final component alone. */
  lemma NestedNameIsJudgedByItsLastComponent(filename: string)
    requires filename == "dir/song.wav"
    ensures Name(filename) == "song.wav"
    ensures Suffix(filename) == ".wav"
    ensures Validate(filename) == Accepted
    ensures OutputFilename(filename) == "song.mid"
  {
    var name := "song.wav";
    NestedName(filename);
    assert SuffixOfName(name) == ".wav" && StemOfName(name) == "song" by {
      SuffixOfNameIsTheExtension(name, ".wav");
      StemSuffixOfName(name);
    }
    assert Lower(".wav") == ".wav" by {
      assert forall k :: 0 <= k < 4 ==> LowerChar(".wav"[k]) == ".wav"[k];
    }
  }

  /** The extension is compared in lower case, while the returned name keeps the stem's case. */
  lemma UpperCaseExtensionIsAccepted(filename: string)
    requires filename == "SONG.WAV"
    ensures Suffix(filename) == ".WAV"
    ensures Validate(filename) == Accepted
    ensures OutputFilename(filename) == "SONG.mid"
  {
    SingleComponent(filename);
    assert SuffixOfName(filename) == ".WAV" && StemOfName(filename) == "SONG" by {
      SuffixOfNameIsTheExtension(filename, ".WAV");
      StemSuffixOfName(filename);
    }
    assert Lower(".WAV") == ".wav" by {
      assert forall k :: 0 <= k < 4 ==> LowerChar(".WAV"[k]) == ".wav"[k];
    }
  }

  /** Only the last extension counts: "x.tar.flac" is a FLAC upload returned as "x.tar.mid". */
  lemma LastExtensionCounts(filename: string)
    requires filename == "x.tar.flac"
    ensures Suffix(filename) == ".flac"
    ensures Validate(filename) == Accepted
    ensures OutputFilename(filename) == "x.tar.mid"
  {
    SingleComponent(filename);
    assert SuffixOfName(filename) == ".flac" && StemOfName(filename) == "x.tar" by {
      SuffixOfNameIsTheExtension(filename, ".flac");
      StemSuffixOfName(filename);
    }
    assert Lower(".flac") == ".flac" by {
      assert forall k :: 0 <= k < 5 ==> LowerChar(".flac"[k]) == ".flac"[k];
    }
  }

  /** A hidden file named ".wav" has no suffix, so it is refused. */
  lemma HiddenFileIsRefused(filename: string)
    requires filename == ".wav"
    ensures Suffix(filename) == ""
    ensures Validate(filename) == UnsupportedFormat
  {
    SingleComponent(filename);
    assert SuffixOfName(filename) == "" && StemOfName(filename) == filename by {
      forall ext ensures !IsExtension(filename, ext) {
        assert Dot !in filename[1..];
      }
      NoExtensionOfName(filename);
    }
    assert Lower("") == "";
  }

  /** A name ending in a dot has no suffix, so it is refused. */
  lemma TrailingDotIsRefused(filename: string)
    requires filename == "song."
    ensures Suffix(filename) == ""
    ensures Validate(filename) == UnsupportedFormat
  {
    SingleComponent(filename);
    assert SuffixOfName(filename) == "" && StemOfName(filename) == filename by {
      forall ext ensures !IsExtension(filename, ext) {
      }
      NoExtensionOfName(filename);
    }
    assert Lower("") == "";
  }

  /** A name without any dot has no suffix, so it is refused. */
  lemma NoExtensionIsRefused(filename: string)
    requires filename == "noext"
    ensures Suffix(filename) == ""
    ensures Validate(filename) == UnsupportedFormat
  {
    SingleComponent(filename);
    assert SuffixOfName(filename) == "" && StemOfName(filename) == filename by {
      forall ext ensures !IsExtension(filename, ext) {
        assert Dot !in filename;
      }
      NoExtensionOfName(filename);
    }
    assert Lower("") == "";
  }

  /** An extension outside the list is refused even though the name has one. */
  lemma UnknownExtensionIsRefused(filename: string)
    requires filename == "track.aiff"
    ensures Suffix(filename) == ".aiff"
    ensures Validate(filename) == UnsupportedFormat
  {
    SingleComponent(filename);
    assert SuffixOfName(filename) == ".aiff" && StemOfName(filename) == "track" by {
      SuffixOfNameIsTheExtension(filename, ".aiff");
      StemSuffixOfName(filename);
    }
    assert Lower(".aiff") == ".aiff" by {
      assert forall k :: 0 <= k < 5 ==> LowerChar(".aiff"[k]) == ".aiff"[k];
    }
  }

  // ---------------------------------------------------------------------------
  // Where the upload lands
  // ---------------------------------------------------------------------------

  /** A scratch directory fresh in `dirs` is reachable once it and its `output` exist. */
  lemma FreshWorkspaceIsReachable(dirs: set<Location>, ws: Location)
    requires |ws| >= 1 && Resolved(ws) && Reachable(dirs, Up(ws))
    ensures Reachable(WorkspaceDirs(dirs, ws), ws)
  {
    var more := WorkspaceDirs(dirs, ws);
    WalkMonotone(dirs, more, [], Up(ws));
    assert Up(ws) + [ws[|ws| - 1]] == ws;
    ReachableChild(more, Up(ws), ws[|ws| - 1]);
  }

  /** A filename with a directory part that does not exist in the fresh scratch directory cannot be written. */
  lemma NestedUploadCannotBeWritten(dirs: set<Location>, ws: Location, filename: string)
    requires Resolved(ws)
    requires forall d :: d in dirs ==> !Within(d, ws)
    requires filename == "dir/song.wav"
    ensures Validate(filename) == Accepted
    ensures UploadTarget(dirs, ws, filename) == None
  {
    NestedNameIsJudgedByItsLastComponent(filename);
    var more := WorkspaceDirs(dirs, ws);
    var sub := ws + ["dir"];
    var p := InputPath(ws, filename);
    assert p.parts[..|p.parts| - 1] == sub && p.parts[|p.parts| - 1] != ".." by {
      NestedName(filename);
      assert p.parts == ws + ["dir", "song.wav"];
    }
    assert sub !in more by {
      assert Within(sub, ws);
      assert sub[|ws|] == "dir" && OutputDir(ws)[|ws|] == OutputDirName;
      assert |sub| != |ws|;
    }
    assert Walk(more, [], sub) == None by {
      WalkAppend(more, [], ws, ["dir"]);
      assert ".." !in ws by {
        forall k | 0 <= k < |ws| ensures ws[k] != ".." { }
      }
      if Walk(more, [], ws).Some? {
        WalkDescends(more, [], ws);
        assert [] + ws == ws;
      }
    }
  }

  /**
   * So a request uploading "dir/song.wav", with its parameters in bounds, ends
   * in a 500 and never reaches the engine.
   */
  lemma NestedUploadEndsInInternalError(dirs: set<Location>, ws: Location, upload: Upload, params: DetectionParams,
                                        engine: EngineOutcome, resp: Response, call: Option<EngineCall>)
    requires Resolved(ws)
    requires forall d :: d in dirs ==> !Within(d, ws)
    requires upload.filename == "dir/song.wav" && InRange(params)
    requires Outcome(resp, call, ws, upload, params, UploadTarget(dirs, ws, upload.filename), engine)
    ensures resp == InternalError && resp.StatusCode() == 500 && call == None
  {
    NestedUploadCannotBeWritten(dirs, ws, upload.filename);
  }

  /** A plain name, other than `output`, is written directly inside the fresh scratch directory. */
  lemma PlainUploadLandsInside(dirs: set<Location>, ws: Location, name: string)
    requires |ws| >= 1 && Resolved(ws) && Reachable(dirs, Up(ws))
    requires forall d :: d in dirs ==> !Within(d, ws)
    requires IsPart(name) && name != ".." && name != OutputDirName
    ensures UploadTarget(dirs, ws, name) == Some(ws + [name])
  {
    var more := WorkspaceDirs(dirs, ws);
    FreshWorkspaceIsReachable(dirs, ws);
    SingleComponent(name);
    assert InputPath(ws, name).parts == ws + [name];
    assert (ws + [name])[..|ws|] == ws;
    assert ws + [name] !in more by {
      assert Within(ws + [name], ws);
      assert (ws + [name])[|ws|] == name && OutputDir(ws)[|ws|] == OutputDirName;
    }
  }

  /** "../" followed by a name is judged like the name alone. */
  lemma ParentPrefixKeepsVerdict(name: string)
    requires IsPart(name) && name != ".."
    ensures Validate(JoinSep(["..", name])) == Validate(name)
    ensures OutputFilename(JoinSep(["..", name])) == OutputFilename(name)
  {
    ParseOfParts(["..", name]);
    ParseOfParts([name]);
    assert JoinSep([name]) == name;
  }

  /** An upload named "../<name>" is written next to the scratch directory, outside it. */
  lemma ParentUploadEscapes(dirs: set<Location>, ws: Location, name: string)
    requires |ws| >= 1 && Resolved(ws) && Reachable(dirs, Up(ws))
    requires forall d :: d in dirs ==> !Within(d, ws)
    requires IsPart(name) && name != ".." && name != ws[|ws| - 1] && Up(ws) + [name] !in dirs
    ensures UploadTarget(dirs, ws, JoinSep(["..", name])) == Some(Up(ws) + [name])
    ensures !Within(Up(ws) + [name], ws)
  {
    var more := WorkspaceDirs(dirs, ws);
    FreshWorkspaceIsReachable(dirs, ws);
    ParseOfParts(["..", name]);
    assert Up(ws) + [name] != ws by {
      assert ws == Up(ws) + [ws[|ws| - 1]];
    }
    assert Up(ws) + [name] != OutputDir(ws);
    ParentRelativeWriteEscapes(more, ws, name);
  }

  /** An upload named "/<name>" is written at the top of the file system, outside the scratch directory. */
  lemma AbsoluteUploadEscapes(dirs: set<Location>, ws: Location, name: string)
    requires |ws| >= 1 && Resolved(ws) && Reachable(dirs, Up(ws))
    requires forall d :: d in dirs ==> !Within(d, ws)
    requires IsPart(name) && name != ".." && [name] !in dirs && [name] != ws
    ensures UploadTarget(dirs, ws, JoinSep(["", name])) == Some([name])
    ensures !Within([name], ws)
  {
    var more := WorkspaceDirs(dirs, ws);
    var filename := JoinSep(["", name]);
    FreshWorkspaceIsReachable(dirs, ws);
    ParseJoined(["", name]);
    assert Parts(["", name]) == [name] by {
      PartsKeepsKept([name]);
      assert ["", name][1..] == [name];
    }
    assert filename[0] == Sep;
    assert [name] != OutputDir(ws);
    AbsoluteWriteEscapes(more, ws, name);
  }

  // ---------------------------------------------------------------------------
  // A whole request
  // ---------------------------------------------------------------------------

  /** "song.wav" is accepted and returned as "song.mid". */
  lemma SongWavIsAccepted(filename: string)
    requires filename == "song.wav"
    ensures Validate(filename) == Accepted
    ensures OutputFilename(filename) == "song.mid"
  {
    SingleComponent(filename);
    assert SuffixOfName(filename) == ".wav" && StemOfName(filename) == "song" by {
      SuffixOfNameIsTheExtension(filename, ".wav");
      StemSuffixOfName(filename);
    }
    assert Lower(".wav") == ".wav" by {
      assert forall k :: 0 <= k < 4 ==> LowerChar(".wav"[k]) == ".wav"[k];
    }
  }

  /** The file system holding only `/tmp` has the root and `/tmp`, and `/tmp` is reachable. */
  lemma TmpOnly(tmp: Location)
    requires tmp == ["tmp"]
    ensures (set k | 0 <= k <= |tmp| :: tmp[..k]) == {[], tmp}
    ensures Reachable({[], tmp}, tmp)
  {
    var dirs := set k | 0 <= k <= |tmp| :: tmp[..k];
    assert tmp[..0] == [] && tmp[..1] == tmp;
    forall d | d in dirs ensures d == [] || d == tmp {
      var k :| 0 <= k <= 1 && d == tmp[..k];
    }
    assert [] + [tmp[0]] == tmp && tmp[1..] == [];
  }

  /** "/tmp/tmpw" is a fresh scratch directory name below `/tmp`. */
  lemma FreshBelowTmp(ws: Location)
    requires ws == ["tmp", "tmpw"]
    ensures |ws| >= 1 && Resolved(ws) && Up(ws) == ["tmp"]
    ensures forall d :: d in {[], ["tmp"]} ==> !Within(d, ws)
  {
    assert Sep !in ws[0] && Sep !in ws[1] by {
      assert forall k :: 0 <= k < |ws[1]| ==> ws[1][k] != Sep;
    }
  }

  /** "song_basic_pitch.mid", the name Basic Pitch gives the MIDI file of "song.wav", is a plain `*.mid` name. */
  lemma EngineMidiName(name: string)
    requires name == "song_basic_pitch.mid"
    ensures IsPart(name) && name != ".." && IsMidiName(name)
  {
    assert Sep !in name by {
      assert forall k :: 0 <= k < |name| ==> name[k] != Sep;
    }
    assert name[|name| - 4..] == ".mid";
  }

  /** When the engine writes a single `*.mid` file, a `/predict` success carries its bytes. */
  lemma SingleMidiPayload(resp: Response, call: Option<EngineCall>, ws: Location, upload: Upload,
                          params: DetectionParams, target: Option<Location>, name: string, midi: Bytes)
    requires InRange(params) && Validate(upload.filename) == Accepted && target.Some? && IsMidiName(name)
    requires Outcome(resp, call, ws, upload, params, target, Completes(map[name := midi]))
    requires !resp.MidiFile?
    requires resp.MidiPayload? ==> exists n :: n in map[name := midi] && resp.midi == map[name := midi][n]
    ensures resp == MidiPayload(midi, OutputFilename(upload.filename)) && resp.StatusCode() == 200
  {
  }

  /**
   * `POST /predict` on a file system holding only `/tmp`, with `tempfile`
   * settling on `/tmp/tmpw`: "song.wav" with the default parameters and an
   * engine that writes "song_basic_pitch.mid" gives a 200 carrying the engine's
   * MIDI bytes under the name "song.mid", and the file system is left as it was.
   */
  method PredictSongWav(tmp: Location, ws: Location, filename: string, engineFile: string, content: Bytes, midi: Bytes)
    returns (resp: Response, fs: FileSystem)
    requires tmp == ["tmp"] && ws == ["tmp", "tmpw"]
    requires filename == "song.wav" && engineFile == "song_basic_pitch.mid"
    ensures resp == MidiPayload(midi, "song.mid") && resp.StatusCode() == 200
    ensures fs.dirs == {[], tmp} && fs.files == map[] && fs.workspaces == {}
  {
    TmpOnly(tmp);
    fs := new FileSystem(tmp);
    FreshBelowTmp(ws);
    EngineMidiName(engineFile);
    SongWavIsAccepted(filename);
    DefaultsInRange();
    PlainUploadLandsInside(fs.dirs, ws, filename);
    var upload := Upload(filename, content);
    ghost var target := UploadTarget(fs.dirs, ws, filename);
    var call;
    resp, call := PredictAudio(fs, upload, DefaultParams, ws, Completes(map[engineFile := midi]));
    SingleMidiPayload(resp, call, ws, upload, DefaultParams, target, engineFile, midi);
  }
}
