/**
 * The request checks both endpoints run before any file is touched: the
 * bounds FastAPI enforces on the query parameters, and the filename check
 * at the top of each handler. Also the name given to the returned MIDI file.
 */
module Validation {
  import opened Wrappers
  import opened Pathlib

  // ---------------------------------------------------------------------------
  // Filename check
  // ---------------------------------------------------------------------------

  /** `c.lower()` for ASCII; every other character is left as it is. */
  function LowerChar(c: char): char {
    if 'A' <= c <= 'Z' then (c as int + 32) as char else c
  }

  /** `s.lower()`, ASCII only. */
  function Lower(s: string): string {
    seq(|s|, k requires 0 <= k < |s| => LowerChar(s[k]))
  }

  /** The extensions the service accepts, lower case. */
  const AllowedExtensions: set<string> := {".wav", ".mp3", ".ogg", ".flac", ".m4a"}

  /** Outcome of the filename check: accepted, or the reason for the 400 response. */
  datatype Verdict = Accepted | NoFilename | UnsupportedFormat

  /** The filename check: present, and the lower-cased pathlib suffix is allowed. */
  function Validate(filename: string): Verdict {
    if filename == "" then NoFilename
    else if Lower(Suffix(filename)) !in AllowedExtensions then UnsupportedFormat
    else Accepted
  }

  /**
   * Reference reading of the check, without pathlib: the final component of the
   * filename, lower-cased, ends with an allowed extension and has something before it.
   */
  predicate EndsWithAllowed(name: string) {
    exists ext :: ext in AllowedExtensions && |ext| < |name| && Lower(name[|name| - |ext|..]) == ext
  }

  /** Every allowed extension is a dot followed by at least one character that is not a dot. */
  lemma AllowedExtensionShape(ext: string)
    requires ext in AllowedExtensions
    ensures 2 <= |ext| && ext[0] == Dot && Dot !in ext[1..]
  {
  }

  /** The empty filename has no final component. */
  lemma EmptyHasNoName()
    ensures Name("") == ""
  {
    assert Split("") == [""];
    assert Parts([""]) == [];
  }

  /** An accepted filename's lower-cased suffix is an allowed extension ending its final component. */
  lemma AcceptedEndsWithAllowed(filename: string)
    requires Validate(filename) == Accepted
    ensures EndsWithAllowed(Name(filename))
  {
    var name := Name(filename);
    var suffix := Suffix(filename);
    StemSuffix(filename);
    var ext := Lower(suffix);
    assert ext in AllowedExtensions;
    assert suffix != "";
    assert name[|name| - |ext|..] == suffix;
  }

  /** A final component that ends with an allowed extension (in any case) has that extension as its lower-cased suffix. */
  lemma EndsWithAllowedSuffix(name: string, ext: string)
    requires ext in AllowedExtensions
    requires |ext| < |name| && Lower(name[|name| - |ext|..]) == ext
    ensures Lower(SuffixOfName(name)) == ext
  {
    var tail := name[|name| - |ext|..];
    AllowedExtensionShape(ext);
    assert tail[0] == Dot by { assert LowerChar(tail[0]) == ext[0]; }
    forall k | 0 <= k < |tail[1..]| ensures tail[1..][k] != Dot {
      assert LowerChar(tail[k + 1]) == ext[k + 1] == ext[1..][k];
    }
    assert IsExtension(name, tail);
    SuffixOfNameIsTheExtension(name, tail);
  }

  /** A filename whose final component ends with an allowed extension (in any case) is accepted. */
  lemma EndsWithAllowedAccepted(filename: string)
    requires EndsWithAllowed(Name(filename))
    ensures Validate(filename) == Accepted
  {
    var name := Name(filename);
    var ext :| ext in AllowedExtensions && |ext| < |name| && Lower(name[|name| - |ext|..]) == ext;
    assert Lower(Suffix(filename)) == ext by {
      EndsWithAllowedSuffix(name, ext);
    }
    assert filename != "" by {
      if filename == "" {
        EmptyHasNoName();
      }
    }
  }

  /** A filename is accepted exactly when its final component, lower-cased, ends with an allowed extension that is not the whole component. */
  lemma AcceptedIffEndsWithAllowed(filename: string)
    ensures Validate(filename) == Accepted <==> EndsWithAllowed(Name(filename))
  {
    if Validate(filename) == Accepted {
      AcceptedEndsWithAllowed(filename);
    }
    if EndsWithAllowed(Name(filename)) {
      EndsWithAllowedAccepted(filename);
    }
  }

  // ---------------------------------------------------------------------------
  // Name of the returned file
  // ---------------------------------------------------------------------------

  const MidiExtension: string := ".mid"

  /** `Path(filename).stem + ".mid"`. */
  function OutputFilename(filename: string): string {
    Stem(filename) + MidiExtension
  }

  /**
   * The returned name is the final component with its suffix, whatever it was,
   * replaced by ".mid", and it is a single component.
   */
  lemma OutputFilenameReplacesSuffix(filename: string)
    ensures var name := Name(filename);
      OutputFilename(filename) == name[..|name| - |Suffix(filename)|] + MidiExtension
    ensures Sep !in OutputFilename(filename)
  {
    var name, stem, suffix := Name(filename), Stem(filename), Suffix(filename);
    assert stem + suffix == name by {
      StemSuffix(filename);
    }
    assert name[..|name| - |suffix|] == stem;
    assert Sep !in stem by {
      NameIsPart(filename);
      assert forall k :: 0 <= k < |stem| ==> stem[k] == name[k];
    }
    assert Sep !in MidiExtension;
  }

  /** For an accepted upload something precedes ".mid" in the returned name. */
  lemma AcceptedOutputFilenameHasStem(filename: string)
    requires Validate(filename) == Accepted
    ensures |OutputFilename(filename)| > |MidiExtension|
  {
    AcceptedEndsWithAllowed(filename);
    StemSuffix(filename);
  }

  // ---------------------------------------------------------------------------
  // Detection parameters
  // ---------------------------------------------------------------------------

  /** The five tunable detection parameters, passed to the engine as they come. */
  datatype DetectionParams = DetectionParams(
    onsetThreshold: real,
    frameThreshold: real,
    minimumNoteLength: real,
    minimumFrequency: Option<real>,
    maximumFrequency: Option<real>)

  /** The values used when the query leaves a parameter out. */
  const DefaultParams: DetectionParams := DetectionParams(0.5, 0.3, 58.0, None, None)

  /** The `ge`/`le` bounds on the query parameters; the frequencies are unconstrained. */
  predicate InRange(p: DetectionParams) {
    && 0.0 <= p.onsetThreshold <= 1.0
    && 0.0 <= p.frameThreshold <= 1.0
    && 0.0 <= p.minimumNoteLength
  }

  /** The defaults lie within the bounds. */
  lemma DefaultsInRange()
    ensures InRange(DefaultParams)
  {
  }
}
