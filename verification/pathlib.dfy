/**
 * The parts of CPython's `pathlib.PurePosixPath` that the service relies on:
 * parsing a string into a path, the `name`, `suffix` and `stem` properties,
 * and the `/` (join) operator.
 */
module Pathlib {

  const Sep: char := '/'
  const Dot: char := '.'

  // ---------------------------------------------------------------------------
  // Splitting at separators
  // ---------------------------------------------------------------------------

  /** Index of the first separator in `s`, or `|s|` when there is none. */
  function FindSep(s: string): (i: nat)
    ensures i <= |s|
    ensures i < |s| ==> s[i] == Sep
    ensures forall k :: 0 <= k < i ==> s[k] != Sep
  {
    if s == [] || s[0] == Sep then 0 else 1 + FindSep(s[1..])
  }

  /** `s.split("/")`: the pieces between separators, empty pieces included. */
  function Split(s: string): (pieces: seq<string>)
    ensures |pieces| >= 1
    decreases |s|
  {
    var i := FindSep(s);
    if i == |s| then [s] else [s[..i]] + Split(s[i + 1..])
  }

  /** No piece of a split holds a separator. */
  lemma {:induction false} SplitHasNoSep(s: string)
    ensures forall k :: 0 <= k < |Split(s)| ==> Sep !in Split(s)[k]
    decreases |s|
  {
    var i := FindSep(s);
    if i < |s| {
      var rest := s[i + 1..];
      SplitHasNoSep(rest);
      assert Split(s) == [s[..i]] + Split(rest);
      assert Sep !in s[..i] by {
        forall k | 0 <= k < i ensures s[..i][k] != Sep { }
      }
    }
  }

  /** `"/".join(pieces)` for a non-empty list of pieces. */
  function JoinSep(pieces: seq<string>): string
    requires |pieces| >= 1
  {
    if |pieces| == 1 then pieces[0] else pieces[0] + [Sep] + JoinSep(pieces[1..])
  }

  /** Splitting loses nothing: joining the pieces gives the string back. */
  lemma {:induction false} JoinSepSplit(s: string)
    ensures JoinSep(Split(s)) == s
    decreases |s|
  {
    var i := FindSep(s);
    if i < |s| {
      var head, tail := s[..i], s[i + 1..];
      assert Split(s) == [head] + Split(tail) && s == head + [Sep] + tail by {
        assert s == s[..i] + [Sep] + s[i + 1..];
      }
      JoinSepSplit(tail);
      JoinSepCons(head, Split(tail));
    }
  }

  /** Joining a piece in front of other pieces puts a separator between them. */
  lemma JoinSepCons(head: string, rest: seq<string>)
    requires |rest| >= 1
    ensures JoinSep([head] + rest) == head + [Sep] + JoinSep(rest)
  {
    assert ([head] + rest)[1..] == rest;
  }

  /** Joining pieces that hold no separator and splitting again gives the pieces back. */
  lemma {:induction false} SplitJoinSep(pieces: seq<string>)
    requires |pieces| >= 1
    requires forall k :: 0 <= k < |pieces| ==> Sep !in pieces[k]
    ensures Split(JoinSep(pieces)) == pieces
    decreases |pieces|
  {
    var s := JoinSep(pieces);
    FindSepOfPiece(pieces[0], if |pieces| == 1 then [] else [Sep] + JoinSep(pieces[1..]));
    if |pieces| > 1 {
      var rest := JoinSep(pieces[1..]);
      assert s == pieces[0] + ([Sep] + rest);
      assert s[|pieces[0]| + 1..] == rest;
      SplitJoinSep(pieces[1..]);
      assert Split(s) == [pieces[0]] + Split(rest);
    }
  }

  /** The first separator of `piece + rest` is the first one of `rest` when `piece` has none. */
  lemma {:induction false} FindSepOfPiece(piece: string, rest: string)
    requires Sep !in piece
    requires rest == [] || rest[0] == Sep
    ensures FindSep(piece + rest) == |piece|
    ensures (piece + rest)[..|piece|] == piece
    decreases |piece|
  {
    if piece != [] {
      assert (piece + rest)[1..] == piece[1..] + rest;
      FindSepOfPiece(piece[1..], rest);
    }
  }

  /** Joining two lists of pieces one after the other puts a separator between their joins. */
  lemma {:induction false} JoinSepAppend(x: seq<string>, y: seq<string>)
    requires |x| >= 1 && |y| >= 1
    ensures JoinSep(x + y) == JoinSep(x) + [Sep] + JoinSep(y)
    decreases |x|
  {
    if |x| == 1 {
      JoinSepCons(x[0], y);
      assert x + y == [x[0]] + y;
    } else {
      assert x + y == [x[0]] + (x[1..] + y);
      JoinSepCons(x[0], x[1..] + y);
      JoinSepAppend(x[1..], y);
      JoinSepCons(x[0], x[1..]);
      assert [x[0]] + x[1..] == x;
    }
  }

  /** Splitting `a/b` gives the pieces of `a` followed by the pieces of `b`. */
  lemma SplitAppend(a: string, b: string)
    ensures Split(a + [Sep] + b) == Split(a) + Split(b)
  {
    var x, y := Split(a), Split(b);
    assert a + [Sep] + b == JoinSep(x + y) by {
      JoinSepSplit(a);
      JoinSepSplit(b);
      JoinSepAppend(x, y);
    }
    assert forall k :: 0 <= k < |x + y| ==> Sep !in (x + y)[k] by {
      SplitHasNoSep(a);
      SplitHasNoSep(b);
    }
    SplitJoinSep(x + y);
  }

  // ---------------------------------------------------------------------------
  // Parsing
  // ---------------------------------------------------------------------------

  /** A piece that parsing keeps as a component: empty pieces and `.` are dropped, `..` is kept. */
  predicate Kept(piece: string) {
    piece != "" && piece != "."
  }

  /** A component of a parsed path. */
  predicate IsPart(c: string) {
    Kept(c) && Sep !in c
  }

  /** The pieces that parsing keeps, in order. */
  function Parts(pieces: seq<string>): seq<string> {
    if pieces == [] then []
    else (if Kept(pieces[0]) then [pieces[0]] else []) + Parts(pieces[1..])
  }

  /** Parsing keeps exactly the pieces that are kept. */
  lemma {:induction false} PartsAreKept(pieces: seq<string>)
    ensures forall c :: c in Parts(pieces) <==> c in pieces && Kept(c)
  {
    if pieces != [] {
      PartsAreKept(pieces[1..]);
      assert pieces == [pieces[0]] + pieces[1..];
    }
  }

  /** Parsing keeps pieces one by one, so it distributes over concatenation. */
  lemma {:induction false} PartsAppend(x: seq<string>, y: seq<string>)
    ensures Parts(x + y) == Parts(x) + Parts(y)
    decreases |x|
  {
    if x != [] {
      assert (x + y)[0] == x[0] && (x + y)[1..] == x[1..] + y;
      PartsAppend(x[1..], y);
    } else {
      assert x + y == y;
    }
  }

  /** A pure POSIX path: whether it starts at the root, and its components (root excluded). */
  datatype PurePath = PurePath(rooted: bool, parts: seq<string>)

  predicate WellFormed(p: PurePath) {
    forall k :: 0 <= k < |p.parts| ==> IsPart(p.parts[k])
  }

  /** `PurePosixPath(s)`. */
  function Parse(s: string): (p: PurePath)
    ensures p.rooted <==> |s| > 0 && s[0] == Sep
  {
    PurePath(|s| > 0 && s[0] == Sep, Parts(Split(s)))
  }

  /** Every component of a parsed path is non-empty, not `.`, and free of separators. */
  lemma ParseWellFormed(s: string)
    ensures WellFormed(Parse(s))
  {
    var pieces := Split(s);
    SplitHasNoSep(s);
    PartsAreKept(pieces);
    var parts := Parse(s).parts;
    forall k | 0 <= k < |parts| ensures IsPart(parts[k]) {
      assert parts[k] in Parts(pieces);
    }
  }

  /** Parsing a string written as pieces joined by separators keeps the pieces parsing keeps. */
  lemma ParseJoined(pieces: seq<string>)
    requires |pieces| >= 1
    requires forall k :: 0 <= k < |pieces| ==> Sep !in pieces[k]
    ensures Parse(JoinSep(pieces)).parts == Parts(pieces)
  {
    SplitJoinSep(pieces);
  }

  /** Pieces that are all kept come through parsing unchanged. */
  lemma {:induction false} PartsKeepsKept(pieces: seq<string>)
    requires forall k :: 0 <= k < |pieces| ==> Kept(pieces[k])
    ensures Parts(pieces) == pieces
    decreases |pieces|
  {
    if pieces != [] {
      PartsKeepsKept(pieces[1..]);
    }
  }

  /** Components joined by separators parse back to those components, the last one being the name. */
  lemma ParseOfParts(parts: seq<string>)
    requires |parts| >= 1
    requires forall k :: 0 <= k < |parts| ==> IsPart(parts[k])
    ensures Parse(JoinSep(parts)).parts == parts
    ensures Name(JoinSep(parts)) == parts[|parts| - 1]
  {
    ParseJoined(parts);
    PartsKeepsKept(parts);
  }

  /** `str(p)`: the components joined by separators, after a `/` for an absolute path; `.` or `/` when there are none. */
  function Str(p: PurePath): string {
    if p.parts == [] then (if p.rooted then [Sep] else [Dot])
    else (if p.rooted then [Sep] else "") + JoinSep(p.parts)
  }

  /** A joined string starts with its first piece. */
  lemma JoinSepStartsWithHead(pieces: seq<string>)
    requires |pieces| >= 1
    ensures JoinSep(pieces)[..|pieces[0]|] == pieces[0]
  {
  }

  /** Parsing `str(p)` gives `p` back: the string a path is handed on as carries all of it. */
  lemma ParseOfStr(p: PurePath)
    requires WellFormed(p)
    ensures Parse(Str(p)) == p
  {
    if p.parts == [] {
      ParseOfStrNoParts(p);
    } else if p.rooted {
      ParseOfStrRooted(p);
    } else {
      ParseOfStrRelative(p);
    }
  }

  /** `/` and `.` parse back to the root and to the empty relative path. */
  lemma ParseOfStrNoParts(p: PurePath)
    requires p.parts == []
    ensures Parse(Str(p)) == p
  {
    var s := Str(p);
    if p.rooted {
      assert s == [Sep] && FindSep(s) == 0 && s[1..] == "";
      assert Split(s) == [""] + Split("") == ["", ""];
      assert Parts(["", ""]) == Parts([""]) == [];
    } else {
      assert s == [Dot] && Split(s) == [s];
      assert Parts([s]) == [] + Parts([]);
    }
  }

  /** An absolute path with components parses back from its string. */
  lemma ParseOfStrRooted(p: PurePath)
    requires WellFormed(p) && p.rooted && p.parts != []
    ensures Parse(Str(p)) == p
  {
    var s := Str(p);
    JoinSepCons("", p.parts);
    assert s == JoinSep([""] + p.parts);
    ParseJoined([""] + p.parts);
    PartsKeepsKept(p.parts);
    assert ([""] + p.parts)[1..] == p.parts;
  }

  /** A relative path with components parses back from its string. */
  lemma ParseOfStrRelative(p: PurePath)
    requires WellFormed(p) && !p.rooted && p.parts != []
    ensures Parse(Str(p)) == p
  {
    var s := Str(p);
    assert s == JoinSep(p.parts);
    ParseOfParts(p.parts);
    JoinSepStartsWithHead(p.parts);
    assert IsPart(p.parts[0]);
    assert s[0] == p.parts[0][0] != Sep;
  }

  /** The `/` operator: an absolute right operand replaces the left one; nothing is normalised. */
  function Join(left: PurePath, right: PurePath): (p: PurePath)
    ensures right.rooted ==> p == right
    ensures !right.rooted ==> p.rooted == left.rooted && p.parts == left.parts + right.parts
  {
    if right.rooted then right else PurePath(left.rooted, left.parts + right.parts)
  }

  /**
   * `Path(a) / b` is the path of the string `a + "/" + b` when `b` is relative,
   * and the path of `b` alone when `b` is absolute.
   */
  lemma JoinOfParsed(a: string, b: string)
    requires a != ""
    ensures Join(Parse(a), Parse(b)) == Parse(if |b| > 0 && b[0] == Sep then b else a + [Sep] + b)
  {
    if !(|b| > 0 && b[0] == Sep) {
      SplitAppend(a, b);
      PartsAppend(Split(a), Split(b));
      assert (a + [Sep] + b)[0] == a[0];
    }
  }

  // ---------------------------------------------------------------------------
  // name, suffix, stem
  // ---------------------------------------------------------------------------

  /** `PurePosixPath(s).name`: the final component, or "" when there is none. */
  function Name(s: string): string {
    var parts := Parse(s).parts;
    if parts == [] then "" else parts[|parts| - 1]
  }

  /** A name is "" or a single component: no separator, and never `.`. */
  lemma NameIsPart(s: string)
    ensures Name(s) == "" || IsPart(Name(s))
  {
    ParseWellFormed(s);
  }

  /** `s.rfind(c)`: the last index holding `c`, or -1. */
  function RFind(s: string, c: char): (i: int)
    ensures -1 <= i < |s|
    ensures i >= 0 ==> s[i] == c
    ensures forall k :: i < k < |s| ==> s[k] != c
  {
    if s == [] then -1
    else if s[|s| - 1] == c then |s| - 1
    else RFind(s[..|s| - 1], c)
  }

  /** The suffix of a final component: from its last dot, when that dot is neither first nor last. */
  function SuffixOfName(name: string): string {
    var i := RFind(name, Dot);
    if 0 < i < |name| - 1 then name[i..] else ""
  }

  /** The stem of a final component: the component without its suffix. */
  function StemOfName(name: string): string {
    var i := RFind(name, Dot);
    if 0 < i < |name| - 1 then name[..i] else name
  }

  /** `PurePosixPath(s).suffix`. */
  function Suffix(s: string): string {
    SuffixOfName(Name(s))
  }

  /** `PurePosixPath(s).stem`. */
  function Stem(s: string): string {
    StemOfName(Name(s))
  }

  /**
   * `ext` is an extension of `name` in pathlib's sense: it starts with a dot, has
   * no other dot and at least one more character, and something comes before it.
   */
  predicate IsExtension(name: string, ext: string) {
    && 2 <= |ext| < |name|
    && ext[0] == Dot
    && Dot !in ext[1..]
    && name[|name| - |ext|..] == ext
  }

  /** Stem and suffix split a component; the suffix is "" or the component's extension. */
  lemma StemSuffixOfName(name: string)
    ensures StemOfName(name) + SuffixOfName(name) == name
    ensures SuffixOfName(name) == "" || IsExtension(name, SuffixOfName(name))
    ensures name != "" ==> StemOfName(name) != ""
  {
    var i := RFind(name, Dot);
    if 0 < i < |name| - 1 {
      assert name[..i] + name[i..] == name;
      assert forall k :: 1 <= k < |name[i..]| ==> name[i..][k] == name[i + k];
    }
  }

  /** A component has at most one extension, and it is exactly its suffix. */
  lemma {:induction false} SuffixOfNameIsTheExtension(name: string, ext: string)
    ensures IsExtension(name, ext) <==> ext != "" && SuffixOfName(name) == ext
  {
    StemSuffixOfName(name);
    if IsExtension(name, ext) {
      var j := |name| - |ext|;
      assert name[j] == ext[0] == Dot;
      forall k | j < k < |name| ensures name[k] != Dot {
        assert name[k] == ext[1..][k - j - 1];
      }
      var i := RFind(name, Dot);
      assert i == j;
    }
  }

  /** Stem and suffix split the name; the suffix is "" or the name's extension. */
  lemma StemSuffix(s: string)
    ensures Stem(s) + Suffix(s) == Name(s)
    ensures Suffix(s) == "" || IsExtension(Name(s), Suffix(s))
    ensures Name(s) != "" ==> Stem(s) != ""
  {
    StemSuffixOfName(Name(s));
  }

  /** A name has at most one extension, and it is exactly what `suffix` returns. */
  lemma SuffixIsTheExtension(s: string, ext: string)
    ensures IsExtension(Name(s), ext) <==> ext != "" && Suffix(s) == ext
  {
    SuffixOfNameIsTheExtension(Name(s), ext);
  }

  /** A component with no dot, or whose only dot comes first or last, has no suffix and is its own stem. */
  lemma NoExtensionOfName(name: string)
    requires forall ext :: !IsExtension(name, ext)
    ensures SuffixOfName(name) == "" && StemOfName(name) == name
  {
    StemSuffixOfName(name);
  }

  /** A name with no dot, or whose only dot comes first or last, has no suffix and is its own stem. */
  lemma NoExtension(s: string)
    requires forall ext :: !IsExtension(Name(s), ext)
    ensures Suffix(s) == "" && Stem(s) == Name(s)
  {
    NoExtensionOfName(Name(s));
  }
}
