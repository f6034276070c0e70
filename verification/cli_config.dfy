/** The small parsers and normalisers of the command-line configuration:
    reading the major version from `clang-format --version`, defaulting the
    list of file extensions, defaulting the thread count, and matching a
    file's extension against the list. */
module CliConfig {
  import opened Wrappers
  import opened Strings

  // ---------------------------------------------------------------------
  // clang-format version

  /** The text a version line starts with (21 characters). */
  const VersionTag: string := "clang-format version "

  /** The outcome of reading the version output: whether it succeeded, and
      the stored major version (the one held before, when no line set it). */
  datatype VersionRead = VersionRead(ok: bool, major: nat)

  /** `set_clang_format_version` over the lines the formatter printed:
      reading stops at the first empty line; a line not starting with the
      tag is skipped; in a tagged line, a missing `'.'` after the tag or a
      major that `from_chars` rejects ends the reading with failure; a
      parsed major is stored, and a later tagged line overwrites it. A
      major below 13 only prints a warning, so it reads like any other. */
  function ReadVersion(lines: seq<string>, major: nat): (r: VersionRead)
    ensures (forall i :: 0 <= i < |lines| ==> !StartsWith(lines[i], VersionTag)) ==> r == VersionRead(true, major)
    ensures r.major != major ==> exists i :: 0 <= i < |lines| && StartsWith(lines[i], VersionTag)
  {
    if |lines| == 0 || lines[0] == "" then VersionRead(true, major)
    else if !StartsWith(lines[0], VersionTag) then ReadVersion(lines[1..], major)
    else match FindFirstOf(lines[0], '.', |VersionTag|)
      case None => VersionRead(false, major)
      case Some(dot) =>
        match FromChars(lines[0][|VersionTag|..dot])
        case None => VersionRead(false, major)
        case Some(m) => ReadVersion(lines[1..], m)
  }

  /** Everything after the first empty line is ignored. */
  lemma {:induction false} StopsAtEmptyLine(before: seq<string>, after: seq<string>, major: nat)
    ensures ReadVersion(before + [""] + after, major) == ReadVersion(before, major)
  {
    var all := before + [""] + after;
    if |before| == 0 {
      assert all[0] == "";
    } else {
      assert all[0] == before[0];
      assert all[1..] == before[1..] + [""] + after;
      if StartsWith(before[0], VersionTag) {
        match FindFirstOf(before[0], '.', |VersionTag|)
        case None =>
        case Some(dot) =>
          match FromChars(before[0][|VersionTag|..dot])
          case None =>
          case Some(m) => StopsAtEmptyLine(before[1..], after, m);
      } else {
        StopsAtEmptyLine(before[1..], after, major);
      }
    }
  }

  /** Reading is sequential: when a block without empty lines reads
      successfully, what follows is read starting from the major it left. */
  lemma {:induction false} ReadsInSequence(first: seq<string>, rest: seq<string>, major: nat)
    requires forall i :: 0 <= i < |first| ==> first[i] != ""
    requires ReadVersion(first, major).ok
    ensures ReadVersion(first + rest, major) == ReadVersion(rest, ReadVersion(first, major).major)
  {
    if |first| == 0 {
      assert first + rest == rest;
    } else {
      var all := first + rest;
      assert all[0] == first[0];
      assert all[1..] == first[1..] + rest;
      if StartsWith(first[0], VersionTag) {
        var dot := FindFirstOf(first[0], '.', |VersionTag|).value;
        var m := FromChars(first[0][|VersionTag|..dot]).value;
        ReadsInSequence(first[1..], rest, m);
      } else {
        ReadsInSequence(first[1..], rest, major);
      }
    }
  }

  /** The version line the formatter prints for major `n`. */
  function VersionLine(n: nat, rest: string): string {
    VersionTag + NatToString(n) + "." + rest
  }

  /** A version line for a major that fits in `size_t` stores exactly that
      major, whatever follows the dot and whatever was stored before; a
      major below 13 is no exception. */
  lemma ReadsMajor(n: nat, rest: string, lines: seq<string>, major: nat)
    requires n < SizeLimit
    ensures ReadVersion([VersionLine(n, rest)] + lines, major) == ReadVersion(lines, n)
  {
    var line := VersionLine(n, rest);
    var digits := NatToString(n);
    var all := [line] + lines;
    assert all[0] == line && all[1..] == lines;
    assert line[..|VersionTag|] == VersionTag;
    var dot := |VersionTag| + |digits|;
    assert line[dot] == '.';
    forall j | |VersionTag| <= j < dot
      ensures line[j] != '.'
    {
      assert line[j] == digits[j - |VersionTag|];
      assert IsDigit(digits[j - |VersionTag|]);
    }
    assert FindFirstOf(line, '.', |VersionTag|) == Some(dot);
    assert line[|VersionTag|..dot] == digits + "";
    FromCharsRoundTrip(n, "");
  }

  /** The last of several version lines wins. */
  lemma LaterLineWins(n1: nat, r1: string, n2: nat, r2: string, major: nat)
    requires n1 < SizeLimit && n2 < SizeLimit
    ensures ReadVersion([VersionLine(n1, r1), VersionLine(n2, r2)], major) == VersionRead(true, n2)
  {
    ReadsMajor(n1, r1, [VersionLine(n2, r2)], major);
    ReadsMajor(n2, r2, [], n1);
  }

  /** A tagged line without a dot after the tag fails and keeps the stored
      major. */
  lemma MissingDotFails(tail: string, lines: seq<string>, major: nat)
    requires '.' !in tail
    ensures ReadVersion([VersionTag + tail] + lines, major) == VersionRead(false, major)
  {
    var line := VersionTag + tail;
    assert ([line] + lines)[0] == line;
    assert line[..|VersionTag|] == VersionTag;
    forall j | |VersionTag| <= j < |line|
      ensures line[j] != '.'
    {
      assert line[j] == tail[j - |VersionTag|];
    }
  }

  /** A major that does not start with a digit fails, even when a dot
      follows. */
  lemma NonDigitMajorFails(junk: string, rest: string, lines: seq<string>, major: nat)
    requires '.' !in junk && (junk == "" || !IsDigit(junk[0]))
    ensures ReadVersion([VersionTag + junk + "." + rest] + lines, major) == VersionRead(false, major)
  {
    var line := VersionTag + junk + "." + rest;
    var dot := |VersionTag| + |junk|;
    assert ([line] + lines)[0] == line;
    assert line[..|VersionTag|] == VersionTag;
    assert line[dot] == '.';
    forall j | |VersionTag| <= j < dot
      ensures line[j] != '.'
    {
      assert line[j] == junk[j - |VersionTag|];
    }
    assert line[|VersionTag|..dot] == junk;
  }

  // ---------------------------------------------------------------------
  // File extensions

  /** The extensions used when none are given. */
  const DefaultExtensions: seq<string> := ["h", "hpp", "cpp", "ipp"]

  /** `validate_file_extensions`: an empty list becomes the default list,
      any other list is kept as given. */
  function ValidateExtensions(extensions: seq<string>): (r: seq<string>)
    ensures |r| > 0
    ensures |extensions| > 0 ==> r == extensions
    ensures |extensions| == 0 ==> r == DefaultExtensions
  {
    if |extensions| == 0 then DefaultExtensions else extensions
  }

  /** Validating twice changes nothing further. */
  lemma ValidateExtensionsIdempotent(extensions: seq<string>)
    ensures ValidateExtensions(ValidateExtensions(extensions)) == ValidateExtensions(extensions)
  {
  }

  /** The comparison `should_format` applies to a file's extension (which
      is never empty: it includes the dot) and one configured extension:
      equal as written, or equal once the leading dot is dropped. */
  predicate ExtensionMatches(fileExt: string, ext: string)
    requires |fileExt| > 0
  {
    fileExt == ext || (fileExt[0] == '.' && fileExt[1..] == ext)
  }

  /** A configured extension may be written with or without its dot. */
  lemma ExtensionMatchesEitherSpelling(fileExt: string, ext: string)
    requires |fileExt| > 0
    ensures ExtensionMatches(fileExt, ext) <==> fileExt == ext || fileExt == "." + ext
  {
    if fileExt[0] == '.' && fileExt[1..] == ext {
      assert fileExt == [fileExt[0]] + fileExt[1..];
    }
  }

  /** The `find_if` over the configured extensions: the first one that
      matches, if any. */
  function FindExtension(fileExt: string, extensions: seq<string>): (r: Option<nat>)
    requires |fileExt| > 0
    ensures r.Some? ==> r.value < |extensions| && ExtensionMatches(fileExt, extensions[r.value])
    ensures r.Some? ==> forall j :: 0 <= j < r.value ==> !ExtensionMatches(fileExt, extensions[j])
    ensures r.None? <==> forall j :: 0 <= j < |extensions| ==> !ExtensionMatches(fileExt, extensions[j])
  {
    if |extensions| == 0 then None
    else if ExtensionMatches(fileExt, extensions[0]) then Some(0)
    else match FindExtension(fileExt, extensions[1..])
      case None => None
      case Some(i) => Some(i + 1)
  }

  /** With the default list, C++ sources and headers are formatted. */
  lemma DefaultsFormatCpp()
    ensures FindExtension(".cpp", ValidateExtensions([])).Some?
    ensures FindExtension(".hpp", ValidateExtensions([])).Some?
    ensures FindExtension(".txt", ValidateExtensions([])).None?
  {
    assert ExtensionMatches(".cpp", DefaultExtensions[2]);
    assert ExtensionMatches(".hpp", DefaultExtensions[1]);
    forall j | 0 <= j < |DefaultExtensions|
      ensures !ExtensionMatches(".txt", DefaultExtensions[j])
    {
      assert ".txt"[1] == 't';
      assert ".txt"[1..] != DefaultExtensions[j] by {
        assert |DefaultExtensions[j]| != 3 || DefaultExtensions[j][0] != 't';
      }
    }
  }

  // ---------------------------------------------------------------------
  // Threads

  /** `validate_threads` as written: a zero thread count becomes
      `min(hardware_concurrency(), 1)`; any other count is kept. */
  function ThreadsAsWritten(parallel: nat, hardware: nat): (r: nat)
    ensures parallel > 0 ==> r == parallel
    ensures parallel == 0 ==> r <= 1 && r <= hardware
    ensures parallel == 0 ==> (r == 0 <==> hardware == 0)
  {
    if parallel == 0 then (if hardware < 1 then hardware else 1) else parallel
  }

  /** When the hardware concurrency is unknown (reported as 0), the count
      the validation was meant to fix stays 0; on any machine it is at most
      one thread, however many cores there are. */
  lemma ThreadsAsWrittenStaysZero(hardware: nat)
    ensures ThreadsAsWritten(0, 0) == 0
    ensures ThreadsAsWritten(0, hardware) <= 1
  {
  }

  /** The evident intent: `max(hardware_concurrency(), 1)`, at least one
      thread and as many as the hardware offers. */
  function Threads(parallel: nat, hardware: nat): (r: nat)
    ensures r > 0
    ensures parallel > 0 ==> r == parallel
    ensures parallel == 0 ==> r >= hardware && (hardware > 0 ==> r == hardware)
    ensures parallel == 0 && hardware == 0 ==> r == 1
  {
    if parallel == 0 then (if hardware < 1 then 1 else hardware) else parallel
  }

  /** The older copy of the validation in `main.cpp`: a zero thread count
      becomes the count `futuresConcurrency` that the futures library's
      `hardware_concurrency()` reports, with neither bound. That helper is
      not part of this model, so its value is a parameter of its own. */
  function ThreadsInMain(parallel: nat, futuresConcurrency: nat): (r: nat)
    ensures parallel > 0 ==> r == parallel
    ensures parallel == 0 ==> r == futuresConcurrency
  {
    if parallel == 0 then futuresConcurrency else parallel
  }

  /** The older copy uses every core the futures library reports, which is
      what the corrected validation does with that same count, whenever the
      count is positive; they part only on a count of zero. */
  lemma ThreadsInMainAgrees(parallel: nat, futuresConcurrency: nat)
    ensures ThreadsInMain(parallel, futuresConcurrency) != Threads(parallel, futuresConcurrency)
        <==> parallel == 0 && futuresConcurrency == 0
  {
  }

  /** The two agree except when the count was zero and the machine reports
      other than exactly one core. */
  lemma ThreadsDiffer(parallel: nat, hardware: nat)
    ensures ThreadsAsWritten(parallel, hardware) != Threads(parallel, hardware) <==> parallel == 0 && hardware != 1
  {
  }
}
