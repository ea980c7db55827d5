/** The strict checksum manifest (`_manifest_entries`, with `MANIFEST_LINE_RE` and
    `_validate_relative_path`). */
module ChecksumManifest {
  import opened Options
  import opened Texts

  datatype Entry = Entry(digest: string, path: string)

  predicate IsHexDigit(c: char) {
    '0' <= c <= '9' || 'a' <= c <= 'f'
  }

  predicate IsDigest(s: string) {
    |s| == 64 && forall i | 0 <= i < |s| :: IsHexDigit(s[i])
  }

  /** A digest is any text of 64 lower-case hexadecimal digits. */
  lemma {:induction false} DigestsAreHex(s: string)
    ensures IsDigest(s) <==> |s| == 64 && forall i | 0 <= i < |s| :: s[i] in "0123456789abcdef"
  {
    assert forall c: char :: IsHexDigit(c) <==> c in "0123456789abcdef";
  }

  /** `[^\r\n]+`. */
  predicate IsLineText(s: string) {
    s != "" && '\r' !in s && '\n' !in s
  }

  /** A full match of `([0-9a-f]{64})  ([^\r\n]+)`, and its two groups. */
  function MatchLine(line: string): Option<Entry> {
    if |line| > 66 && IsDigest(line[..64]) && line[64..66] == "  " && IsLineText(line[66..])
    then Some(Entry(line[..64], line[66..])) else None
  }

  /** `_validate_relative_path`, for a string. */
  predicate ValidRelativePath(raw: string) {
    && raw != "" && '\\' !in raw
    && !IsAbsolute(raw) && raw == AsPosix(raw)
    && forall part | part in Parts(raw) :: CleanSegment(part)
  }

  /** The admitted paths are "." and the backslash-free paths of clean segments. */
  lemma {:induction false} AdmittedPaths(raw: string)
    ensures ValidRelativePath(raw) <==> raw == "." || ('\\' !in raw && CleanSegments(raw))
  {
    NormalRelativePaths(raw);
  }

  predicate ValidEntry(entry: Entry) {
    IsDigest(entry.digest) && IsLineText(entry.path) && ValidRelativePath(entry.path)
  }

  function LineOf(entry: Entry): string {
    entry.digest + "  " + entry.path
  }

  /** The canonical text: one line per entry, each ended by LF. */
  function Render(entries: seq<Entry>): string {
    if entries == [] then "" else LineOf(entries[0]) + "\n" + Render(entries[1..])
  }

  predicate DistinctPaths(entries: seq<Entry>) {
    forall i, j | 0 <= i < j < |entries| :: entries[i].path != entries[j].path
  }

  ghost predicate WellFormed(entries: seq<Entry>) {
    entries != [] && DistinctPaths(entries) && forall i | 0 <= i < |entries| :: ValidEntry(entries[i])
  }

  function LinesOf(entries: seq<Entry>): (lines: seq<string>)
    ensures |lines| == |entries| && forall i | 0 <= i < |lines| :: lines[i] == LineOf(entries[i])
  {
    if entries == [] then [] else [LineOf(entries[0])] + LinesOf(entries[1..])
  }

  /** The parser accepts exactly the canonical texts of well-formed entry lists, and returns the
      entries that were written. */
  method ManifestEntries(text: string) returns (result: Result<seq<Entry>>)
    ensures result.Ok? ==> WellFormed(result.value) && Render(result.value) == text
    ensures forall entries | WellFormed(entries) && Render(entries) == text :: result == Ok(entries)
  {
    hide Render, LineOf, ValidEntry, MatchLine, ValidRelativePath, DistinctPaths, LinesOf, Split;
    CanonicalText(text);
    if text == "" || text[|text| - 1] != '\n' || '\r' in text {
      return Err("checksum manifest must use LF and one terminal LF");
    }
    var lines := Split(text[..|text| - 1], '\n');
    var entries: seq<Entry> := [];
    var seen: set<string> := {};
    NothingParsed(lines);
    for number := 0 to |lines|
      invariant Parsed(entries, lines, number)
      invariant seen == Paths(entries)
    {
      var line := lines[number];
      ParseStep(entries, lines, number);
      var matched := MatchLine(line);
      if matched == None {
        return Err("non-canonical checksum line");
      }
      var entry := matched.value;
      if !ValidRelativePath(entry.path) {
        return Err("checksum path must be a normalized repository-relative path");
      }
      if entry.path in seen {
        return Err("duplicate checksum path");
      }
      seen := seen + {entry.path};
      entries := entries + [entry];
    }
    AllParsed(text, entries);
    result := Ok(entries);
  }

  function Paths(entries: seq<Entry>): set<string> {
    set i | 0 <= i < |entries| :: entries[i].path
  }

  /** The entries of the first `k` lines, none repeated. */
  ghost predicate Parsed(entries: seq<Entry>, lines: seq<string>, k: nat)
    requires k <= |lines|
  {
    && LinesOf(entries) == lines[..k]
    && DistinctPaths(entries)
    && forall i | 0 <= i < |entries| :: ValidEntry(entries[i])
  }

  lemma {:induction false} NothingParsed(lines: seq<string>)
    ensures Parsed([], lines, 0) && Paths([]) == {}
  {
  }

  /** One line: either it extends the entries, or no well-formed list has these lines. */
  lemma {:induction false} ParseStep(entries: seq<Entry>, lines: seq<string>, k: nat)
    requires k < |lines| && Parsed(entries, lines, k)
    ensures var matched := MatchLine(lines[k]);
      if matched.Some? && ValidRelativePath(matched.value.path) && matched.value.path !in Paths(entries)
      then
        && Parsed(entries + [matched.value], lines, k + 1)
        && Paths(entries + [matched.value]) == Paths(entries) + {matched.value.path}
      else forall others: seq<Entry> | WellFormed(others) :: LinesOf(others) != lines
  {
    hide ValidRelativePath, LineOf, ValidEntry, Parsed, Paths, MatchLine, WellFormed;
    var matched := MatchLine(lines[k]);
    if matched.Some? && ValidRelativePath(matched.value.path) && matched.value.path !in Paths(entries) {
      ExtendsParsed(entries, lines, k, matched.value);
    } else {
      forall others: seq<Entry> | WellFormed(others) ensures LinesOf(others) != lines {
        if LinesOf(others) == lines {
          NextEntry(entries, lines, k, others);
        }
      }
    }
  }

  /** In the lines of a well-formed list, the next line matches a valid entry with a new path. */
  lemma {:induction false} NextEntry(entries: seq<Entry>, lines: seq<string>, k: nat, others: seq<Entry>)
    requires k < |lines| && Parsed(entries, lines, k)
    requires WellFormed(others) && LinesOf(others) == lines
    ensures MatchLine(lines[k]) == Some(others[k])
    ensures ValidRelativePath(others[k].path) && others[k].path !in Paths(entries)
  {
    hide ValidRelativePath, LineOf;
    EntriesAreUnique(entries, lines, k, others);
    assert ValidEntry(others[k]) && LineOf(others[k]) == lines[k];
    LineIsUnique(lines[k]);
    forall i | 0 <= i < |entries| ensures entries[i].path != others[k].path {
      assert entries[i] == others[i];
    }
  }

  lemma {:induction false} ExtendsParsed(entries: seq<Entry>, lines: seq<string>, k: nat, entry: Entry)
    requires k < |lines| && Parsed(entries, lines, k)
    requires MatchLine(lines[k]) == Some(entry) && ValidRelativePath(entry.path) && entry.path !in Paths(entries)
    ensures Parsed(entries + [entry], lines, k + 1)
    ensures Paths(entries + [entry]) == Paths(entries) + {entry.path}
  {
    hide ValidRelativePath;
    LineIsUnique(lines[k]);
    assert |entries| == k;
    assert LinesOf(entries + [entry]) == lines[..k + 1];
    var longer := entries + [entry];
    forall i, j | 0 <= i < j < |longer| ensures longer[i].path != longer[j].path {
      assert i < k && longer[i].path in Paths(entries);
    }
    forall path ensures path in Paths(longer) <==> path in Paths(entries) + {entry.path} {
      if path in Paths(entries) {
        var i :| 0 <= i < |entries| && entries[i].path == path;
        assert longer[i].path == path;
      } else if path == entry.path {
        assert longer[k].path == path;
      }
    }
  }

  lemma {:induction false} AllParsed(text: string, entries: seq<Entry>)
    requires text != "" && text[|text| - 1] == '\n'
    requires var lines := Split(text[..|text| - 1], '\n'); Parsed(entries, lines, |lines|)
    ensures WellFormed(entries) && Render(entries) == text
    ensures forall others: seq<Entry> | WellFormed(others) && LinesOf(others) == Split(text[..|text| - 1], '\n') ::
      others == entries
  {
    hide ValidEntry, LineOf;
    var lines := Split(text[..|text| - 1], '\n');
    assert lines[..|lines|] == lines;
    TextOfLines(text, entries);
    forall others: seq<Entry> | WellFormed(others) && LinesOf(others) == lines ensures others == entries {
      EntriesAreUnique(entries, lines, |lines|, others);
      assert others[..|lines|] == others;
    }
  }

  /** What the parser sees of a canonical text. */
  lemma {:induction false} CanonicalText(text: string)
    ensures forall entries | WellFormed(entries) && Render(entries) == text ::
      && text != "" && text[|text| - 1] == '\n' && '\r' !in text
      && LinesOf(entries) == Split(text[..|text| - 1], '\n')
  {
    hide ValidEntry, LineOf, Render;
    forall entries | WellFormed(entries) && Render(entries) == text
      ensures text != "" && text[|text| - 1] == '\n' && '\r' !in text
      ensures LinesOf(entries) == Split(text[..|text| - 1], '\n')
    {
      RenderedText(entries);
    }
  }

  // ---------------------------------------------------------------- lines and entries

  /** A line matches as the entry that it prints, and as no other. */
  lemma {:induction false} LineIsUnique(line: string)
    ensures MatchLine(line).Some? ==> LineOf(MatchLine(line).value) == line
    ensures forall entry: Entry | IsDigest(entry.digest) && IsLineText(entry.path) && LineOf(entry) == line ::
      MatchLine(line) == Some(entry)
  {
  }

  lemma {:induction false} EntriesAreUnique(entries: seq<Entry>, lines: seq<string>, k: nat, others: seq<Entry>)
    requires k <= |lines| && Parsed(entries, lines, k)
    requires WellFormed(others) && LinesOf(others) == lines
    ensures entries == others[..k]
  {
    hide DistinctPaths;
    forall i | 0 <= i < k ensures entries[i] == others[i] {
      assert LineOf(entries[i]) == lines[..k][i] == LineOf(others[i]);
      assert ValidEntry(entries[i]) && ValidEntry(others[i]);
      LineIsUnique(lines[i]);
    }
  }

  lemma {:induction false} LineHasNoBreak(entry: Entry)
    requires ValidEntry(entry)
    ensures '\n' !in LineOf(entry) && '\r' !in LineOf(entry)
  {
  }

  lemma {:induction false} RenderIsJoin(entries: seq<Entry>)
    requires entries != []
    ensures Render(entries) == Join(LinesOf(entries), '\n') + "\n"
  {
    if |entries| > 1 {
      RenderIsJoin(entries[1..]);
      assert LinesOf(entries)[1..] == LinesOf(entries[1..]);
    } else {
      assert Render(entries[1..]) == "";
    }
  }

  lemma {:induction false} JoinAvoids(parts: seq<string>, sep: char, c: char)
    requires c != sep && forall part | part in parts :: c !in part
    ensures c !in Join(parts, sep)
  {
    if |parts| > 1 {
      assert parts[0] in parts;
      JoinAvoids(parts[1..], sep, c);
    } else if |parts| == 1 {
      assert parts[0] in parts;
    }
  }

  /** What the canonical text of well-formed entries looks like to the parser. */
  lemma {:induction false} RenderedText(entries: seq<Entry>)
    requires WellFormed(entries)
    ensures var text := Render(entries);
      && text != "" && text[|text| - 1] == '\n' && '\r' !in text
      && Split(text[..|text| - 1], '\n') == LinesOf(entries)
  {
    var lines, text := LinesOf(entries), Render(entries);
    RenderIsJoin(entries);
    forall line | line in lines ensures '\n' !in line && '\r' !in line {
      var i :| 0 <= i < |lines| && lines[i] == line;
      LineHasNoBreak(entries[i]);
    }
    SplitJoin(lines, '\n');
    JoinAvoids(lines, '\n', '\r');
    assert text[..|text| - 1] == Join(lines, '\n');
  }

  lemma {:induction false} TextOfLines(text: string, entries: seq<Entry>)
    requires text != "" && text[|text| - 1] == '\n'
    requires LinesOf(entries) == Split(text[..|text| - 1], '\n')
    ensures entries != [] && Render(entries) == text
  {
    JoinSplit(text[..|text| - 1], '\n');
    assert entries != [];
    RenderIsJoin(entries);
    assert text == text[..|text| - 1] + "\n";
  }

  /** Printing loses nothing: two well-formed lists with the same text are the same list. */
  lemma {:induction false} RenderIsInjective(entries: seq<Entry>, others: seq<Entry>)
    requires WellFormed(entries) && WellFormed(others) && Render(entries) == Render(others)
    ensures entries == others
  {
    hide Render, LineOf, ValidEntry;
    RenderedText(entries);
    RenderedText(others);
    var lines := LinesOf(others);
    assert lines[..|lines|] == lines && others[..|lines|] == others;
    EntriesAreUnique(entries, lines, |lines|, others);
  }
}
