/** `str.split` and `str.join` on one separator character, and relative POSIX paths. */
module Texts {

  /** `s.split(sep)`. */
  function Split(s: string, sep: char): (parts: seq<string>)
    ensures parts != []
  {
    if s == "" then [""]
    else
      var rest := Split(s[1..], sep);
      if s[0] == sep then [""] + rest else [[s[0]] + rest[0]] + rest[1..]
  }

  /** `sep.join(parts)`. */
  function Join(parts: seq<string>, sep: char): string {
    if parts == [] then ""
    else if |parts| == 1 then parts[0]
    else parts[0] + [sep] + Join(parts[1..], sep)
  }

  lemma {:induction false} JoinSplit(s: string, sep: char)
    ensures Join(Split(s, sep), sep) == s
    ensures forall part | part in Split(s, sep) :: sep !in part
  {
    if s != "" {
      var rest := Split(s[1..], sep);
      JoinSplit(s[1..], sep);
      assert rest[0] in rest;
      if s[0] == sep {
        assert ([""] + rest)[1..] == rest;
      } else {
        var head := [s[0]] + rest[0];
        assert ([head] + rest[1..])[1..] == rest[1..];
        assert Join([head] + rest[1..], sep) == [s[0]] + Join(rest, sep);
        forall part | part in [head] + rest[1..] ensures sep !in part {
          assert part == head || part in rest;
        }
      }
    }
  }

  lemma {:induction false} SplitAt(s: string, t: string, sep: char)
    requires sep !in s
    ensures Split(s + [sep] + t, sep) == [s] + Split(t, sep)
    ensures Split(s, sep) == [s]
  {
    if s == "" {
      assert "" + [sep] + t == [sep] + t;
      assert ([sep] + t)[1..] == t;
    } else {
      SplitAt(s[1..], t, sep);
      assert (s + [sep] + t)[1..] == s[1..] + [sep] + t;
      assert [s[0]] + s[1..] == s;
    }
  }

  lemma {:induction false} SplitJoin(parts: seq<string>, sep: char)
    requires parts != [] && forall part | part in parts :: sep !in part
    ensures Split(Join(parts, sep), sep) == parts
  {
    assert parts[0] in parts;
    SplitAt(parts[0], Join(parts[1..], sep), sep);
    if |parts| > 1 {
      SplitJoin(parts[1..], sep);
      assert parts == [parts[0]] + parts[1..];
    } else {
      assert parts == [parts[0]];
    }
  }

  // ---------------------------------------------------------------- paths

  /** The parts that a relative POSIX path keeps: empty and "." segments vanish. */
  function Kept(segments: seq<string>): (kept: seq<string>)
    ensures forall part | part in kept :: part != "" && part != "." && part in segments
  {
    if segments == [] then []
    else (if segments[0] == "" || segments[0] == "." then [] else [segments[0]]) + Kept(segments[1..])
  }

  function Parts(raw: string): seq<string> {
    Kept(Split(raw, '/'))
  }

  predicate IsAbsolute(raw: string) {
    raw != "" && raw[0] == '/'
  }

  /** `as_posix` of a relative path. */
  function AsPosix(raw: string): string
    requires !IsAbsolute(raw)
  {
    if Parts(raw) == [] then "." else Join(Parts(raw), '/')
  }

  predicate CleanSegment(segment: string) {
    segment != "" && segment != "." && segment != ".."
  }

  predicate CleanSegments(raw: string) {
    forall segment | segment in Split(raw, '/') :: CleanSegment(segment)
  }

  lemma {:induction false} KeptAll(segments: seq<string>)
    requires forall segment | segment in segments :: segment != "" && segment != "."
    ensures Kept(segments) == segments
  {
    if segments != [] {
      assert segments[0] in segments;
      forall segment | segment in segments[1..] ensures segment != "" && segment != "." {
        assert segment in segments;
      }
      KeptAll(segments[1..]);
    }
  }

  /** A relative path is its own normal form exactly when it is "." or has no empty and no "." segment. */
  lemma {:induction false} NormalForm(raw: string)
    requires !IsAbsolute(raw)
    ensures AsPosix(raw) == raw <==>
      raw == "." || forall segment | segment in Split(raw, '/') :: segment != "" && segment != "."
  {
    var segments := Split(raw, '/');
    JoinSplit(raw, '/');
    if forall segment | segment in segments :: segment != "" && segment != "." {
      KeptAll(segments);
      assert Parts(raw) == segments != [];
    }
    if AsPosix(raw) == raw && Parts(raw) != [] {
      SplitJoin(Parts(raw), '/');
      assert segments == Parts(raw);
    }
    if raw == "." {
      DotSegments();
    }
  }

  lemma {:induction false} DotSegments()
    ensures Split(".", '/') == ["."] && Parts(".") == [] && AsPosix(".") == "."
  {
    SplitAt(".", "", '/');
    assert Kept(["."][1..]) == [];
  }

  lemma {:induction false} AbsoluteSegments(raw: string)
    requires IsAbsolute(raw)
    ensures "" in Split(raw, '/')
  {
    assert Split(raw, '/') == [""] + Split(raw[1..], '/');
  }

  /** A non-empty relative path in normal form that never climbs. */
  predicate NormalRelative(raw: string) {
    raw != "" && !IsAbsolute(raw) && AsPosix(raw) == raw && ".." !in Parts(raw)
  }

  /** These are "." and the paths of clean segments. */
  lemma {:induction false} NormalRelativePaths(raw: string)
    ensures NormalRelative(raw) <==> raw == "." || CleanSegments(raw)
  {
    if raw == "." {
      DotSegments();
    } else if IsAbsolute(raw) {
      AbsoluteSegments(raw);
    } else {
      NormalForm(raw);
      if forall segment | segment in Split(raw, '/') :: segment != "" && segment != "." {
        KeptAll(Split(raw, '/'));
      }
    }
  }
}
