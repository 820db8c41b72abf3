/*
 * The line parser of get_test_dependencies (main.py:122-129), which reads a
 * local fixture of lines `A:B,C` in test mode. The file itself is not
 * modelled: the fixture is the sequence of its lines.
 */
module Fixture {
  import opened DepGraph
  import Builder

  /** Python's `str.isspace()` for one character. */
  predicate IsSpace(c: char)
  {
    || ('\t' <= c <= '\r')
    || ('\U{1C}' <= c <= ' ')
    || c == '\U{85}' || c == '\U{A0}' || c == '\U{1680}'
    || ('\U{2000}' <= c <= '\U{200A}')
    || c == '\U{2028}' || c == '\U{2029}' || c == '\U{202F}' || c == '\U{205F}' || c == '\U{3000}'
  }

  /** Where `s.lstrip()` cuts: the first position from `i` on that is not whitespace. */
  function SkipSpaces(s: string, i: nat): (n: nat)
    requires i <= |s|
    ensures i <= n <= |s|
    ensures forall k :: i <= k < n ==> IsSpace(s[k])
    ensures n == |s| || !IsSpace(s[n])
    decreases |s| - i
  {
    if i < |s| && IsSpace(s[i]) then SkipSpaces(s, i + 1) else i
  }

  /** Where `s.rstrip()` cuts: the position after the last non-whitespace before `j`. */
  function SkipSpacesBack(s: string, j: nat): (n: nat)
    requires j <= |s|
    ensures n <= j
    ensures forall k :: n <= k < j ==> IsSpace(s[k])
    ensures n == 0 || !IsSpace(s[n - 1])
  {
    if j > 0 && IsSpace(s[j - 1]) then SkipSpacesBack(s, j - 1) else j
  }

  /**
   * `s.strip()`: what is left between the leading and the trailing
   * whitespace; empty exactly when `s` is all whitespace.
   */
  function Strip(s: string): (r: string)
    ensures r == [] || (!IsSpace(r[0]) && !IsSpace(r[|r| - 1]))
    ensures r == [] <==> forall i :: 0 <= i < |s| ==> IsSpace(s[i])
    ensures forall c :: c in r ==> c in s
  {
    var start := SkipSpaces(s, 0);
    var end := SkipSpacesBack(s, |s|);
    assert start < end || forall i :: 0 <= i < |s| ==> IsSpace(s[i]) by {
      if start < |s| {
        assert !IsSpace(s[start]) && start < end;
      }
    }
    if start < end then s[start..end] else []
  }

  /**
   * The stripped string is the piece of `s` left after removing a run of
   * whitespace at each end; with the end conditions of `Strip` this is
   * exactly `str.strip()`.
   */
  lemma StripTrims(s: string)
    ensures exists i, j ::
              && 0 <= i <= j <= |s| && Strip(s) == s[i..j]
              && (forall k :: 0 <= k < i ==> IsSpace(s[k]))
              && (forall k :: j <= k < |s| ==> IsSpace(s[k]))
  {
    var start := SkipSpaces(s, 0);
    var end := SkipSpacesBack(s, |s|);
    if start < end {
      assert Strip(s) == s[start..end];
      assert forall k :: 0 <= k < start ==> IsSpace(s[k]);
      assert forall k :: end <= k < |s| ==> IsSpace(s[k]);
    } else {
      assert Strip(s) == s[|s|..|s|];
      assert forall k :: 0 <= k < |s| ==> IsSpace(s[k]);
    }
  }

  /** A stripped string strips to itself. */
  lemma StripIdempotent(s: string)
    ensures Strip(Strip(s)) == Strip(s)
  {
    var r := Strip(s);
    if r != [] {
      assert SkipSpaces(r, 0) == 0;
      assert SkipSpacesBack(r, |r|) == |r|;
      assert r[0..|r|] == r;
    }
  }

  /** `line.split(':', 1)` on a line that holds a `:`: cut at the first one. */
  function SplitAtColon(line: string): (parts: (string, string))
    requires ':' in line
    ensures line == parts.0 + ":" + parts.1
    ensures ':' !in parts.0
  {
    var i := IndexOf(line, ':');
    assert line == line[..i] + [line[i]] + line[i + 1..];
    (line[..i], line[i + 1..])
  }

  /** `s.split(',')`: the pieces between the commas, empty ones included. */
  function SplitCommas(s: string): (parts: seq<string>)
    ensures |parts| >= 1
    ensures forall p :: p in parts ==> ',' !in p
    decreases |s|
  {
    if ',' in s then
      var i := IndexOf(s, ',');
      [s[..i]] + SplitCommas(s[i + 1..])
    else
      [s]
  }

  /** `",".join(parts)`. */
  function JoinCommas(parts: seq<string>): string
    requires |parts| >= 1
  {
    if |parts| == 1 then parts[0] else parts[0] + "," + JoinCommas(parts[1..])
  }

  /** Joining the pieces with commas gives back the string. */
  lemma {:induction false} SplitCommasJoins(s: string)
    ensures JoinCommas(SplitCommas(s)) == s
    decreases |s|
  {
    if ',' in s {
      var i := IndexOf(s, ',');
      SplitCommasJoins(s[i + 1..]);
      assert s == s[..i] + "," + s[i + 1..];
    }
  }

  /** `[d.strip() for d in parts if d.strip()]`. */
  function StripNonBlank(parts: seq<string>): (ds: seq<string>)
    ensures |ds| <= |parts|
    ensures forall d :: d in ds ==> d != [] && !IsSpace(d[0]) && !IsSpace(d[|d| - 1])
    ensures (forall p :: p in parts ==> ',' !in p) ==> forall d :: d in ds ==> ',' !in d
  {
    if parts == [] then []
    else
      var d := Strip(parts[0]);
      var rest := StripNonBlank(parts[1..]);
      assert (forall p :: p in parts ==> ',' !in p) ==> ',' !in d && forall p :: p in parts[1..] ==> ',' !in p by {
        if forall p :: p in parts ==> ',' !in p {
          assert parts[0] in parts;
          assert forall p :: p in parts[1..] ==> p in parts;
        }
      }
      if d == [] then rest else [d] + rest
  }

  /** Every piece that is not blank is kept, stripped, and nothing else is. */
  lemma {:induction false} StripNonBlankExactly(parts: seq<string>)
    ensures forall p :: p in parts && Strip(p) != [] ==> Strip(p) in StripNonBlank(parts)
    ensures forall d :: d in StripNonBlank(parts) ==> exists p :: p in parts && Strip(p) == d
  {
    if parts != [] {
      StripNonBlankExactly(parts[1..]);
      var d := Strip(parts[0]);
      var rest := StripNonBlank(parts[1..]);
      assert StripNonBlank(parts) == (if d != [] then [d] else []) + rest;
      assert forall p :: p in parts ==> p == parts[0] || p in parts[1..];
      forall x | x in StripNonBlank(parts)
        ensures exists p :: p in parts && Strip(p) == x
      {
        if x in rest {
          var p :| p in parts[1..] && Strip(p) == x;
          assert p in parts;
        } else {
          assert parts[0] in parts && Strip(parts[0]) == x;
        }
      }
    }
  }

  /**
   * The dependency list of `deps_str`: exactly the pieces between its commas
   * that are not blank, each stripped; so every name is non-empty, trimmed
   * and comma-free.
   */
  function ParseDepList(depsStr: string): (ds: seq<string>)
    ensures forall d :: d in ds ==> d != [] && ',' !in d && !IsSpace(d[0]) && !IsSpace(d[|d| - 1])
    ensures forall p :: p in SplitCommas(depsStr) && Strip(p) != [] ==> Strip(p) in ds
    ensures forall d :: d in ds ==> exists p :: p in SplitCommas(depsStr) && Strip(p) == d
  {
    StripNonBlankExactly(SplitCommas(depsStr));
    StripNonBlank(SplitCommas(depsStr))
  }

  /** A line that is read at all: not blank and holding a `:` once stripped. */
  predicate IsDeclaration(line: string)
  {
    var s := Strip(line);
    s != [] && ':' in s
  }

  /** The part of a declaration before its first `:`. */
  function DeclaredPackage(line: string): string
    requires IsDeclaration(line)
  {
    SplitAtColon(Strip(line)).0
  }

  /** The dependency list of a declaration, after its first `:`. */
  function DeclaredDeps(line: string): seq<string>
    requires IsDeclaration(line)
  {
    ParseDepList(SplitAtColon(Strip(line)).1)
  }

  /** The line declares `package`. */
  predicate Declares(line: string, package: string)
  {
    IsDeclaration(line) && DeclaredPackage(line) == package
  }

  /** The dependencies the fixture gives `package`: its first declaration's, or none. */
  function FixtureDeps(lines: seq<string>, package: string): seq<string>
  {
    if lines == [] then []
    else if Declares(lines[0], package) then DeclaredDeps(lines[0])
    else FixtureDeps(lines[1..], package)
  }

  /** The first line that declares `package` decides its dependencies. */
  lemma {:induction false} FixtureDepsFirstMatch(lines: seq<string>, package: string, i: nat)
    requires i < |lines| && Declares(lines[i], package)
    requires forall j :: 0 <= j < i ==> !Declares(lines[j], package)
    ensures FixtureDeps(lines, package) == DeclaredDeps(lines[i])
  {
    if i > 0 {
      assert !Declares(lines[0], package);
      forall j | 0 <= j < i - 1
        ensures !Declares(lines[1..][j], package)
      {
        assert lines[1..][j] == lines[j + 1];
      }
      FixtureDepsFirstMatch(lines[1..], package, i - 1);
    }
  }

  /** A package no line declares has no dependencies. */
  lemma {:induction false} FixtureDepsNoMatch(lines: seq<string>, package: string)
    requires forall j :: 0 <= j < |lines| ==> !Declares(lines[j], package)
    ensures FixtureDeps(lines, package) == []
  {
    if lines != [] {
      assert !Declares(lines[0], package);
      forall j | 0 <= j < |lines| - 1
        ensures !Declares(lines[1..][j], package)
      {
        assert lines[1..][j] == lines[j + 1];
      }
      FixtureDepsNoMatch(lines[1..], package);
    }
  }

  /**
   * `get_test_dependencies(package, test_file)` over the file's lines: the
   * first declaration of `package` gives the answer, and a fixture without
   * one gives `[]`. Every name is non-empty, trimmed and comma-free.
   */
  method GetTestDependencies(lines: seq<string>, package: string) returns (deps: seq<string>)
    ensures deps == FixtureDeps(lines, package)
    ensures forall d :: d in deps ==> d != [] && ',' !in d && !IsSpace(d[0]) && !IsSpace(d[|d| - 1])
  {
    for i := 0 to |lines|
      invariant FixtureDeps(lines[i..], package) == FixtureDeps(lines, package)
    {
      assert lines[i..][1..] == lines[i + 1..];
      var line := Strip(lines[i]);
      if line == [] || ':' !in line {
        continue;
      }
      var (pkg, depsStr) := SplitAtColon(line);
      if pkg == package {
        deps := ParseDepList(depsStr);
        return;
      }
    }
    deps := [];
  }

  /** Every name some declaration lists as a dependency. */
  ghost function Mentioned(lines: seq<string>): set<string>
  {
    if lines == [] then {}
    else (if IsDeclaration(lines[0]) then Elems(DeclaredDeps(lines[0])) else {}) + Mentioned(lines[1..])
  }

  /** Whatever the fixture gives a package is mentioned in it. */
  lemma {:induction false} FixtureDepsMentioned(lines: seq<string>, package: string)
    ensures forall d :: d in FixtureDeps(lines, package) ==> d in Mentioned(lines)
  {
    if lines != [] && !Declares(lines[0], package) {
      FixtureDepsMentioned(lines[1..], package);
    }
  }

  /**
   * In test mode the dependency source is the fixture, and the root together
   * with every name the fixture mentions is closed under it, so the
   * graph builder terminates on any fixture.
   */
  lemma FixtureSourceClosed(lines: seq<string>, root: string)
    ensures Builder.Closed(p => FixtureDeps(lines, p), {root} + Mentioned(lines))
  {
    forall p | p in {root} + Mentioned(lines)
      ensures forall d :: d in FixtureDeps(lines, p) ==> d in {root} + Mentioned(lines)
    {
      FixtureDepsMentioned(lines, p);
    }
  }
}
