/** Relative file-system paths as `java.nio.file.Path` treats them: a sequence of
    name segments, parsed from strings by `Paths.get` and rendered back by `toString`. */
module Paths {
  import opened Wrappers
  import opened Strings

  const Separator: char := '/'

  /** A name segment: non-empty and free of separators. */
  predicate IsSegment(s: string) {
    s != "" && Separator !in s
  }

  type Segment = s: string | IsSegment(s) witness "a"

  type Path = p: seq<string> | forall i :: 0 <= i < |p| ==> IsSegment(p[i])

  /** The segments `Paths.get` parses out of one string argument: repeated, leading and
      trailing separators produce no segment. */
  function Segments(s: string): (p: Path)
    ensures Separator !in s && s != "" ==> p == [s]
    ensures s == "" ==> p == []
  {
    assert "" + s == s;
    SegmentsAfter("", s)
  }

  /** The pending name `name`, as a path of at most one segment. */
  function Pending(name: string): (p: Path)
    requires Separator !in name
    ensures name == "" ==> p == []
    ensures name != "" ==> p == [name]
  {
    if name == "" then [] else [name]
  }

  /** Scans `s` one character at a time, `name` being the segment read so far: a
      separator ends the pending segment, any other character extends it. */
  function SegmentsAfter(name: string, s: string): (p: Path)
    requires Separator !in name
    ensures Separator !in s ==> p == Pending(name + s)
    decreases |s|
  {
    if s == "" then
      assert name + s == name;
      Pending(name)
    else if s[0] == Separator then
      Pending(name) + SegmentsAfter("", s[1..])
    else
      assert name + s == name + [s[0]] + s[1..];
      SegmentsAfter(name + [s[0]], s[1..])
  }

  /** The arguments of `Paths.get(first, more...)` joined by separators into one string. */
  function Joined(parts: seq<string>): string
    decreases |parts|
  {
    if |parts| == 0 then ""
    else if |parts| == 1 then parts[0]
    else Joined(parts[..|parts| - 1]) + [Separator] + parts[|parts| - 1]
  }

  /** `Paths.get(first, more...)`: the concatenation of each argument's segments, which is
      what parsing the arguments joined by separators gives. */
  function Get(parts: seq<string>): (p: Path)
    ensures |parts| == 0 ==> p == []
    ensures |parts| > 0 ==> p == Segments(Joined(parts))
    decreases |parts|
  {
    if |parts| == 0 then []
    else
      var init, last := parts[..|parts| - 1], parts[|parts| - 1];
      SegmentsOfJoin(Joined(init), last);
      Get(init) + Segments(last)
  }

  lemma GetTwo(a: string, b: string)
    ensures Get([a, b]) == Segments(a) + Segments(b)
  {
    assert [a, b][..1] == [a];
    assert [a][..0] == [];
  }

  lemma GetThree(a: string, b: string, c: string)
    ensures Get([a, b, c]) == Segments(a) + Segments(b) + Segments(c)
  {
    assert [a, b, c][..2] == [a, b];
    GetTwo(a, b);
  }

  /** A separator between two strings splits their segments: nothing is merged across
      it and nothing is lost. */
  lemma SegmentsOfJoin(a: string, b: string)
    ensures Segments(a + [Separator] + b) == Segments(a) + Segments(b)
  {
    SegmentsAfterJoin("", a, b);
  }

  /** The scan of `a`, a separator, then `b`: the separator closes whatever segment is
      pending at the end of `a`, and `b` is scanned afresh. */
  lemma {:induction false} SegmentsAfterJoin(name: string, a: string, b: string)
    requires Separator !in name
    ensures SegmentsAfter(name, a + [Separator] + b) == SegmentsAfter(name, a) + SegmentsAfter("", b)
    decreases |a|
  {
    var s := a + [Separator] + b;
    if a == "" {
      assert s[0] == Separator && s[1..] == b;
    } else if a[0] == Separator {
      assert s[0] == Separator && s[1..] == a[1..] + [Separator] + b;
      SegmentsAfterJoin("", a[1..], b);
    } else {
      assert s[0] == a[0] && s[1..] == a[1..] + [Separator] + b;
      SegmentsAfterJoin(name + [a[0]], a[1..], b);
    }
  }

  /** `Path.toString()`: the segments joined by single separators. Parsing the string
      back gives the same path, so the string form names exactly one path. */
  function ToString(p: Path): (r: string)
    ensures r == Joined(p)
    ensures Segments(r) == p
    decreases |p|
  {
    if |p| == 0 then ""
    else if |p| == 1 then p[0]
    else
      var rest := ToString(p[1..]);
      SegmentsOfJoin(p[0], rest);
      JoinedCons(p[0], p[1..]);
      assert p == [p[0]] + p[1..];
      p[0] + [Separator] + rest
  }

  /** Joining is the same read from the front: the first part, a separator, the rest
      joined. */
  lemma {:induction false} JoinedCons(first: string, rest: seq<string>)
    requires |rest| > 0
    ensures Joined([first] + rest) == first + [Separator] + Joined(rest)
    decreases |rest|
  {
    var all := [first] + rest;
    if |rest| == 1 {
      assert all[..1] == [first];
    } else {
      var init := rest[..|rest| - 1];
      assert all[..|all| - 1] == [first] + init;
      JoinedCons(first, init);
    }
  }

  lemma ToStringInjective(p: Path, q: Path)
    requires ToString(p) == ToString(q)
    ensures p == q
  {
  }

  /** `Path.getParent()` of a relative path: absent for a path of at most one segment. */
  function Parent(p: Path): (r: Option<Path>)
    ensures r.Some? <==> |p| >= 2
    ensures r.Some? ==> r.value + [p[|p| - 1]] == p
  {
    if |p| <= 1 then None else Some(p[..|p| - 1])
  }

  /** `Path.getFileName()`: the last segment. */
  function FileName(p: Path): (r: Option<string>)
    ensures r.Some? <==> |p| >= 1
    ensures r.Some? ==> IsSegment(r.value) && p == p[..|p| - 1] + [r.value]
  {
    if |p| == 0 then None else Some(p[|p| - 1])
  }
}
