/** The step that walks a jar or a classes directory, keeps its `.class` entries, maps each
    class name (the entry's path without the suffix) to the hash of the entry's contents
    in a map sorted by name, writes that map as a text manifest, and keeps it for later
    readers. */
module ClassNames {
  import opened Wrappers
  import opened Strings

  /** The hash of an entry's contents, held as the lower-case hex text `toString` gives. */
  datatype HashCode = HashCode(hex: string)

  /** One entry met by the traversal: its relative path and the hash of its contents. */
  datatype FileLike = FileLike(relativePath: string, contentHash: HashCode)

  datatype Entry = Entry(name: string, hash: HashCode)

  const ClassSuffix: string := ".class"

  /** Separates a class name from its hash on a manifest line. */
  const Separator: string := " "

  predicate IsClassFile(f: FileLike) {
    |f.relativePath| >= |ClassSuffix| && f.relativePath[|f.relativePath| - |ClassSuffix|..] == ClassSuffix
  }

  function NameWithoutClassSuffix(f: FileLike): (r: string)
    requires IsClassFile(f)
    ensures r + ClassSuffix == f.relativePath
  {
    f.relativePath[..|f.relativePath| - |ClassSuffix|]
  }

  /** What visiting one entry contributes to the map: nothing for a resource or a
      directory entry, the class name and its hash for a class file. */
  function Visit(f: FileLike): (r: seq<Entry>)
    ensures |r| <= 1
    ensures |r| == 1 <==> IsClassFile(f)
    ensures |r| == 1 ==> r[0].name + ClassSuffix == f.relativePath && r[0].hash == f.contentHash
  {
    if IsClassFile(f) then [Entry(NameWithoutClassSuffix(f), f.contentHash)] else []
  }

  /** The puts the traversal makes into the map builder, in visiting order: exactly the
      stripped name and hash of each class file it meets. */
  function VisitAll(files: seq<FileLike>): (r: seq<Entry>)
    ensures |r| <= |files|
    ensures forall e :: e in r <==>
      exists f :: f in files && IsClassFile(f) && e == Entry(NameWithoutClassSuffix(f), f.contentHash)
    decreases |files|
  {
    if |files| == 0 then []
    else
      var init := files[..|files| - 1];
      assert files == init + [files[|files| - 1]];
      VisitAll(init) + Visit(files[|files| - 1])
  }

  /** The builder refuses duplicate keys, so the stripped class names must differ. */
  predicate DistinctNames(s: seq<Entry>) {
    forall i, j :: 0 <= i < j < |s| ==> s[i].name != s[j].name
  }

  /** Strictly ascending by name in the natural order of strings. */
  predicate SortedByName(m: seq<Entry>) {
    forall i, j :: 0 <= i < j < |m| ==> Less(m[i].name, m[j].name)
  }

  /** Places `e` among the entries of a sorted map. */
  function Insert(m: seq<Entry>, e: Entry): (r: seq<Entry>)
    requires SortedByName(m)
    requires forall i :: 0 <= i < |m| ==> m[i].name != e.name
    ensures SortedByName(r)
    ensures |r| == |m| + 1
    ensures forall x :: x in r <==> x in m || x == e
    decreases |m|
  {
    if |m| == 0 then [e]
    else if Less(e.name, m[0].name) then
      SortedInsertFront(m, e);
      [e] + m
    else
      LessTotal(e.name, m[0].name);
      var rest := Insert(m[1..], e);
      assert forall x :: x in rest ==> Less(m[0].name, x.name);
      [m[0]] + rest
  }

  lemma SortedInsertFront(m: seq<Entry>, e: Entry)
    requires SortedByName(m) && |m| > 0 && Less(e.name, m[0].name)
    ensures SortedByName([e] + m)
  {
    forall j | 1 <= j < |m| + 1
      ensures Less(e.name, ([e] + m)[j].name)
    {
      if j > 1 {
        LessTransitive(e.name, m[0].name, m[j - 1].name);
      }
    }
  }

  /** `ImmutableSortedMap.Builder.build()` with natural ordering: the entries put, sorted
      by name. */
  function Build(puts: seq<Entry>): (r: seq<Entry>)
    requires DistinctNames(puts)
    ensures SortedByName(r)
    ensures |r| == |puts|
    ensures forall x :: x in r <==> x in puts
    decreases |puts|
  {
    if |puts| == 0 then []
    else
      var init := puts[..|puts| - 1];
      var last := puts[|puts| - 1];
      var m := Build(init);
      assert forall x :: x in m ==> x.name != last.name;
      assert puts == init + [last];
      Insert(m, last)
  }

  /** The class-name map a successful traversal of `files` yields. */
  function Accumulate(files: seq<FileLike>): (r: seq<Entry>)
    requires DistinctNames(VisitAll(files))
    ensures SortedByName(r)
    ensures |r| == |VisitAll(files)|
    ensures forall e :: e in r <==>
      exists f :: f in files && IsClassFile(f) && e == Entry(NameWithoutClassSuffix(f), f.contentHash)
  {
    Build(VisitAll(files))
  }

  lemma SameMembersBothEmpty(m: seq<Entry>, n: seq<Entry>)
    requires forall x :: x in m <==> x in n
    ensures |m| == 0 <==> |n| == 0
  {
    if |m| > 0 {
      assert m[0] in n;
    }
    if |n| > 0 {
      assert n[0] in m;
    }
  }

  /** Two maps sorted by name with the same entries are the same sequence. */
  lemma {:induction false} SortedUnique(m: seq<Entry>, n: seq<Entry>)
    requires SortedByName(m) && SortedByName(n)
    requires forall x :: x in m <==> x in n
    ensures m == n
    decreases |m|
  {
    SameMembersBothEmpty(m, n);
    if |m| > 0 {
      if m[0] != n[0] {
        // each head is in the other map, so each is below the other
        assert m[0] in n && n[0] in m;
        var i :| 0 <= i < |n| && n[i] == m[0];
        var j :| 0 <= j < |m| && m[j] == n[0];
        assert Less(n[0].name, m[0].name);
        assert Less(m[0].name, n[0].name);
        LessAsymmetric(n[0].name, m[0].name);
      }
      forall x
        ensures x in m[1..] <==> x in n[1..]
      {
        if x in m[1..] {
          var i :| 1 <= i < |m| && m[i] == x;
          assert Less(m[0].name, x.name);
          if x == n[0] { LessIrreflexive(x.name); }
          assert x in n;
        }
        if x in n[1..] {
          var i :| 1 <= i < |n| && n[i] == x;
          assert Less(n[0].name, x.name);
          if x == m[0] { LessIrreflexive(x.name); }
          assert x in m;
        }
      }
      SortedUnique(m[1..], n[1..]);
      assert m == [m[0]] + m[1..] && n == [n[0]] + n[1..];
    }
  }

  /** The map does not depend on the order in which the traversal meets the entries. */
  lemma AccumulateIgnoresVisitOrder(files: seq<FileLike>, files': seq<FileLike>)
    requires DistinctNames(VisitAll(files)) && DistinctNames(VisitAll(files'))
    requires forall f :: f in files <==> f in files'
    ensures Accumulate(files) == Accumulate(files')
  {
    var m, m' := Accumulate(files), Accumulate(files');
    forall e
      ensures e in m <==> e in m'
    {
      if e in m {
        var f :| f in files && IsClassFile(f) && e == Entry(NameWithoutClassSuffix(f), f.contentHash);
        assert f in files';
      }
      if e in m' {
        var f :| f in files' && IsClassFile(f) && e == Entry(NameWithoutClassSuffix(f), f.contentHash);
        assert f in files;
      }
    }
    SortedUnique(m, m');
  }

  /** Resources and directory entries met anywhere in the traversal add nothing. */
  lemma {:induction false} VisitAllSkipsNonClassFiles(before: seq<FileLike>, other: seq<FileLike>, after: seq<FileLike>)
    requires forall i :: 0 <= i < |other| ==> !IsClassFile(other[i])
    ensures VisitAll(before + other + after) == VisitAll(before + after)
    decreases |after|
  {
    if |after| > 0 {
      var init := after[..|after| - 1];
      var whole := before + other + after;
      var kept := before + after;
      assert whole[..|whole| - 1] == before + other + init;
      assert kept[..|kept| - 1] == before + init;
      assert whole[|whole| - 1] == kept[|kept| - 1];
      VisitAllSkipsNonClassFiles(before, other, init);
    } else {
      assert before + other + after == before + other;
      assert before + after == before;
      VisitAllSkipsTrailing(before, other);
    }
  }

  /** The case of resources and directory entries met last. */
  lemma {:induction false} VisitAllSkipsTrailing(files: seq<FileLike>, other: seq<FileLike>)
    requires forall i :: 0 <= i < |other| ==> !IsClassFile(other[i])
    ensures VisitAll(files + other) == VisitAll(files)
    decreases |other|
  {
    if |other| > 0 {
      var init := other[..|other| - 1];
      assert (files + other)[..|files + other| - 1] == files + init;
      VisitAllSkipsTrailing(files, init);
    } else {
      assert files + other == files;
    }
  }

  /** A manifest line: the class name, the separator, the hash. */
  function Line(e: Entry): string {
    e.name + Separator + e.hash.hex
  }

  /** The manifest written for a map: one line per entry, in the map's order. It reads
      back as exactly the map it was written from. */
  function Manifest(m: seq<Entry>): (lines: seq<string>)
    ensures |lines| == |m|
    ensures forall i :: 0 <= i < |m| ==> lines[i] == Line(m[i])
    ensures HexHashes(m) ==> ParseManifest(lines) == Some(m)
    decreases |m|
  {
    if |m| == 0 then []
    else
      var prev := Manifest(m[..|m| - 1]);
      ManifestOneMore(m, prev);
      assert forall i :: 0 <= i < |m| - 1 ==> (prev + [Line(m[|m| - 1])])[i] == Line(m[i]);
      prev + [Line(m[|m| - 1])]
  }

  /** The step of `Manifest`: one more entry, one more line, and the read-back still
      holds. */
  lemma ManifestOneMore(m: seq<Entry>, prev: seq<string>)
    requires |m| > 0
    requires |prev| == |m| - 1
    requires forall i :: 0 <= i < |prev| ==> prev[i] == Line(m[i])
    requires HexHashes(m[..|m| - 1]) ==> ParseManifest(prev) == Some(m[..|m| - 1])
    ensures HexHashes(m) ==> ParseManifest(prev + [Line(m[|m| - 1])]) == Some(m)
  {
    var init, last := m[..|m| - 1], m[|m| - 1];
    var lines := prev + [Line(last)];
    assert lines[..|lines| - 1] == prev;
    HexHashesOfPrefix(m);
    ParseLineOfLine(last);
    ParseManifestSnoc(lines, init, last);
    assert m == init + [last];
  }

  /** Every hash of the map is lower-case hex, as `HashCode.toString` writes it. */
  predicate HexHashes(m: seq<Entry>) {
    forall i :: 0 <= i < |m| ==> IsHexDigest(m[i].hash)
  }

  lemma HexHashesOfPrefix(m: seq<Entry>)
    requires |m| > 0
    ensures HexHashes(m) ==> HexHashes(m[..|m| - 1]) && IsHexDigest(m[|m| - 1].hash)
  {
  }

  /** `HashCode.toString` yields lower-case hex digits only. */
  predicate IsHexDigest(h: HashCode) {
    forall i :: 0 <= i < |h.hex| ==> h.hex[i] in "0123456789abcdef"
  }

  /** Reads a manifest line back: the hash follows the last separator, so class names
      that themselves contain the separator still read back whole. */
  function ParseLine(line: string): (r: Option<Entry>)
    ensures r.Some? ==> Line(r.value) == line
  {
    match LastIndexOf(line, Separator[0])
    case None => None
    case Some(i) =>
      assert line == line[..i] + Separator + line[i + 1..];
      Some(Entry(line[..i], HashCode(line[i + 1..])))
  }

  lemma ParseLineOfLine(e: Entry)
    ensures IsHexDigest(e.hash) ==> ParseLine(Line(e)) == Some(e)
  {
    if IsHexDigest(e.hash) {
      var line := Line(e);
      var n := |e.name|;
      assert line[..n] == e.name;
      assert line[n + 1..] == e.hash.hex;
      forall k | n < k < |line|
        ensures line[k] != Separator[0]
      {
        assert line[k] == e.hash.hex[k - n - 1];
      }
      LastIndexOfIs(line, Separator[0], n);
    }
  }

  /** Reads a whole manifest back; absent if any line is not of the manifest's form. */
  function ParseManifest(lines: seq<string>): (r: Option<seq<Entry>>)
    ensures r.Some? ==> |r.value| == |lines| && forall i :: 0 <= i < |lines| ==> Line(r.value[i]) == lines[i]
  {
    if |lines| == 0 then Some([])
    else match (ParseManifest(lines[..|lines| - 1]), ParseLine(lines[|lines| - 1]))
      case (Some(init), Some(last)) =>
        assert lines == lines[..|lines| - 1] + [lines[|lines| - 1]];
        Some(init + [last])
      case _ => None
  }

  /** Reading a manifest line by line: one more readable line is one more entry. */
  lemma ParseManifestSnoc(lines: seq<string>, init: seq<Entry>, last: Entry)
    requires |lines| > 0
    ensures ParseManifest(lines[..|lines| - 1]) == Some(init) && ParseLine(lines[|lines| - 1]) == Some(last)
      ==> ParseManifest(lines) == Some(init + [last])
  {
  }

  /** The manifest's lines are in ascending order of class name. */
  lemma ManifestInNameOrder(m: seq<Entry>)
    requires SortedByName(m)
    requires HexHashes(m)
    ensures forall i :: 0 <= i < |m| ==> ParseLine(Manifest(m)[i]).Some?
    ensures forall i, j :: 0 <= i < j < |m| ==>
      Less(ParseLine(Manifest(m)[i]).value.name, ParseLine(Manifest(m)[j]).value.name)
  {
    var lines := Manifest(m);
    forall i | 0 <= i < |m| ensures ParseLine(lines[i]) == Some(m[i]) {
      ParseLineOfLine(m[i]);
    }
  }

  /** Whether a collaborator call (the traversal, the write) completes or throws an
      I/O exception. */
  datatype Outcome = Ok | IoError

  /** The step's one mutable field: the class-name map, null until an execution
      succeeds. */
  datatype StepState = StepState(classNames: Option<seq<Entry>>)

  const Unexecuted: StepState := StepState(None)

  /** What an execution returns and leaves behind: the exit code, the new state, and the
      manifest it wrote in full, if any. */
  datatype Execution = Execution(exitCode: int, state: StepState, manifest: Option<seq<string>>)

  /** A state whose map, if any, is a well-formed sorted map. */
  predicate GoodState(s: StepState) {
    s.classNames.Some? ==> SortedByName(s.classNames.value)
  }

  /** One execution of the step, given how the traversal and the write turn out. */
  function Execute(s: StepState, files: seq<FileLike>, traversal: Outcome, write: Outcome): (r: Execution)
    requires traversal.Ok? ==> DistinctNames(VisitAll(files))
    ensures r.exitCode == 0 || r.exitCode == 1
    ensures r.exitCode == 0 <==> traversal.Ok? && write.Ok?
    ensures r.exitCode == 1 ==> r.state == s && r.manifest.None?
    ensures r.exitCode == 0 ==> r.state.classNames.Some? && r.manifest.Some?
    ensures r.exitCode == 0 ==> r.manifest.value == Manifest(r.state.classNames.value)
    ensures r.exitCode == 0 ==> SortedByName(r.state.classNames.value)
    ensures r.exitCode == 0 ==> forall e :: e in r.state.classNames.value <==>
      exists f :: f in files && IsClassFile(f) && e == Entry(NameWithoutClassSuffix(f), f.contentHash)
    ensures GoodState(s) ==> GoodState(r.state)
  {
    if traversal.IoError? then Execution(1, s, None)
    else
      var classNames := Accumulate(files);
      if write.IoError? then Execution(1, s, None)
      else Execution(0, StepState(Some(classNames)), Some(Manifest(classNames)))
  }

  /** The supplier's `get`: only once an execution has succeeded. */
  function Get(s: StepState): (r: seq<Entry>)
    requires s.classNames.Some?
    ensures GoodState(s) ==> SortedByName(r)
    ensures Some(r) == s.classNames
  {
    s.classNames.value
  }

  /** After a successful execution `get` returns the very map whose manifest was written,
      and reading that manifest back gives the map again. */
  lemma GetAfterSuccess(s: StepState, files: seq<FileLike>)
    requires DistinctNames(VisitAll(files))
    requires forall f :: f in files ==> IsHexDigest(f.contentHash)
    ensures Execute(s, files, Ok, Ok).exitCode == 0
    ensures Execute(s, files, Ok, Ok).manifest == Some(Manifest(Get(Execute(s, files, Ok, Ok).state)))
    ensures ParseManifest(Execute(s, files, Ok, Ok).manifest.value) == Some(Get(Execute(s, files, Ok, Ok).state))
  {
    var m := Accumulate(files);
    forall i | 0 <= i < |m| ensures IsHexDigest(m[i].hash) {
      assert m[i] in m;
    }
  }

  /** A step that has never succeeded still has nothing to give after a failure. */
  lemma FailureKeepsUnexecuted(files: seq<FileLike>, traversal: Outcome, write: Outcome)
    requires traversal.Ok? ==> DistinctNames(VisitAll(files))
    requires traversal.IoError? || write.IoError?
    ensures Execute(Unexecuted, files, traversal, write).state.classNames.None?
  {
  }

  const DescriptionPrefix: string := "get_class_names "
  const DescriptionArrow: string := " > "

  /** The step's short description, from the path it reads and the path it writes. */
  function Description(source: string, destination: string): (r: string)
    ensures |r| == |DescriptionPrefix| + |source| + |DescriptionArrow| + |destination|
    ensures r[..|DescriptionPrefix|] == DescriptionPrefix
    ensures r[|DescriptionPrefix|..|DescriptionPrefix| + |source|] == source
    ensures r[|DescriptionPrefix| + |source|..|r| - |destination|] == DescriptionArrow
    ensures r[|r| - |destination|..] == destination
  {
    DescriptionPrefix + source + DescriptionArrow + destination
  }

  /** Recovers the two paths from a description, splitting at its first `>`. */
  function ParseDescription(d: string): (r: Option<(string, string)>)
    ensures r.Some? ==> Description(r.value.0, r.value.1) == d
  {
    if |d| < |DescriptionPrefix| || d[..|DescriptionPrefix|] != DescriptionPrefix then None
    else
      var rest := d[|DescriptionPrefix|..];
      match FirstIndexOf(rest, '>')
      case None => None
      case Some(i) =>
        if 1 <= i && i + 1 < |rest| && rest[i - 1] == ' ' && rest[i + 1] == ' ' then
          assert d == DescriptionPrefix + rest[..i - 1] + DescriptionArrow + rest[i + 2..];
          Some((rest[..i - 1], rest[i + 2..]))
        else None
  }

  /** The description names both paths unambiguously when the source path has no `>`. */
  lemma ParseDescriptionOfDescription(source: string, destination: string)
    requires '>' !in source
    ensures ParseDescription(Description(source, destination)) == Some((source, destination))
  {
    var d := Description(source, destination);
    var rest := d[|DescriptionPrefix|..];
    assert rest == source + DescriptionArrow + destination;
    assert rest[|source| + 1] == '>';
    assert forall k :: 0 <= k < |source| ==> rest[k] == source[k];
    var i := FirstIndexOf(rest, '>');
    assert i.Some? && i.value == |source| + 1;
    assert rest[..|source|] == source;
    assert rest[|source| + 3..] == destination;
  }
}
