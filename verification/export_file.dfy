/** The `export_file` rule: it copies one source file into the generated-files tree so that
    other rules can refer to it. Everything it does is fixed by its target and its two
    optional arguments. */
module ExportFileRule {
  import opened Wrappers
  import opened Paths

  /** The root of generated files, relative to the project root. */
  const GenDir: string := "buck-out/gen"

  /** A build target: the directory of its build file, relative to the project root, and
      the rule's name there. */
  datatype BuildTarget = BuildTarget(basePath: Path, shortName: Segment)

  /** The optional `src` and `out` arguments of the rule. */
  datatype Arg = Arg(src: Option<Path>, out: Option<Segment>)

  datatype ExportFile = ExportFile(src: Path, out: Path)

  /** The two kinds of step the rule plans: create a directory (possibly a null path),
      copy a file. */
  datatype Step = Mkdir(dir: Option<Path>) | Copy(from: Path, to: Path)

  /** The rule-key builder, reduced to the named entries appended to it in order. */
  type RuleKeyEntries = seq<(string, string)>

  const GenDirPath: Path := ["buck-out", "gen"]

  /** The generated-files root parses to its two segments. */
  lemma GenDirSegments()
    ensures Segments(GenDir) == GenDirPath
  {
    assert ToString(["buck-out", "gen"]) == GenDir;
  }

  /** Every output lies below the generated-files root, in the build file's directory. */
  predicate UnderGenDir(e: ExportFile) {
    |e.out| >= 2 && e.out[..2] == GenDirPath
  }

  /** The constructor: `src` defaults to the rule's name inside the build file's
      directory; the output goes to that directory under the generated-files root,
      under the `out` name if one is given and the rule's name otherwise. */
  function New(target: BuildTarget, args: Arg): (r: ExportFile)
    ensures r.src == if args.src.Some? then args.src.value else target.basePath + [target.shortName]
    ensures UnderGenDir(r)
    ensures r.out[..|r.out| - 1] == GenDirPath + target.basePath
    ensures FileName(r.out) == Some(if args.out.Some? then args.out.value else target.shortName)
  {
    var outName := args.out.Or(target.shortName);
    ExportFile(args.src.Or(target.basePath + [target.shortName]), GenDirPath + target.basePath + [outName])
  }

  /** Both paths are what `Paths.get` makes of the strings it is given: the defaulted
      source is `Paths.get(basePath, shortName)` and the output
      `Paths.get(GEN_DIR, basePath, outName)`. */
  lemma PathsAsParsed(target: BuildTarget, args: Arg)
    ensures args.src.None? ==> New(target, args).src == Get([ToString(target.basePath), target.shortName])
    ensures New(target, args).out == Get([GenDir, ToString(target.basePath), args.out.Or(target.shortName)])
  {
    var outName := args.out.Or(target.shortName);
    GetTwo(ToString(target.basePath), target.shortName);
    GetThree(GenDir, ToString(target.basePath), outName);
    GenDirSegments();
  }

  /** The defaulted source and the output both sit in the build file's directory, the
      output one level below the generated-files root. */
  lemma OutMirrorsDefaultSrc(target: BuildTarget)
    ensures New(target, Arg(None, None)).out == GenDirPath + New(target, Arg(None, None)).src
  {
  }

  /** The files whose contents decide whether the output is stale: the source only. */
  function InputsToCompareToOutput(e: ExportFile): (r: set<string>)
    ensures |r| == 1
    ensures forall s :: s in r ==> Segments(s) == e.src
  {
    {ToString(e.src)}
  }

  /** The rule's contribution to its rule key: one `src` entry naming the source path. */
  function AppendDetailsToRuleKey(e: ExportFile, builder: RuleKeyEntries): (r: RuleKeyEntries)
    ensures |r| == |builder| + 1 && r[..|builder|] == builder
    ensures r[|builder|].0 == "src" && Segments(r[|builder|].1) == e.src
  {
    builder + [("src", ToString(e.src))]
  }

  /** Two export rules contribute the same rule-key entries exactly when their sources
      agree; the output path plays no part. */
  lemma RuleKeyDependsOnlyOnSrc(e: ExportFile, e': ExportFile, builder: RuleKeyEntries)
    ensures AppendDetailsToRuleKey(e, builder) == AppendDetailsToRuleKey(e', builder) <==> e.src == e'.src
  {
    var r, r' := AppendDetailsToRuleKey(e, builder), AppendDetailsToRuleKey(e', builder);
    if r == r' {
      assert r[|builder|] == r'[|builder|];
    }
  }

  /** The output path, as the string the rule reports. */
  function PathToOutputFile(e: ExportFile): (r: string)
    ensures Segments(r) == e.out
  {
    ToString(e.out)
  }

  /** The plan: make the output's parent directory, then copy the source to the output.
      The contexts are accepted but not consulted. */
  function BuildSteps<C, B>(e: ExportFile, context: C, buildableContext: B): (r: seq<Step>)
    ensures |r| == 2 && r[0].Mkdir? && r[1].Copy?
    ensures r[1].from == e.src && Segments(PathToOutputFile(e)) == r[1].to
    ensures r[0].dir.Some? <==> |e.out| >= 2
    ensures r[0].dir.Some? ==> r[0].dir.value + [e.out[|e.out| - 1]] == r[1].to
  {
    [Mkdir(Parent(e.out)), Copy(e.src, e.out)]
  }

  /** For a constructed rule the directory to make always exists as a path: the output's
      own directory under the generated-files root. */
  lemma StepsOfNew(target: BuildTarget, args: Arg)
    ensures BuildSteps(New(target, args), (), ())[0] == Mkdir(Some(GenDirPath + target.basePath))
  {
  }

  /** `export_file(name = n)` is `export_file(name = n, src = n, out = n)`: the file
      `n` next to the build file is exported as `n`. */
  lemma NameOnly(base: Path, name: Segment)
    ensures New(BuildTarget(base, name), Arg(None, None)) == ExportFile(base + [name], GenDirPath + base + [name])
    ensures New(BuildTarget(base, name), Arg(Some(base + [name]), Some(name))) == New(BuildTarget(base, name), Arg(None, None))
  {
  }

  /** `export_file(name = n, src = s)` is `export_file(name = n, src = s, out = n)`. */
  lemma RenamedSource(base: Path, name: Segment, src: Path)
    ensures New(BuildTarget(base, name), Arg(Some(src), None)) == ExportFile(src, GenDirPath + base + [name])
    ensures New(BuildTarget(base, name), Arg(Some(src), Some(name))) == New(BuildTarget(base, name), Arg(Some(src), None))
  {
  }

  /** `export_file(name = n, src = s, out = o)`: the rule's name plays no part in either path. */
  lemma LogicalName(base: Path, name: Segment, src: Path, out: Segment)
    ensures New(BuildTarget(base, name), Arg(Some(src), Some(out))) == ExportFile(src, GenDirPath + base + [out])
  {
  }

  /** The directory of the build file in the rule's documentation examples. */
  const ExampleDir: Path := ["path", "to", "buck"]

  /** `export_file(name = 'some-file.html')` exports `some-file.html` as `some-file.html`. */
  lemma ExampleNameOnly()
    ensures New(BuildTarget(ExampleDir, "some-file.html"), Arg(None, None))
      == ExportFile(ExampleDir + ["some-file.html"], GenDirPath + ExampleDir + ["some-file.html"])
  {
    NameOnly(ExampleDir, "some-file.html");
  }

  /** `export_file(name = 'foobar.html', src = 'some-file.html')` exports the source as
      `foobar.html`. */
  lemma ExampleRenamedSource()
    ensures New(BuildTarget(ExampleDir, "foobar.html"), Arg(Some(ExampleDir + ["some-file.html"]), None))
      == ExportFile(ExampleDir + ["some-file.html"], GenDirPath + ExampleDir + ["foobar.html"])
  {
    RenamedSource(ExampleDir, "foobar.html", ExampleDir + ["some-file.html"]);
  }

  /** `export_file(name = 'ie-exports', src = 'some-file.js', out = 'some-file-ie.js')`
      exports the source as `some-file-ie.js`. */
  lemma ExampleLogicalName()
    ensures New(BuildTarget(ExampleDir, "ie-exports"), Arg(Some(ExampleDir + ["some-file.js"]), Some("some-file-ie.js")))
      == ExportFile(ExampleDir + ["some-file.js"], GenDirPath + ExampleDir + ["some-file-ie.js"])
  {
    LogicalName(ExampleDir, "ie-exports", ExampleDir + ["some-file.js"], "some-file-ie.js");
  }
}
