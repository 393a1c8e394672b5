/** The application importer: the application name read from a TQL text,
    the qualified name taken from the file name, and the per-file pass that
    imports, optionally removes and deploys, and counts the outcomes. The
    server's replies are parameters. */
module ImportApps {
  import opened Text
  import opened Matching
  import opened Patterns
  import opened Counting

  // ---- extract_app_name ----

  /** The word after the first `CREATE APPLICATION` (any case, any blanks). */
  function AppName(content: string): (r: Option<string>)
    ensures r.Some? <==> Search(CreateApplication, content).Some?
    ensures r.Some? ==> |r.value| > 0 && AllIn(r.value, Word)
  {
    FindGroup(CreateApplication, content)
  }

  /** The pieces of a text that opens with `CREATE APPLICATION <name>`. */
  predicate AppHeadPieces(t: string, e: nat) {
    && 19 < e <= |t|
    && t[0..6] == "CREATE" && t[6] == ' ' && t[7..18] == "APPLICATION" && t[18] == ' '
    && AllIn(t[19..e], Word) && (e < |t| ==> !In(t[e], Word))
  }

  /** Such a text matches at its start, with the name as the group. */
  lemma AppHeadMatches(t: string, e: nat)
    requires AppHeadPieces(t, e)
    ensures CreateApplicationAt(t) == Some(Hit(e, 19, e))
  {
    LitIgnoreCaseExact(t, 0, "CREATE");
    assert t[6..7] == " " && t[7] == t[7..18][0] == 'A';
    Run1Is(t, 6, Space, 7);
    assert t[7..7 + |"APPLICATION"|] == "APPLICATION";
    LitIgnoreCaseExact(t, 7, "APPLICATION");
    assert t[18..19] == " " && t[19..e][0] == t[19];
    assert In(t[19], Word);
    WordNotSpace(t[19]);
    Run1Is(t, 18, Space, 19);
    Run1Is(t, 19, Word, e);
  }

  lemma WordNotSpace(c: char)
    requires In(c, Word)
    ensures !IsSpace(c)
  {
  }

  lemma AppTextPieces(name: string, rest: string)
    requires |name| > 0 && AllIn(name, Word) && (rest == [] || !In(rest[0], Word))
    ensures var t := "CREATE APPLICATION " + name + rest;
      AppHeadPieces(t, 19 + |name|) && t[19..19 + |name|] == name
  {
    var t := "CREATE APPLICATION " + name + rest;
    assert t[0..6] == "CREATE" && t[6] == ' ' && t[7..18] == "APPLICATION" && t[18] == ' ';
    assert t[19..19 + |name|] == name;
    assert 19 + |name| < |t| ==> t[19 + |name|] == rest[0];
  }

  /** A text opening with the pieces of `CREATE APPLICATION <name>`. */
  lemma AppNameAt(t: string, e: nat)
    requires AppHeadPieces(t, e)
    ensures AppName(t) == Some(t[19..e])
  {
    AppHeadMatches(t, e);
    assert MatchPrefix(CreateApplication, t) == Some(Hit(e, 19, e));
    assert [] + t == t;
    FoundAfter(CreateApplication, [], t, 19, e);
  }

  /** A TQL text opening with `CREATE APPLICATION <name>` yields that name. */
  lemma AppNameOfHead(name: string, rest: string)
    requires |name| > 0 && AllIn(name, Word) && (rest == [] || !In(rest[0], Word))
    ensures AppName("CREATE APPLICATION " + name + rest) == Some(name)
  {
    AppTextPieces(name, rest);
    AppNameAt("CREATE APPLICATION " + name + rest, 19 + |name|);
  }

  // ---- get_full_app_name ----

  /** The last component of a `/`-separated path. */
  function BaseName(path: string): (b: string)
    ensures forall i :: 0 <= i < |b| ==> b[i] != '/'
  {
    if path == [] then []
    else if path[|path| - 1] == '/' then []
    else BaseName(path[..|path| - 1]) + [path[|path| - 1]]
  }

  /** Where the last `.` of `name` is, if it has one. */
  function LastDot(name: string): (r: Option<nat>)
    ensures r.Some? ==> (r.value < |name| && name[r.value] == '.'
      && forall j :: r.value < j < |name| ==> name[j] != '.')
    ensures r.None? ==> forall j :: 0 <= j < |name| ==> name[j] != '.'
  {
    if name == [] then None
    else if name[|name| - 1] == '.' then Some(|name| - 1)
    else LastDot(name[..|name| - 1])
  }

  /** `Path(name).stem`: the name without its last suffix; a leading dot or
      a trailing dot does not start a suffix. */
  function Stem(name: string): string {
    match LastDot(name)
    case Some(i) => if 0 < i < |name| - 1 then name[..i] else name
    case None => name
  }

  /** `get_full_app_name`: the file's stem when it holds a `.` (a
      `namespace.app` file name), the application name otherwise. */
  function FullAppName(filename: string, appName: string): (r: string)
    ensures r == appName || r == Stem(BaseName(filename))
  {
    var stem := Stem(BaseName(filename));
    if exists i :: 0 <= i < |stem| && stem[i] == '.' then stem else appName
  }

  /** The base name of `dir/<name>` is `name`. */
  lemma {:induction false} BaseNameOfJoin(dir: string, name: string)
    requires forall i :: 0 <= i < |name| ==> name[i] != '/'
    ensures BaseName(dir + "/" + name) == name
  {
    if name == [] {
    } else {
      var p := dir + "/" + name;
      assert p[..|p| - 1] == dir + "/" + name[..|name| - 1];
      BaseNameOfJoin(dir, name[..|name| - 1]);
      assert name == name[..|name| - 1] + [name[|name| - 1]];
    }
  }

  /** The stem of `<stem>.tql` is `stem`, for a stem that does not start empty. */
  lemma StemOfTql(stem: string)
    requires |stem| > 0
    ensures Stem(stem + ".tql") == stem
  {
    var name := stem + ".tql";
    assert name[|stem|] == '.';
    assert forall j :: |stem| < j < |name| ==> name[j] != '.' by {
      assert name[|stem| + 1..] == "tql";
    }
    LastDotIs(name, |stem|);
    assert name[..|stem|] == stem;
  }

  lemma {:induction false} LastDotIs(name: string, i: nat)
    requires i < |name| && name[i] == '.' && forall j :: i < j < |name| ==> name[j] != '.'
    ensures LastDot(name) == Some(i)
  {
    if i < |name| - 1 {
      LastDotIs(name[..|name| - 1], i);
    }
  }

  /** A file `dir/<ns>.<app>.tql` gives the qualified name `<ns>.<app>`; a
      file without a `.` in its stem gives the application name back. */
  lemma FullAppNameOfFile(dir: string, stem: string, appName: string)
    requires |stem| > 0 && forall i :: 0 <= i < |stem| ==> stem[i] != '/'
    ensures var n := FullAppName(dir + "/" + stem + ".tql", appName);
      && ((exists i :: 0 <= i < |stem| && stem[i] == '.') ==> n == stem)
      && ((forall i :: 0 <= i < |stem| ==> stem[i] != '.') ==> n == appName)
  {
    var name := stem + ".tql";
    assert forall i :: 0 <= i < |name| ==> name[i] != '/' by {
      assert name[|stem|..] == ".tql";
      forall i | 0 <= i < |name| ensures name[i] != '/' {
        if i >= |stem| {
          assert name[i] == name[|stem|..][i - |stem|];
        }
      }
    }
    assert dir + "/" + stem + ".tql" == dir + "/" + name;
    BaseNameOfJoin(dir, name);
    StemOfTql(stem);
  }

  // ---- the per-file pass of main ----

  /** What `import_tql` returned: nothing (or an empty list), a non-empty
      list whose first element is an object with or without an
      `executionStatus` text, a non-empty list whose first element is not an
      object, or some other truthy value. */
  datatype ImportReply =
    | NoReply
    | FirstStatus(status: Option<string>)
    | FirstNotObject
    | OtherReply

  /** A TQL file: its path, its text (`None` when reading it fails), and
      what the server answers to importing it. */
  datatype TqlFile = TqlFile(path: string, content: Option<string>, reply: ImportReply)

  /** The server calls the pass makes, in order. */
  datatype Call = Stop(app: string) | Undeploy(app: string) | Drop(app: string)
                | Import(text: string) | Deploy(app: string)

  /** The file counts as imported: it was read, and the reply was a list
      whose first status is `Success` or some other truthy non-list value. */
  predicate Imported(f: TqlFile) {
    f.content.Some? && (f.reply == FirstStatus(Some("Success")) || f.reply.OtherReply?)
  }

  /** A deploy is attempted: deploying was asked for, a name was found, and
      the reply was a `Success` list (a non-list reply is never deployed). */
  predicate DeployTried(f: TqlFile, deploy: bool) {
    deploy && f.content.Some? && AppName(f.content.value).Some?
    && f.reply == FirstStatus(Some("Success"))
  }

  predicate Deployed(f: TqlFile, deploy: bool, deploys: string -> bool) {
    DeployTried(f, deploy) && deploys(FullAppName(f.path, AppName(f.content.value).value))
  }

  /** The calls made for one file. */
  function CallsFor(f: TqlFile, force: bool, deploy: bool): seq<Call> {
    if f.content.None? then []
    else
      var text := f.content.value;
      var name := AppName(text);
      var removal := if force && name.Some? then
          var full := FullAppName(f.path, name.value);
          [Stop(full), Undeploy(full), Drop(full)]
        else [];
      var deploying := if DeployTried(f, deploy) then [Deploy(FullAppName(f.path, name.value))] else [];
      removal + [Import(text)] + deploying
  }

  /** One file: read it, find its name, remove the old application when
      forced, import, classify the reply, deploy when asked. A failed read
      counts as failed. */
  method ImportOne(f: TqlFile, force: bool, deploy: bool, deploys: string -> bool)
    returns (imported: bool, deployed: bool, calls: seq<Call>)
    ensures imported == Imported(f)
    ensures deployed == Deployed(f, deploy, deploys)
    ensures calls == CallsFor(f, force, deploy)
  {
    calls := [];
    imported, deployed := false, false;
    if f.content.None? {
      return;
    }
    var text := f.content.value;
    var name := AppName(text);
    if force && name.Some? {
      var full := FullAppName(f.path, name.value);
      calls := calls + [Stop(full), Undeploy(full), Drop(full)];
    }
    calls := calls + [Import(text)];
    match f.reply {
      case NoReply =>
      case FirstNotObject =>
      case OtherReply =>
        imported := true;
      case FirstStatus(status) =>
        if status == Some("Success") {
          imported := true;
          if deploy && name.Some? {
            var full := FullAppName(f.path, name.value);
            calls := calls + [Deploy(full)];
            deployed := deploys(full);
          }
        }
    }
  }

  /** The counters over `files`. */
  datatype Counters = Counters(imported: nat, deployed: nat, failed: nat)

  function CountersOf(files: seq<TqlFile>, deploy: bool, deploys: string -> bool): Counters {
    Counters(CountIf(files, f => Imported(f)),
             CountIf(files, f => Deployed(f, deploy, deploys)),
             CountIf(files, f => !Imported(f)))
  }

  function AllCalls(files: seq<TqlFile>, force: bool, deploy: bool): seq<Call> {
    if files == [] then []
    else AllCalls(files[..|files| - 1], force, deploy) + CallsFor(files[|files| - 1], force, deploy)
  }

  /** `c` with one more file counted. */
  function Bump(c: Counters, f: TqlFile, deploy: bool, deploys: string -> bool): Counters {
    Tallied(c, Imported(f), Deployed(f, deploy, deploys))
  }

  /** The counters after a file that was or was not imported and deployed. */
  function Tallied(c: Counters, imported: bool, deployed: bool): Counters {
    Counters(c.imported + (if imported then 1 else 0),
             c.deployed + (if deployed then 1 else 0),
             c.failed + (if imported then 0 else 1))
  }

  /** Every file in turn, in the order given (sorted by path). */
  method ImportAll(files: seq<TqlFile>, force: bool, deploy: bool, deploys: string -> bool)
    returns (counters: Counters, calls: seq<Call>)
    ensures counters == CountersOf(files, deploy, deploys)
    ensures counters.imported + counters.failed == |files|
    ensures calls == AllCalls(files, force, deploy)
  {
    counters := Counters(0, 0, 0);
    calls := [];
    var i := 0;
    while i < |files|
      invariant 0 <= i <= |files|
      invariant counters == CountersOf(files[..i], deploy, deploys)
      invariant counters.imported + counters.failed == i
      invariant calls == AllCalls(files[..i], force, deploy)
    {
      StepCounters(files, i, force, deploy, deploys);
      var imported, deployed, made := ImportOne(files[i], force, deploy, deploys);
      counters := Tallied(counters, imported, deployed);
      calls := calls + made;
      i := i + 1;
    }
    assert files[..i] == files;
  }

  /** Taking one more file into the pass. */
  lemma StepCounters(files: seq<TqlFile>, i: nat, force: bool, deploy: bool, deploys: string -> bool)
    requires i < |files|
    ensures CountersOf(files[..i + 1], deploy, deploys) == Bump(CountersOf(files[..i], deploy, deploys), files[i], deploy, deploys)
    ensures AllCalls(files[..i + 1], force, deploy) == AllCalls(files[..i], force, deploy) + CallsFor(files[i], force, deploy)
  {
    var f := files[i];
    var s := files[..i + 1];
    assert s[..|s| - 1] == files[..i] && s[|s| - 1] == f;
    CountIfSnoc(files[..i], f, f => Imported(f));
    CountIfSnoc(files[..i], f, f => Deployed(f, deploy, deploys));
    CountIfSnoc(files[..i], f, f => !Imported(f));
    assert files[..i] + [f] == s;
  }

  /** Only imported files are deployed, so no more deploys than imports. */
  lemma DeployedAtMostImported(files: seq<TqlFile>, deploy: bool, deploys: string -> bool)
    ensures CountersOf(files, deploy, deploys).deployed <= CountersOf(files, deploy, deploys).imported
  {
    CountIfMono(files, f => Deployed(f, deploy, deploys), f => Imported(f));
  }

  /** Without `--deploy`, nothing is deployed. */
  lemma NoDeployWithoutFlag(files: seq<TqlFile>, deploys: string -> bool)
    ensures CountersOf(files, false, deploys).deployed == 0
  {
    CountIfMono(files, f => Deployed(f, false, deploys), f => false);
    CountIfNone(files);
  }

  /** With `--force` and a name found, the old application is stopped,
      undeployed and dropped, under its qualified name, before the import. */
  lemma ForceRemovesFirst(f: TqlFile, deploy: bool)
    requires f.content.Some? && AppName(f.content.value).Some?
    ensures var full := FullAppName(f.path, AppName(f.content.value).value);
      CallsFor(f, true, deploy)[..4] == [Stop(full), Undeploy(full), Drop(full), Import(f.content.value)]
  {
  }
}
