/** The export script's per-application pass: classify the staged file,
    look up a checkpoint, patch, and keep the counters reported at the end.
    The checkpoint report is a parameter. */
module ExportRun {
  import opened Text
  import opened Readers
  import opened Positions
  import opened Patcher
  import opened Counting

  // ---- the per-application pass of main ----

  /** A staged application: its name and the text of its staged file. */
  datatype App = App(name: string, doc: string)

  /** The counters printed in the closing summary. */
  datatype Tally = Tally(updated: nat, mySql: nat, sqlServer: nat, mongoDb: nat, oracle: nat,
                         withCheckpoint: nat)

  /** What the pass calls out to: `get_reader_type` on a staged file, the
      checkpoint report for an application, and `update_tql_with_position`
      given the family and the rendered position. */
  datatype Pass = Pass(classify: string -> Option<Family>,
                       history: string -> Option<Position>,
                       update: (string, Family, string) -> Outcome)

  /** The pass the script runs: this model's classifier and rewriter, and
      the position `get_checkpoint_history` parses out of the entries the
      server reports for each application (`reports(name)`, empty when the
      command fails or the report has no output). */
  function Live(reports: string -> seq<Summary>): Pass {
    Pass(Classify, name => FromHistory(reports(name)), Update)
  }

  predicate OfFamily(a: App, p: Pass, f: Family) {
    p.classify(a.doc) == Some(f)
  }

  /** The application has a recognised source and a checkpoint position. */
  predicate HasCheckpoint(a: App, p: Pass) {
    p.classify(a.doc).Some? && p.history(a.name).Some?
  }

  /** What the update gives for an application with a checkpoint. */
  function OutcomeOf(a: App, p: Pass): Outcome
    requires HasCheckpoint(a, p)
  {
    p.update(a.doc, p.classify(a.doc).value, Render(p.history(a.name).value))
  }

  /** The update wrote the application's file. */
  predicate WasUpdated(a: App, p: Pass) {
    HasCheckpoint(a, p) && OutcomeOf(a, p).Written?
  }

  /** The staged file's text once the pass is over. */
  function Final(a: App, p: Pass): string {
    if HasCheckpoint(a, p) then After(a.doc, OutcomeOf(a, p)) else a.doc
  }

  /** The counters over `apps`, each an independent count. */
  function TallyOf(apps: seq<App>, p: Pass): Tally {
    Tally(CountIf(apps, a => WasUpdated(a, p)),
          CountIf(apps, a => OfFamily(a, p, MySql)),
          CountIf(apps, a => OfFamily(a, p, SqlServer)),
          CountIf(apps, a => OfFamily(a, p, MongoDb)),
          CountIf(apps, a => OfFamily(a, p, Oracle)),
          CountIf(apps, a => HasCheckpoint(a, p)))
  }

  /** Each staged application in turn, counted as `ProcessOne` counts it.
      The script runs this with `Live(reports)`. */
  method ProcessApplications(apps: seq<App>, p: Pass)
    returns (tally: Tally, finals: seq<string>)
    ensures tally == TallyOf(apps, p)
    ensures |finals| == |apps| && forall i :: 0 <= i < |apps| ==> finals[i] == Final(apps[i], p)
  {
    tally := Tally(0, 0, 0, 0, 0, 0);
    finals := [];
    var i := 0;
    while i < |apps|
      invariant 0 <= i <= |apps|
      invariant tally == TallyOf(apps[..i], p)
      invariant |finals| == i && forall j :: 0 <= j < i ==> finals[j] == Final(apps[j], p)
    {
      StepCounts(apps, i, p);
      var final;
      tally, final := ProcessOne(apps[i], p, tally);
      finals := finals + [final];
      i := i + 1;
    }
    assert apps[..i] == apps;
  }

  /** One application: skipped without a recognised source, counted under
      its family, skipped without a checkpoint, counted as having one, and
      counted as updated when its file was rewritten. */
  method ProcessOne(app: App, p: Pass, tally: Tally)
    returns (tally': Tally, final: string)
    ensures tally' == Counted(tally, app, p)
    ensures final == Final(app, p)
  {
    var family := p.classify(app.doc);
    if family.None? {
      return tally, app.doc;
    }
    tally' := CountFamily(tally, family.value);
    var position := p.history(app.name);
    if position.None? {
      return tally', app.doc;
    }
    tally' := tally'.(withCheckpoint := tally'.withCheckpoint + 1);
    var outcome := p.update(app.doc, family.value, Render(position.value));
    if outcome.Written? {
      tally' := tally'.(updated := tally'.updated + 1);
    }
    final := After(app.doc, outcome);
  }

  /** The per-family counter for `family` goes up by one. */
  function CountFamily(t: Tally, family: Family): (t': Tally)
    ensures t' == t.(mySql := t.mySql + (if family == MySql then 1 else 0),
                     sqlServer := t.sqlServer + (if family == SqlServer then 1 else 0),
                     mongoDb := t.mongoDb + (if family == MongoDb then 1 else 0),
                     oracle := t.oracle + (if family == Oracle then 1 else 0))
  {
    match family
    case MySql => t.(mySql := t.mySql + 1)
    case SqlServer => t.(sqlServer := t.sqlServer + 1)
    case MongoDb => t.(mongoDb := t.mongoDb + 1)
    case Oracle => t.(oracle := t.oracle + 1)
  }

  /** `t` with one more application counted wherever it belongs. */
  function Counted(t: Tally, a: App, p: Pass): Tally {
    Tally(t.updated + (if WasUpdated(a, p) then 1 else 0),
          t.mySql + (if OfFamily(a, p, MySql) then 1 else 0),
          t.sqlServer + (if OfFamily(a, p, SqlServer) then 1 else 0),
          t.mongoDb + (if OfFamily(a, p, MongoDb) then 1 else 0),
          t.oracle + (if OfFamily(a, p, Oracle) then 1 else 0),
          t.withCheckpoint + (if HasCheckpoint(a, p) then 1 else 0))
  }

  /** Taking one more application into the pass counts it wherever it belongs. */
  lemma StepCounts(apps: seq<App>, i: nat, p: Pass)
    requires i < |apps|
    ensures TallyOf(apps[..i + 1], p) == Counted(TallyOf(apps[..i], p), apps[i], p)
  {
    var a := apps[i];
    assert apps[..i + 1] == apps[..i] + [a];
    CountIfSnoc(apps[..i], a, a => WasUpdated(a, p));
    CountIfSnoc(apps[..i], a, a => OfFamily(a, p, MySql));
    CountIfSnoc(apps[..i], a, a => OfFamily(a, p, SqlServer));
    CountIfSnoc(apps[..i], a, a => OfFamily(a, p, MongoDb));
    CountIfSnoc(apps[..i], a, a => OfFamily(a, p, Oracle));
    CountIfSnoc(apps[..i], a, a => HasCheckpoint(a, p));
  }

  /** The summary's counters are nested: updated applications had a
      checkpoint, those had a recognised source, and no application is
      counted under two families. */
  lemma TallyNested(apps: seq<App>, p: Pass)
    ensures var t := TallyOf(apps, p);
      t.updated <= t.withCheckpoint <= t.mySql + t.sqlServer + t.mongoDb + t.oracle <= |apps|
  {
    CountIfMono(apps, a => WasUpdated(a, p), a => HasCheckpoint(a, p));
    var known := (a: App) => p.classify(a.doc).Some?;
    CountIfMono(apps, a => HasCheckpoint(a, p), known);
    var sqlOrMongo := (a: App) => OfFamily(a, p, SqlServer) || OfFamily(a, p, MongoDb);
    var notMySql := (a: App) => OfFamily(a, p, SqlServer) || OfFamily(a, p, MongoDb) || OfFamily(a, p, Oracle);
    forall a: App ensures known(a) <==> OfFamily(a, p, MySql) || notMySql(a) {
      if known(a) {
        match p.classify(a.doc).value
        case MySql =>
        case SqlServer =>
        case MongoDb =>
        case Oracle =>
      }
    }
    CountIfSplit(apps, known, a => OfFamily(a, p, MySql), notMySql);
    CountIfSplit(apps, notMySql, sqlOrMongo, a => OfFamily(a, p, Oracle));
    CountIfSplit(apps, sqlOrMongo, a => OfFamily(a, p, SqlServer), a => OfFamily(a, p, MongoDb));
  }

  /** Only an application counted as updated has a staged file whose text changed. */
  lemma FinalChangedOnlyIfUpdated(a: App, reports: string -> seq<Summary>)
    ensures Final(a, Live(reports)) != a.doc <==> WasUpdated(a, Live(reports))
  {
    var p := Live(reports);
    if HasCheckpoint(a, p) {
      var f := Classify(a.doc).value;
      var v := Render(FromHistory(reports(a.name)).value);
      assert OutcomeOf(a, p) == Update(a.doc, f, v);
      assert Update(a.doc, f, v).Written? ==> Update(a.doc, f, v).text == Rewrite(a.doc, f, v) != a.doc;
    }
  }
}
