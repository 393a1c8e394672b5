/** The export script's steps before the engine runs: dropping generated
    types by name prefix, and picking each application's file out of the
    exported archive. Calls to the server and the file system are parameters. */
module ExportSteps {
  import opened Text
  import opened Counting

  // ---- drop_types_by_prefix ----

  /** `f"{namespace}.{source_component_name}_"`. */
  function TypePrefix(namespace: string, component: string): string {
    namespace + "." + component + "_"
  }

  /** Whether a type name starts with the prefix (`t.startswith(prefix)`). */
  function StartsWith(prefix: string): string -> bool {
    t => prefix <= t
  }

  /** The listed types that start with the prefix: the comprehension's
      filter, so in listed order and each as often as listed. */
  function MatchingTypes(types: seq<string>, prefix: string): (r: seq<string>)
    ensures IsFilter(r, types, StartsWith(prefix))
    ensures forall t :: t in r <==> t in types && prefix <= t
  {
    if types == [] then []
    else
      var init, last := types[..|types| - 1], types[|types| - 1];
      var rest := MatchingTypes(init, prefix);
      FilterSnoc(rest, init, last, StartsWith(prefix));
      assert init + [last] == types;
      var r := rest + (if prefix <= last then [last] else []);
      FilterMembers(r, types, StartsWith(prefix));
      r
  }

  /** The command sent to drop one type. */
  function DropCommand(name: string): string {
    "drop type " + name + ";"
  }

  /** Drops every listed type under `namespace.component_`, one command per
      type, in listed order; `dropped(t)` is whether the server accepted the
      command for `t`, and `types` is what listing the types gave (empty when
      listing failed). Succeeds when there was nothing to drop, fails when
      not signed in or when nothing was listed, and otherwise succeeds
      exactly when every drop was accepted. */
  method DropTypesByPrefix(signedIn: bool, namespace: string, component: string,
                           types: seq<string>, dropped: string -> bool)
    returns (ok: bool, droppedCount: nat, failedCount: nat, commands: seq<string>)
    ensures var matching := MatchingTypes(types, TypePrefix(namespace, component));
      && (!signedIn || types == [] ==> !ok && commands == [])
      && (signedIn && types != [] ==>
            && |commands| == |matching|
            && (forall j :: 0 <= j < |matching| ==> commands[j] == DropCommand(matching[j]))
            && droppedCount == CountIf(matching, dropped)
            && droppedCount + failedCount == |matching|
            && (ok <==> forall j :: 0 <= j < |matching| ==> dropped(matching[j])))
  {
    droppedCount, failedCount, commands := 0, 0, [];
    if !signedIn {
      return false, droppedCount, failedCount, commands;
    }
    if types == [] {
      return false, droppedCount, failedCount, commands;
    }
    var matching := MatchingTypes(types, TypePrefix(namespace, component));
    if matching == [] {
      return true, droppedCount, failedCount, commands;
    }
    droppedCount, failedCount, commands := DropEach(matching, dropped);
    ok := failedCount == 0;
  }

  /** Sends one drop command per type, in order, and counts the accepted
      and the refused ones. */
  method DropEach(matching: seq<string>, dropped: string -> bool)
    returns (droppedCount: nat, failedCount: nat, commands: seq<string>)
    ensures |commands| == |matching|
    ensures forall j :: 0 <= j < |matching| ==> commands[j] == DropCommand(matching[j])
    ensures droppedCount == CountIf(matching, dropped)
    ensures droppedCount + failedCount == |matching|
    ensures failedCount == 0 <==> forall j :: 0 <= j < |matching| ==> dropped(matching[j])
  {
    droppedCount, failedCount, commands := 0, 0, [];
    var i := 0;
    while i < |matching|
      invariant 0 <= i <= |matching|
      invariant |commands| == i && forall j :: 0 <= j < i ==> commands[j] == DropCommand(matching[j])
      invariant droppedCount == CountIf(matching[..i], dropped)
      invariant droppedCount + failedCount == i
      invariant failedCount == 0 <==> forall j :: 0 <= j < i ==> dropped(matching[j])
    {
      commands := commands + [DropCommand(matching[i])];
      CountIfSnoc(matching[..i], matching[i], dropped);
      assert matching[..i + 1] == matching[..i] + [matching[i]];
      if dropped(matching[i]) {
        droppedCount := droppedCount + 1;
      } else {
        failedCount := failedCount + 1;
      }
      i := i + 1;
    }
    assert matching[..i] == matching;
  }

  // ---- extract_applications_from_zip ----

  /** The archive entry holding application `app`: the first entry that ends
      in `.tql` and starts with the application's name and `_`. */
  function EntryFor(entries: seq<string>, app: string): Option<string> {
    if entries == [] then None
    else if EntryMatches(entries[0], app) then Some(entries[0])
    else EntryFor(entries[1..], app)
  }

  predicate EntryMatches(entry: string, app: string) {
    EndsWith(entry, ".tql") && app + "_" <= entry
  }

  /** `EntryFor` finds an entry exactly when some entry matches, and then it
      finds the first one. */
  lemma {:induction false} EntryForIsFirst(entries: seq<string>, app: string)
    ensures EntryFor(entries, app).None? <==> forall e :: e in entries ==> !EntryMatches(e, app)
    ensures EntryFor(entries, app).Some? ==>
      exists k :: 0 <= k < |entries| && entries[k] == EntryFor(entries, app).value
        && EntryMatches(entries[k], app)
        && forall j :: 0 <= j < k ==> !EntryMatches(entries[j], app)
  {
    if entries != [] && !EntryMatches(entries[0], app) {
      EntryForIsFirst(entries[1..], app);
      assert forall e :: e in entries ==> e == entries[0] || e in entries[1..];
      if EntryFor(entries, app).Some? {
        var k :| 0 <= k < |entries[1..]| && entries[1..][k] == EntryFor(entries, app).value
          && EntryMatches(entries[1..][k], app)
          && forall j :: 0 <= j < k ==> !EntryMatches(entries[1..][j], app);
        assert entries[k + 1] == entries[1..][k];
        forall j | 0 <= j < k + 1 ensures !EntryMatches(entries[j], app) {
          if j > 0 {
            assert entries[j] == entries[1..][j - 1];
          }
        }
      }
    }
  }

  /** `os.path.join(stage_dir, name)` for a name without a directory part. */
  function PathJoin(dir: string, name: string): string {
    if dir == [] || EndsWith(dir, "/") then dir + name else dir + "/" + name
  }

  /** Where application `app` is staged. */
  function StagedPath(stageDir: string, app: string): string {
    PathJoin(stageDir, app + ".tql")
  }

  /** The applications that get a staged file, in the order they are first
      put in the result: each listed application with an entry, once. */
  function Staged(entries: seq<string>, apps: seq<string>): (r: seq<string>)
    ensures forall a :: a in r <==> a in apps && EntryFor(entries, a).Some?
  {
    if apps == [] then []
    else
      var prev := Staged(entries, apps[..|apps| - 1]);
      var a := apps[|apps| - 1];
      assert forall b :: b in apps <==> b in apps[..|apps| - 1] || b == a;
      if EntryFor(entries, a).Some? && a !in prev then prev + [a] else prev
  }

  predicate Distinct<T(==)>(s: seq<T>) {
    forall i, j :: 0 <= i < j < |s| ==> s[i] != s[j]
  }

  lemma {:induction false} StagedDistinct(entries: seq<string>, apps: seq<string>)
    ensures Distinct(Staged(entries, apps))
  {
    if apps != [] {
      StagedDistinct(entries, apps[..|apps| - 1]);
    }
  }

  /** Whether the archive has an entry for the application. */
  function HasEntry(entries: seq<string>): string -> bool {
    a => EntryFor(entries, a).Some?
  }

  /** The files that exist once `apps` have been staged, starting from the
      files in `present`: every staged application's path exists, whether
      it was written now or kept. */
  function OnDisk(entries: seq<string>, stageDir: string, apps: seq<string>,
                  present: set<string>): set<string>
  {
    if apps == [] then present
    else
      var a := apps[|apps| - 1];
      OnDisk(entries, stageDir, apps[..|apps| - 1], present)
        + (if EntryFor(entries, a).Some? then {StagedPath(stageDir, a)} else {})
  }

  /** A file exists after staging exactly when it existed before or is the
      path of a listed application with an entry. */
  lemma {:induction false} OnDiskMembers(entries: seq<string>, stageDir: string, apps: seq<string>,
                                         present: set<string>, x: string)
    ensures x in OnDisk(entries, stageDir, apps, present) <==>
      x in present || exists a :: a in apps && EntryFor(entries, a).Some? && x == StagedPath(stageDir, a)
  {
    if apps != [] {
      var init := apps[..|apps| - 1];
      OnDiskMembers(entries, stageDir, init, present, x);
      assert forall b :: b in apps <==> b in init || b == apps[|apps| - 1];
    }
  }

  /** The (entry, path) pairs written while staging `apps` in order: an
      application with an entry is written unless `overwrite` is off and its
      path exists by then, either from before or from an earlier write. */
  function Writes(entries: seq<string>, stageDir: string, apps: seq<string>,
                  present: set<string>, overwrite: bool): seq<(string, string)>
  {
    if apps == [] then []
    else
      var init, a := apps[..|apps| - 1], apps[|apps| - 1];
      var prev := Writes(entries, stageDir, init, present, overwrite);
      var e := EntryFor(entries, a);
      if e.Some? && (overwrite || StagedPath(stageDir, a) !in OnDisk(entries, stageDir, init, present))
      then prev + [(e.value, StagedPath(stageDir, a))]
      else prev
  }

  /** Picks each application's entry out of the archive. `present` holds the
      staged files that exist beforehand; with `overwrite` off an existing
      file, including one written earlier in the same pass, is kept and not
      written again, but the application is still handed on. The result is
      the ordered dictionary from application to staged path, as its keys in
      insertion order and the map itself, the (entry, path) pairs written,
      and the files that exist afterwards. */
  method ExtractApplications(entries: seq<string>, stageDir: string, apps: seq<string>,
                             present: set<string>, overwrite: bool)
    returns (order: seq<string>, files: map<string, string>, writes: seq<(string, string)>,
             disk: set<string>)
    ensures order == Staged(entries, apps)
    ensures files.Keys == set a | a in order
    ensures forall a :: a in files ==> files[a] == StagedPath(stageDir, a)
    ensures writes == Writes(entries, stageDir, apps, present, overwrite)
    ensures disk == OnDisk(entries, stageDir, apps, present)
  {
    order, files, writes, disk := [], map[], [], present;
    var i := 0;
    while i < |apps|
      invariant 0 <= i <= |apps|
      invariant order == Staged(entries, apps[..i])
      invariant files.Keys == set a | a in order
      invariant forall a :: a in files ==> files[a] == StagedPath(stageDir, a)
      invariant writes == Writes(entries, stageDir, apps[..i], present, overwrite)
      invariant disk == OnDisk(entries, stageDir, apps[..i], present)
    {
      StageStep(entries, stageDir, apps, present, overwrite, i);
      order, files, writes, disk := StageOne(entries, stageDir, apps[i], overwrite, order, files, writes, disk);
      i := i + 1;
    }
    assert apps[..i] == apps;
  }

  /** The loop body of `ExtractApplications`: stages one application. */
  method StageOne(entries: seq<string>, stageDir: string, app: string, overwrite: bool,
                  order: seq<string>, files: map<string, string>, writes: seq<(string, string)>,
                  disk: set<string>)
    returns (order': seq<string>, files': map<string, string>, writes': seq<(string, string)>,
             disk': set<string>)
    ensures var e, out := EntryFor(entries, app), StagedPath(stageDir, app);
      && order' == (if e.Some? && app !in files then order + [app] else order)
      && files' == (if e.Some? then files[app := out] else files)
      && writes' == writes + (if e.Some? && (overwrite || out !in disk) then [(e.value, out)] else [])
      && disk' == disk + (if e.Some? then {out} else {})
  {
    order', files', writes', disk' := order, files, writes, disk;
    var entry := EntryFor(entries, app);
    if entry.Some? {
      var out := StagedPath(stageDir, app);
      if overwrite || out !in disk {
        writes' := writes + [(entry.value, out)];
      }
      disk' := disk + {out};
      if app !in files {
        order' := order + [app];
      }
      files' := files[app := out];
    }
  }

  /** Staging one more application: what it adds to the keys, the writes
      and the files on disk. */
  lemma StageStep(entries: seq<string>, stageDir: string, apps: seq<string>,
                  present: set<string>, overwrite: bool, i: nat)
    requires i < |apps|
    ensures var init, a := apps[..i], apps[i];
      var e, out := EntryFor(entries, a), StagedPath(stageDir, a);
      && Staged(entries, apps[..i + 1]) ==
        (if e.Some? && a !in Staged(entries, init) then Staged(entries, init) + [a] else Staged(entries, init))
      && Writes(entries, stageDir, apps[..i + 1], present, overwrite) ==
        Writes(entries, stageDir, init, present, overwrite)
        + (if e.Some? && (overwrite || out !in OnDisk(entries, stageDir, init, present))
           then [(e.value, out)] else [])
      && OnDisk(entries, stageDir, apps[..i + 1], present) ==
        OnDisk(entries, stageDir, init, present) + (if e.Some? then {out} else {})
  {
    assert apps[..i + 1][..i] == apps[..i] && apps[..i + 1][i] == apps[i];
    assert forall b :: b in apps[..i + 1] <==> b in apps[..i] || b == apps[i];
  }

  /** Different applications are staged at different paths. */
  lemma StagedPathInjective(stageDir: string, a: string, b: string)
    requires StagedPath(stageDir, a) == StagedPath(stageDir, b)
    ensures a == b
  {
    var d := if stageDir == [] || EndsWith(stageDir, "/") then stageDir else stageDir + "/";
    assert StagedPath(stageDir, a) == d + (a + ".tql") && StagedPath(stageDir, b) == d + (b + ".tql");
    assert a + ".tql" == StagedPath(stageDir, a)[|d|..];
    assert b + ".tql" == StagedPath(stageDir, b)[|d|..];
    assert a == (a + ".tql")[..|a + ".tql"| - 4];
    assert b == (b + ".tql")[..|b + ".tql"| - 4];
  }

  /** A pair is written exactly when some listed application has that entry
      and that path, and `overwrite` is on or the path did not exist before
      the pass. */
  lemma {:induction false} WritesMembers(entries: seq<string>, stageDir: string, apps: seq<string>,
                                         present: set<string>, overwrite: bool, w: (string, string))
    ensures w in Writes(entries, stageDir, apps, present, overwrite) <==>
      exists a :: a in apps && EntryFor(entries, a) == Some(w.0) && w.1 == StagedPath(stageDir, a)
        && (overwrite || w.1 !in present)
  {
    if apps != [] {
      var init, last := apps[..|apps| - 1], apps[|apps| - 1];
      WritesMembers(entries, stageDir, init, present, overwrite, w);
      OnDiskMembers(entries, stageDir, init, present, StagedPath(stageDir, last));
      assert forall b :: b in apps <==> b in init || b == last;
      var cond :=
        exists a :: a in apps && EntryFor(entries, a) == Some(w.0) && w.1 == StagedPath(stageDir, a)
          && (overwrite || w.1 !in present);
      if cond && w !in Writes(entries, stageDir, init, present, overwrite) {
        var a :| a in apps && EntryFor(entries, a) == Some(w.0) && w.1 == StagedPath(stageDir, a)
          && (overwrite || w.1 !in present);
        assert a == last;
        if !overwrite && StagedPath(stageDir, a) in OnDisk(entries, stageDir, init, present) {
          var b :| b in init && EntryFor(entries, b).Some? && StagedPath(stageDir, b) == StagedPath(stageDir, a);
          StagedPathInjective(stageDir, a, b);
        }
      }
    }
  }

  /** The paths written, in order. */
  function WrittenPaths(writes: seq<(string, string)>): (r: seq<string>)
    ensures |r| == |writes| && forall k :: 0 <= k < |r| ==> r[k] == writes[k].1
  {
    seq(|writes|, k requires 0 <= k < |writes| => writes[k].1)
  }

  /** With `overwrite` off, no file is written twice, even when an
      application is listed twice. */
  lemma {:induction false} WritesOnce(entries: seq<string>, stageDir: string, apps: seq<string>,
                                      present: set<string>)
    ensures Distinct(WrittenPaths(Writes(entries, stageDir, apps, present, false)))
    ensures forall k :: 0 <= k < |Writes(entries, stageDir, apps, present, false)| ==>
      Writes(entries, stageDir, apps, present, false)[k].1 in OnDisk(entries, stageDir, apps, present)
  {
    if apps != [] {
      var init := apps[..|apps| - 1];
      WritesOnce(entries, stageDir, init, present);
      assert forall b :: b in init ==> b in apps;
      var prev := Writes(entries, stageDir, init, present, false);
      var w := Writes(entries, stageDir, apps, present, false);
      assert forall k :: 0 <= k < |prev| ==> w[k] == prev[k];
    }
  }

  /** With `overwrite` on, every listed application with an entry is
      written, once per listing. */
  lemma {:induction false} WritesAll(entries: seq<string>, stageDir: string, apps: seq<string>,
                                     present: set<string>)
    ensures |Writes(entries, stageDir, apps, present, true)| == CountIf(apps, HasEntry(entries))
  {
    if apps != [] {
      var init, last := apps[..|apps| - 1], apps[|apps| - 1];
      WritesAll(entries, stageDir, init, present);
      CountIfSnoc(init, last, HasEntry(entries));
      assert init + [last] == apps;
    }
  }
}
