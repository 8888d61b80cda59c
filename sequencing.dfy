/** What `start_resources` and `stop_resources` do, as functions of the
    configuration and the two oracles: the value each returns and the
    argument vectors it hands to the runner, in order. The loops of the
    imperative versions (module Manager) are proved to produce exactly
    these traces. */
module Sequencing {
  import opened Paths
  import opened Kubectl

  /** The three configuration entries the operations read. */
  datatype Config = Config(namespace: string, resourceDirectory: string, resources: seq<string>)

  /** One run of start or stop: its return value and the commands it
      handed to the runner, in order. */
  datatype Trace = Trace(ok: bool, commands: seq<Command>)

  /** `os.path.join(resource_dir, file)`. */
  function FilePath(c: Config, file: string): string {
    Join(c.resourceDirectory, file)
  }

  /** The path of the namespace manifest, `resources[0]`. */
  function NamespaceFile(c: Config): string
    requires |c.resources| > 0
  {
    FilePath(c, c.resources[0])
  }

  // ---------------------------------------------------------------------
  // start_resources

  /** The commands the loop over `files` issues, taken left to right: an
      existing file gets a scoped apply, a missing one nothing. Defined on
      the last element, the order in which the loop extends its log. */
  function ApplyEach(c: Config, files: seq<string>, pathExists: string -> bool): seq<Command>
  {
    if files == [] then []
    else
      var last := files[|files| - 1];
      ApplyEach(c, files[..|files| - 1], pathExists)
        + (if pathExists(FilePath(c, last)) then [ApplyScoped(FilePath(c, last), c.namespace)] else [])
  }

  /** `start_resources(config, dry_run)`, after the commands of `history`
      were executed: apply the namespace manifest unscoped; stop with `False` when that failed in a real run; otherwise
      go through `resources[1:]` and return `True`. */
  function Start(c: Config, dryRun: bool, pathExists: string -> bool, execute: Oracle, history: seq<Command>): Trace
    requires |c.resources| > 0
  {
    var first := ApplyUnscoped(NamespaceFile(c));
    if !RunKubectlCommand(first, dryRun, execute, history).success && !dryRun then Trace(false, [first])
    else Trace(true, [first] + ApplyEach(c, c.resources[1..], pathExists))
  }

  // ---------------------------------------------------------------------
  // stop_resources

  /** Whether the reverse loop of stop deletes `file`: its lower-cased name
      does not contain `namespace` and its path exists. */
  predicate Deletable(c: Config, file: string, pathExists: string -> bool) {
    !NamesNamespace(file) && pathExists(FilePath(c, file))
  }

  /** The commands the loop over `reversed(files)` issues: the last file is
      visited first, and every deletable file gets a scoped delete. */
  function DeleteEach(c: Config, files: seq<string>, pathExists: string -> bool): seq<Command>
  {
    if files == [] then []
    else
      DeleteEach(c, files[1..], pathExists)
        + (if Deletable(c, files[0], pathExists) then [DeleteScoped(FilePath(c, files[0]), c.namespace)] else [])
  }

  /** `stop_resources(config, dry_run)`: the reverse loop, then an unscoped
      delete of `resources[0]`; the result is always `True`. Neither the
      dry-run flag nor any command outcome changes what is issued. */
  function Stop(c: Config, pathExists: string -> bool): Trace
    requires |c.resources| > 0
  {
    Trace(true, DeleteEach(c, c.resources, pathExists) + [DeleteUnscoped(NamespaceFile(c))])
  }

  /** One more iteration of the start loop, over `files[..i + 1]`. */
  lemma ApplyEachStep(c: Config, files: seq<string>, i: nat, pathExists: string -> bool)
    requires i < |files|
    ensures ApplyEach(c, files[..i + 1], pathExists)
         == ApplyEach(c, files[..i], pathExists)
            + (if pathExists(FilePath(c, files[i])) then [ApplyScoped(FilePath(c, files[i]), c.namespace)] else [])
  {
    assert files[..i + 1][..i] == files[..i];
  }

  /** One more iteration of the stop loop, which visits `files[i]` after
      `files[i + 1..]`. */
  lemma DeleteEachStep(c: Config, files: seq<string>, i: nat, pathExists: string -> bool)
    requires i < |files|
    ensures DeleteEach(c, files[i..], pathExists)
         == DeleteEach(c, files[i + 1..], pathExists)
            + (if Deletable(c, files[i], pathExists) then [DeleteScoped(FilePath(c, files[i]), c.namespace)] else [])
  {
    assert files[i..][1..] == files[i + 1..];
  }

  // ---------------------------------------------------------------------
  // Reference definitions: filter, then map; Python's reversed()

  /** The files whose path exists, in their order. */
  function Existing(c: Config, files: seq<string>, pathExists: string -> bool): (r: seq<string>)
    ensures |r| <= |files|
  {
    if files == [] then []
    else (if pathExists(FilePath(c, files[0])) then [files[0]] else []) + Existing(c, files[1..], pathExists)
  }

  /** The deletable files, in their order. */
  function Kept(c: Config, files: seq<string>, pathExists: string -> bool): (r: seq<string>)
    ensures |r| <= |files|
  {
    if files == [] then []
    else (if Deletable(c, files[0], pathExists) then [files[0]] else []) + Kept(c, files[1..], pathExists)
  }

  /** `reversed(s)`. */
  function Reverse(s: seq<string>): (r: seq<string>)
    ensures |r| == |s|
    ensures forall k :: 0 <= k < |s| ==> r[k] == s[|s| - 1 - k]
  {
    if s == [] then [] else Reverse(s[1..]) + [s[0]]
  }

  /** A scoped apply for each file, in order. */
  function ScopedApplies(c: Config, files: seq<string>): seq<Command> {
    seq(|files|, k requires 0 <= k < |files| => ApplyScoped(FilePath(c, files[k]), c.namespace))
  }

  /** A scoped delete for each file, in order. */
  function ScopedDeletes(c: Config, files: seq<string>): seq<Command> {
    seq(|files|, k requires 0 <= k < |files| => DeleteScoped(FilePath(c, files[k]), c.namespace))
  }

  lemma {:induction false} ExistingSnoc(c: Config, files: seq<string>, file: string, pathExists: string -> bool)
    ensures Existing(c, files + [file], pathExists)
         == Existing(c, files, pathExists) + (if pathExists(FilePath(c, file)) then [file] else [])
  {
    if files == [] {
      assert files + [file] == [file];
    } else {
      assert (files + [file])[1..] == files[1..] + [file];
      ExistingSnoc(c, files[1..], file, pathExists);
    }
  }

  lemma {:induction false} KeptSnoc(c: Config, files: seq<string>, file: string, pathExists: string -> bool)
    ensures Kept(c, files + [file], pathExists)
         == Kept(c, files, pathExists) + (if Deletable(c, file, pathExists) then [file] else [])
  {
    if files == [] {
      assert files + [file] == [file];
    } else {
      assert (files + [file])[1..] == files[1..] + [file];
      KeptSnoc(c, files[1..], file, pathExists);
    }
  }

  /** The start loop issues exactly one scoped apply per existing file, in
      list order, and nothing for a missing file. */
  lemma {:induction false} ApplyEachIsFilterMap(c: Config, files: seq<string>, pathExists: string -> bool)
    ensures ApplyEach(c, files, pathExists) == ScopedApplies(c, Existing(c, files, pathExists))
  {
    if files != [] {
      var init, last := files[..|files| - 1], files[|files| - 1];
      assert files == init + [last];
      ApplyEachIsFilterMap(c, init, pathExists);
      ExistingSnoc(c, init, last, pathExists);
      var tail := if pathExists(FilePath(c, last)) then [last] else [];
      var before := Existing(c, init, pathExists);
      assert ScopedApplies(c, before + tail) == ScopedApplies(c, before) + ScopedApplies(c, tail);
    }
  }

  /** The stop loop issues exactly one scoped delete per deletable file,
      taken in reverse list order. */
  lemma {:induction false} DeleteEachIsReverseFilterMap(c: Config, files: seq<string>, pathExists: string -> bool)
    ensures DeleteEach(c, files, pathExists) == ScopedDeletes(c, Kept(c, Reverse(files), pathExists))
  {
    if files != [] {
      DeleteEachIsReverseFilterMap(c, files[1..], pathExists);
      KeptSnoc(c, Reverse(files[1..]), files[0], pathExists);
      var tail := if Deletable(c, files[0], pathExists) then [files[0]] else [];
      var before := Kept(c, Reverse(files[1..]), pathExists);
      assert ScopedDeletes(c, before + tail) == ScopedDeletes(c, before) + ScopedDeletes(c, tail);
    }
  }

  lemma {:induction false} ExistingMembers(c: Config, files: seq<string>, pathExists: string -> bool, file: string)
    ensures file in Existing(c, files, pathExists) <==> file in files && pathExists(FilePath(c, file))
  {
    if files != [] {
      ExistingMembers(c, files[1..], pathExists, file);
      assert files == [files[0]] + files[1..];
    }
  }

  lemma {:induction false} KeptMembers(c: Config, files: seq<string>, pathExists: string -> bool, file: string)
    ensures file in Kept(c, files, pathExists) <==> file in files && Deletable(c, file, pathExists)
  {
    if files != [] {
      KeptMembers(c, files[1..], pathExists, file);
      assert files == [files[0]] + files[1..];
    }
  }

  lemma {:induction false} ReverseMembers(s: seq<string>, x: string)
    ensures x in Reverse(s) <==> x in s
  {
    if s != [] {
      ReverseMembers(s[1..], x);
      assert s == [s[0]] + s[1..];
    }
  }

  // ---------------------------------------------------------------------
  // Properties of start_resources

  /** The whole of start: the first command is the unscoped apply of
      `resources[0]`; after an abort nothing else is issued; otherwise a
      scoped apply follows for each existing file of `resources[1:]`, in
      list order, whatever the outcome of those applies. */
  lemma StartTrace(c: Config, dryRun: bool, pathExists: string -> bool, execute: Oracle, history: seq<Command>)
    requires |c.resources| > 0
    ensures var t := Start(c, dryRun, pathExists, execute, history);
      && |t.commands| >= 1
      && t.commands[0] == ApplyUnscoped(NamespaceFile(c))
      && (!t.ok ==> t.commands == [t.commands[0]])
      && (t.ok ==> t.commands[1..] == ScopedApplies(c, Existing(c, c.resources[1..], pathExists)))
  {
    ApplyEachIsFilterMap(c, c.resources[1..], pathExists);
  }

  /** Start returns `False` exactly when the namespace apply failed in a real
      run, and then issued that single command; a dry run always returns
      `True`. */
  lemma StartAbortsOnlyOnNamespace(c: Config, dryRun: bool, pathExists: string -> bool, execute: Oracle, history: seq<Command>)
    requires |c.resources| > 0
    ensures var t := Start(c, dryRun, pathExists, execute, history);
      && (!t.ok <==> !dryRun && !execute(history, ApplyUnscoped(NamespaceFile(c))).Completed?)
      && (!t.ok ==> |t.commands| == 1)
      && (dryRun ==> t.ok)
  {
  }

  /** The namespace manifest is applied strictly before every other
      resource: the first command is the only unscoped one, and each later
      command is a scoped apply of an existing file from `resources[1:]`. */
  lemma StartNamespaceFirst(c: Config, dryRun: bool, pathExists: string -> bool, execute: Oracle, history: seq<Command>)
    requires |c.resources| > 0
    ensures var t := Start(c, dryRun, pathExists, execute, history);
      && !Scoped(t.commands[0])
      && forall k :: 1 <= k < |t.commands| ==>
           Scoped(t.commands[k]) && t.commands[k][1] == "apply"
           && exists f :: f in c.resources[1..] && pathExists(FilePath(c, f))
                          && t.commands[k] == ApplyScoped(FilePath(c, f), c.namespace)
  {
    var t := Start(c, dryRun, pathExists, execute, history);
    StartTrace(c, dryRun, pathExists, execute, history);
    var files := Existing(c, c.resources[1..], pathExists);
    forall k | 1 <= k < |t.commands|
      ensures exists f :: f in c.resources[1..] && pathExists(FilePath(c, f))
                          && t.commands[k] == ApplyScoped(FilePath(c, f), c.namespace)
    {
      assert t.commands[k] == t.commands[1..][k - 1];
      ExistingMembers(c, c.resources[1..], pathExists, files[k - 1]);
    }
  }

  /** A scoped apply of `path` is among `ScopedApplies(c, files)` exactly
      when some file of `files` has that path. */
  lemma ScopedAppliesHas(c: Config, files: seq<string>, path: string)
    ensures ApplyScoped(path, c.namespace) in ScopedApplies(c, files) <==>
      exists k :: 0 <= k < |files| && FilePath(c, files[k]) == path
  {
    var applies := ScopedApplies(c, files);
    if ApplyScoped(path, c.namespace) in applies {
      var k :| 0 <= k < |applies| && applies[k] == ApplyScoped(path, c.namespace);
      assert applies[k][3] == FilePath(c, files[k]);
    }
    if exists k :: 0 <= k < |files| && FilePath(c, files[k]) == path {
      var k :| 0 <= k < |files| && FilePath(c, files[k]) == path;
      assert applies[k] == ApplyScoped(FilePath(c, files[k]), c.namespace);
    }
  }

  /** A resource of `resources[1:]` gets a scoped apply exactly when start
      got past the namespace step and its path exists: a missing file
      contributes no command. */
  lemma StartAppliesExactlyExisting(c: Config, dryRun: bool, pathExists: string -> bool, execute: Oracle, history: seq<Command>, file: string)
    requires |c.resources| > 0
    requires file in c.resources[1..]
    ensures var t := Start(c, dryRun, pathExists, execute, history);
      ApplyScoped(FilePath(c, file), c.namespace) in t.commands <==> t.ok && pathExists(FilePath(c, file))
  {
    var t := Start(c, dryRun, pathExists, execute, history);
    var path := FilePath(c, file);
    var cmd := ApplyScoped(path, c.namespace);
    var files := Existing(c, c.resources[1..], pathExists);
    StartTrace(c, dryRun, pathExists, execute, history);
    assert t.commands == [t.commands[0]] + t.commands[1..];
    assert cmd != t.commands[0] by { assert |cmd| != |t.commands[0]|; }
    assert cmd in t.commands <==> cmd in t.commands[1..];
    if t.ok {
      ScopedAppliesHas(c, files, path);
      ExistingMembers(c, c.resources[1..], pathExists, file);
      if cmd in t.commands {
        var k :| 0 <= k < |files| && FilePath(c, files[k]) == path;
        ExistingMembers(c, c.resources[1..], pathExists, files[k]);
      }
    }
  }

  /** Best-effort continuation: once the namespace apply is decided, the
      outcomes of the other applies change nothing about the run. */
  lemma StartIgnoresSiblingOutcomes(c: Config, dryRun: bool, pathExists: string -> bool,
                                    execute1: Oracle, execute2: Oracle, history: seq<Command>)
    requires |c.resources| > 0
    requires execute1(history, ApplyUnscoped(NamespaceFile(c))).Completed?
          == execute2(history, ApplyUnscoped(NamespaceFile(c))).Completed?
    ensures Start(c, dryRun, pathExists, execute1, history) == Start(c, dryRun, pathExists, execute2, history)
  {
  }

  // ---------------------------------------------------------------------
  // Properties of stop_resources

  /** The whole of stop: scoped deletes of the deletable files in reverse
      list order, then the unscoped delete of `resources[0]`; always `True`. */
  lemma StopTrace(c: Config, pathExists: string -> bool)
    requires |c.resources| > 0
    ensures var t := Stop(c, pathExists);
      && t.ok
      && t.commands == ScopedDeletes(c, Kept(c, Reverse(c.resources), pathExists)) + [DeleteUnscoped(NamespaceFile(c))]
  {
    DeleteEachIsReverseFilterMap(c, c.resources, pathExists);
  }

  /** The namespace manifest is deleted strictly after every other
      resource: the last command is the unscoped delete of `resources[0]`
      and every earlier one is a scoped delete. */
  lemma StopNamespaceLast(c: Config, pathExists: string -> bool)
    requires |c.resources| > 0
    ensures var t := Stop(c, pathExists);
      && t.commands[|t.commands| - 1] == DeleteUnscoped(NamespaceFile(c))
      && !Scoped(t.commands[|t.commands| - 1])
      && forall k :: 0 <= k < |t.commands| - 1 ==> Scoped(t.commands[k]) && t.commands[k][1] == "delete"
  {
    StopTrace(c, pathExists);
  }

  /** A scoped delete of `path` is among `ScopedDeletes(c, files)` exactly
      when some file of `files` has that path. */
  lemma ScopedDeletesHas(c: Config, files: seq<string>, path: string)
    ensures DeleteScoped(path, c.namespace) in ScopedDeletes(c, files) <==>
      exists k :: 0 <= k < |files| && FilePath(c, files[k]) == path
  {
    var deletes := ScopedDeletes(c, files);
    var cmd := DeleteScoped(path, c.namespace);
    if cmd in deletes {
      var k :| 0 <= k < |deletes| && deletes[k] == cmd;
      assert cmd[3] == path;
      assert deletes[k][3] == FilePath(c, files[k]);
    }
    if exists k :: 0 <= k < |files| && FilePath(c, files[k]) == path {
      var k :| 0 <= k < |files| && FilePath(c, files[k]) == path;
      assert deletes[k] == DeleteScoped(FilePath(c, files[k]), c.namespace);
    }
  }

  /** Which files stop deletes in its loop: a scoped delete of a path is
      issued exactly when some resource with that path exists and its name
      does not contain `namespace`. */
  lemma StopDeletesExactlyDeletable(c: Config, pathExists: string -> bool, path: string)
    requires |c.resources| > 0
    ensures var t := Stop(c, pathExists);
      DeleteScoped(path, c.namespace) in t.commands <==>
        exists f :: f in c.resources && FilePath(c, f) == path && Deletable(c, f, pathExists)
  {
    var t := Stop(c, pathExists);
    var cmd := DeleteScoped(path, c.namespace);
    var files := Kept(c, Reverse(c.resources), pathExists);
    var loop := ScopedDeletes(c, files);
    StopTrace(c, pathExists);
    assert cmd != DeleteUnscoped(NamespaceFile(c)) by { assert |cmd| != 4; }
    assert cmd in t.commands <==> cmd in loop;
    ScopedDeletesHas(c, files, path);
    if cmd in loop {
      var k :| 0 <= k < |files| && FilePath(c, files[k]) == path;
      KeptMembers(c, Reverse(c.resources), pathExists, files[k]);
      ReverseMembers(c.resources, files[k]);
    }
    if exists f :: f in c.resources && FilePath(c, f) == path && Deletable(c, f, pathExists) {
      var f :| f in c.resources && FilePath(c, f) == path && Deletable(c, f, pathExists);
      ReverseMembers(c.resources, f);
      KeptMembers(c, Reverse(c.resources), pathExists, f);
      var k :| 0 <= k < |files| && files[k] == f;
      assert FilePath(c, files[k]) == path;
    }
  }

  /** As written, stop recognises the namespace manifest by name, not by
      position: when `resources[0]` exists and its name does not contain
      `namespace`, it is deleted twice, scoped as the last step of the loop
      and then unscoped. */
  lemma StopDeletesFirstTwice(c: Config, pathExists: string -> bool)
    requires |c.resources| > 0
    requires Deletable(c, c.resources[0], pathExists)
    ensures var t := Stop(c, pathExists);
      && |t.commands| >= 2
      && t.commands[|t.commands| - 2] == DeleteScoped(NamespaceFile(c), c.namespace)
      && t.commands[|t.commands| - 1] == DeleteUnscoped(NamespaceFile(c))
  {
  }

  // ---------------------------------------------------------------------
  // Two worked examples, and dry-run against a real run

  const Example: Config := Config("obs", "k8s", ["ns.yaml", "deploy.yaml", "svc.yaml"])

  /** Real run, the namespace apply fails: one command, `False`. */
  lemma ExampleNamespaceFails()
    ensures var execute := (h: seq<Command>, cmd: Command) => if cmd == ApplyUnscoped("k8s/ns.yaml") then Rejected("") else Completed("");
      Start(Example, false, _ => true, execute, []) == Trace(false, [ApplyUnscoped("k8s/ns.yaml")])
  {
    assert FilePath(Example, "ns.yaml") == "k8s/ns.yaml";
  }

  /** Real run, the apply of `deploy.yaml` fails: all three are applied in
      order and the result is `True`. */
  lemma ExampleSiblingFails()
    ensures var execute := (h: seq<Command>, cmd: Command) => if |cmd| > 3 && cmd[3] == "k8s/deploy.yaml" then Rejected("") else Completed("");
      Start(Example, false, _ => true, execute, [])
        == Trace(true, [ApplyUnscoped("k8s/ns.yaml"),
                        ApplyScoped("k8s/deploy.yaml", "obs"),
                        ApplyScoped("k8s/svc.yaml", "obs")])
  {
    assert FilePath(Example, "ns.yaml") == "k8s/ns.yaml";
    assert FilePath(Example, "deploy.yaml") == "k8s/deploy.yaml";
    assert FilePath(Example, "svc.yaml") == "k8s/svc.yaml";
    assert Example.resources[1..] == ["deploy.yaml", "svc.yaml"];
    assert ["deploy.yaml", "svc.yaml"][..1] == ["deploy.yaml"];
    assert ["deploy.yaml"][..0] == [];
  }

  /** A start that failed on the namespace apply can be retried in the same
      session: the retry runs after the failed apply, and the outside world
      may answer it differently (here, only the very first command fails). */
  lemma ExampleRetrySucceeds()
    ensures var execute := (h: seq<Command>, cmd: Command) => if h == [] then Rejected("") else Completed("");
      var first := Start(Example, false, _ => true, execute, []);
      && first == Trace(false, [ApplyUnscoped("k8s/ns.yaml")])
      && Start(Example, false, _ => true, execute, first.commands).ok
  {
    assert FilePath(Example, "ns.yaml") == "k8s/ns.yaml";
  }

  /** A dry run issues the same commands as a real run whose namespace apply
      succeeds: dry-run changes what is executed, not the sequence. */
  lemma DryRunMatchesSuccessfulRun(c: Config, pathExists: string -> bool,
                                   dryExecute: Oracle, realExecute: Oracle, history: seq<Command>)
    requires |c.resources| > 0
    requires realExecute(history, ApplyUnscoped(NamespaceFile(c))).Completed?
    ensures Start(c, true, pathExists, dryExecute, history) == Start(c, false, pathExists, realExecute, history)
  {
  }
}
