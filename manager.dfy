/** The script's operations as they run: each hands argument vectors to
    the runner one at a time, and the runner records them. The outside
    world is two oracles fixed for the session: `pathExists` stands for
    `os.path.exists`, `execute` for running a command with `subprocess`,
    which is consulted with the commands the session has executed so far. */
module Manager {
  import opened Paths
  import opened Kubectl
  import opened Sequencing

  datatype Option<T> = None | Some(value: T)

  lemma AppendAssociates<T>(a: seq<T>, b: seq<T>, c: seq<T>)
    ensures (a + b) + c == a + (b + c)
  {
  }

  class Session {
    /** `os.path.exists`. */
    const pathExists: string -> bool
    /** What `subprocess.run` of a command produces in a real run, after
        the commands already executed. */
    const execute: Oracle
    /** Every argument vector handed to `run_kubectl_command`, in order. */
    var issued: seq<Command>
    /** The argument vectors that were actually run (real mode only). */
    var executed: seq<Command>

    constructor (pathExists: string -> bool, execute: Oracle)
      ensures this.pathExists == pathExists && this.execute == execute
      ensures issued == [] && executed == []
    {
      this.pathExists := pathExists;
      this.execute := execute;
      issued := [];
      executed := [];
    }

    /** `run_kubectl_command(command, dry_run)`: records the command, runs it
        only in a real run, and replies as the runner specification says. */
    method RunKubectl(command: Command, dryRun: bool) returns (success: bool, output: string)
      modifies this
      ensures Reply(success, output) == RunKubectlCommand(command, dryRun, execute, old(executed))
      ensures dryRun ==> success && output == ""
      ensures issued == old(issued) + [command]
      ensures executed == old(executed) + (if dryRun then [] else [command])
    {
      issued := issued + [command];
      if dryRun {
        return true, "";
      }
      var reply := RunKubectlCommand(command, dryRun, execute, executed);
      success, output := reply.success, reply.output;
      executed := executed + [command];
    }

    /** `start_resources(config, dry_run)`. */
    method StartResources(config: Config, dryRun: bool) returns (ok: bool)
      requires |config.resources| > 0
      modifies this
      ensures ok == Start(config, dryRun, pathExists, execute, old(executed)).ok
      ensures issued == old(issued) + Start(config, dryRun, pathExists, execute, old(executed)).commands
      ensures executed == old(executed) + (if dryRun then [] else Start(config, dryRun, pathExists, execute, old(executed)).commands)
    {
      var resources := config.resources;
      var nsFile := Join(config.resourceDirectory, resources[0]);
      var success, _ := RunKubectl(ApplyUnscoped(nsFile), dryRun);
      if !success && !dryRun {
        assert Start(config, dryRun, pathExists, execute, old(executed)) == Trace(false, [ApplyUnscoped(nsFile)]);
        return false;
      }

      // time.sleep(2) here has no effect on what is issued
      ApplyRemaining(config, dryRun);
      assert Start(config, dryRun, pathExists, execute, old(executed))
        == Trace(true, [ApplyUnscoped(nsFile)] + ApplyEach(config, resources[1..], pathExists));
      AppendAssociates(old(issued), [ApplyUnscoped(nsFile)], ApplyEach(config, resources[1..], pathExists));
      AppendAssociates(old(executed), [ApplyUnscoped(nsFile)], ApplyEach(config, resources[1..], pathExists));
      return true;
    }

    /** The loop of `start_resources` over `resources[1:]`: a scoped apply of
        each file that exists, in list order; a failed apply is only
        reported and the loop goes on. */
    method ApplyRemaining(config: Config, dryRun: bool)
      requires |config.resources| > 0
      modifies this
      ensures issued == old(issued) + ApplyEach(config, config.resources[1..], pathExists)
      ensures executed == old(executed) + (if dryRun then [] else ApplyEach(config, config.resources[1..], pathExists))
    {
      var rest := config.resources[1..];
      ghost var log: seq<Command> := [];
      for i := 0 to |rest|
        invariant log == ApplyEach(config, rest[..i], pathExists)
        invariant issued == old(issued) + log
        invariant executed == old(executed) + (if dryRun then [] else log)
      {
        ApplyEachStep(config, rest, i, pathExists);
        var resourceFile := rest[i];
        var filePath := Join(config.resourceDirectory, resourceFile);
        if !pathExists(filePath) {
          continue;
        }
        var applied, _ := RunKubectl(ApplyScoped(filePath, config.namespace), dryRun);
        log := log + [ApplyScoped(filePath, config.namespace)];
      }
      assert rest[..|rest|] == rest;
    }

    /** `stop_resources(config, dry_run)`. */
    method StopResources(config: Config, dryRun: bool) returns (ok: bool)
      requires |config.resources| > 0
      modifies this
      ensures ok == Stop(config, pathExists).ok
      ensures issued == old(issued) + Stop(config, pathExists).commands
      ensures executed == old(executed) + (if dryRun then [] else Stop(config, pathExists).commands)
    {
      var namespace := config.namespace;
      var resourceDir := config.resourceDirectory;
      var resources := config.resources;

      ghost var log: seq<Command> := [];
      var i := |resources|;
      while i > 0
        invariant 0 <= i <= |resources|
        invariant log == DeleteEach(config, resources[i..], pathExists)
        invariant issued == old(issued) + log
        invariant executed == old(executed) + (if dryRun then [] else log)
      {
        i := i - 1;
        DeleteEachStep(config, resources, i, pathExists);
        var resourceFile := resources[i];
        if NamesNamespace(resourceFile) {
          continue;
        }
        var filePath := Join(resourceDir, resourceFile);
        if !pathExists(filePath) {
          continue;
        }
        // a failed delete is only reported; the loop goes on
        var deleted, _ := RunKubectl(DeleteScoped(filePath, namespace), dryRun);
        log := log + [DeleteScoped(filePath, namespace)];
      }

      // the namespace manifest last, unscoped; its failure is only reported
      var nsFile := Join(resourceDir, resources[0]);
      var success, _ := RunKubectl(DeleteUnscoped(nsFile), dryRun);
      AppendAssociates(old(issued), log, [DeleteUnscoped(nsFile)]);
      AppendAssociates(old(executed), log, [DeleteUnscoped(nsFile)]);
      return true;
    }

    /** `get_pod_status(config)`: one real `kubectl get pods -n <namespace>`;
        the output is shown only when the command succeeded. */
    method GetPodStatus(config: Config) returns (shown: Option<string>)
      modifies this
      ensures issued == old(issued) + [GetPods(config.namespace)]
      ensures executed == old(executed) + [GetPods(config.namespace)]
      ensures shown.Some? <==> execute(old(executed), GetPods(config.namespace)).Completed?
      ensures shown.Some? ==> shown.value == execute(old(executed), GetPods(config.namespace)).stdout
    {
      var success, output := RunKubectl(GetPods(config.namespace), false);
      shown := if success then Some(output) else None;
    }
  }
}
