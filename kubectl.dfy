/** The argument vectors the script hands to `kubectl`, and the command
    runner `run_kubectl_command` with the process execution folded into an
    oracle. */
module Kubectl {

  /** One argument vector, e.g. `["kubectl", "apply", "-f", path]`. */
  type Command = seq<string>

  /** What running a command in a real run produced: it exited with status
      0 (its standard output), it exited non-zero (its standard error), or
      the `kubectl` executable was not found. */
  datatype Execution = Completed(stdout: string) | Rejected(stderr: string) | ToolMissing

  /** What running `command` produces after the commands of `history` have
      run, in that order: the outside world may answer a repeated command
      differently (a retry that succeeds, a second delete that finds
      nothing). */
  type Oracle = (seq<Command>, Command) -> Execution

  /** The pair `(success, output)` that `run_kubectl_command` returns. */
  datatype Reply = Reply(success: bool, output: string)

  const NotFoundMessage: string := "kubectl not found"

  /** `run_kubectl_command(command, dry_run)`: a dry run reports success with
      empty output and never consults `execute`; a real run, after the
      commands of `history` were executed, succeeds exactly when the command
      completed, and returns the stream the source returns for that outcome. */
  function RunKubectlCommand(command: Command, dryRun: bool, execute: Oracle, history: seq<Command>): (r: Reply)
    ensures dryRun ==> r == Reply(true, "")
    ensures !dryRun ==> (r.success <==> execute(history, command).Completed?)
    ensures !dryRun && execute(history, command).Completed? ==> r.output == execute(history, command).stdout
    ensures !dryRun && execute(history, command).Rejected? ==> r.output == execute(history, command).stderr
    ensures !dryRun && execute(history, command).ToolMissing? ==> r.output == NotFoundMessage
  {
    if dryRun then Reply(true, "")
    else match execute(history, command)
      case Completed(out) => Reply(true, out)
      case Rejected(err) => Reply(false, err)
      case ToolMissing => Reply(false, NotFoundMessage)
  }

  /** `kubectl apply -f <path>`: the namespace manifest, applied unscoped. */
  function ApplyUnscoped(path: string): Command {
    ["kubectl", "apply", "-f", path]
  }

  /** `kubectl apply -f <path> -n <namespace>`. */
  function ApplyScoped(path: string, namespace: string): Command {
    ["kubectl", "apply", "-f", path, "-n", namespace]
  }

  /** `kubectl delete -f <path> -n <namespace>`. */
  function DeleteScoped(path: string, namespace: string): Command {
    ["kubectl", "delete", "-f", path, "-n", namespace]
  }

  /** `kubectl delete -f <path>`: the namespace manifest, deleted unscoped. */
  function DeleteUnscoped(path: string): Command {
    ["kubectl", "delete", "-f", path]
  }

  /** `kubectl get pods -n <namespace>`. */
  function GetPods(namespace: string): Command {
    ["kubectl", "get", "pods", "-n", namespace]
  }

  /** A command is scoped to a namespace when it ends with `-n <namespace>`. */
  predicate Scoped(command: Command) {
    |command| >= 2 && command[|command| - 2] == "-n"
  }
}
