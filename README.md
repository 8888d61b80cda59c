# Command sequencing of the Kubernetes observability manager

The script `manage_observabilite.py` brings a set of Kubernetes manifests
up and down with `kubectl`. Its configuration names a namespace, a resource
directory and an ordered list of manifest files whose first element is the
namespace manifest. This project models the part of the script that
decides which `kubectl` argument vectors are issued, in what order, and
when a sequence stops:

- `run_kubectl_command`: a dry run reports `(True, "")` and runs nothing;
  a real run reports the outcome of the command.
- `start_resources`: it first applies the namespace manifest, unscoped. If
  that fails in a real run, it returns `False` at once. Otherwise it applies
  each existing file of `resources[1:]` in list order, scoped with
  `-n <namespace>`. Missing files are skipped, failed applies only
  reported, and the result is `True`.
- `stop_resources`: it walks `resources` in reverse and deletes, scoped,
  every existing file whose lower-cased name does not contain `namespace`.
  Then it deletes `resources[0]`, unscoped, and returns `True`.
- `get_pod_status`: it issues one real `kubectl get pods -n <namespace>`.

The outside world enters as two oracles fixed for a session:
`pathExists` stands for `os.path.exists`, and `execute` gives what running a
command produced (exit status 0 with its output, non-zero with its error
stream, or `kubectl` not found). `execute` is consulted with the commands
the session has already executed as well as the new one, so a repeated
command (a retry, or a later delete of a file already deleted) may get a different
outcome. `os.path.join` is written out with its POSIX
meaning (`Paths.Join`). `str.lower()` is ASCII lower-casing.

Modules:

- `Paths` (`paths.dfy`): path joining, lower-casing and the substring test.
- `Kubectl` (`kubectl.dfy`): argument vectors, and the runner as a pure function.
- `Sequencing` (`sequencing.dfy`): `Start` and `Stop` as functions from the
  configuration and the oracles to a `Trace` (the return value plus the
  commands issued), reference definitions, and the properties.
- `Manager` (`manager.dfy`): class `Session`, whose methods run the script's
  loops step by step and append every command to the field `issued`. In a
  real run each command is also appended to `executed`. Each method is
  proved to leave exactly the trace that `Sequencing` specifies.

Three facts about the code shape the model:

- Start and stop recognise the namespace manifest differently. Start
  applies `resources[0]` unscoped, and the comment at
  `manage_observabilite.py:52` assumes that this first file is the
  namespace manifest. The stop loop instead skips a file by its name
  (`'namespace' in resource_file.lower()`, line 81), and then deletes
  `resources[0]` unscoped. So when `resources[0]` exists and its name does
  not contain `namespace` (say `ns.yaml`), stop deletes it twice: scoped as
  the last step of the loop, then unscoped
  (`Sequencing.StopDeletesFirstTwice`). A later resource whose name
  contains `namespace` is never deleted
  (`Sequencing.StopDeletesExactlyDeletable`).
- The two-second sleep after the namespace apply (line 58) runs in dry
  runs as well as real ones, and it issues no command.
- Start and stop return only a boolean (lines 57, 70 and 100): start
  reports `False` only when the namespace apply failed, and stop always
  reports `True`. The outcome of each other command is printed, not
  returned.

## Model

| member | source | states |
|---|---|---|
| `Kubectl.RunKubectlCommand` | manage_observabilite.py:22-42 | a dry run returns `(True, "")` whatever the command; a real run succeeds exactly when the command completed after the commands executed before it, and returns its standard output when it completed, its standard error when it was rejected, and `kubectl not found` when the tool is missing |
| `Manager.Session.RunKubectl` | manage_observabilite.py:22-42 | every command is recorded as issued; only a real run executes it (a dry run leaves `executed` unchanged); the reply is the runner's for the history executed before the call |
| `Manager.Session.StartResources` | manage_observabilite.py:44-70 | the namespace apply and then the loop (`ApplyRemaining`) issue exactly the commands of `Start`, in order, and the method returns its result; in a dry run nothing is executed |
| `Manager.Session.ApplyRemaining` | manage_observabilite.py:60-68 | the loop over `resources[1:]` issues exactly a scoped apply per existing file, in list order, whatever each apply returns; in a dry run nothing is executed |
| `Manager.Session.StopResources` | manage_observabilite.py:72-100 | the reverse loop plus the final delete issue exactly the commands of `Stop`, in order, and return `True`; in a dry run nothing is executed |
| `Manager.Session.GetPodStatus` | manage_observabilite.py:102-109 | exactly one command, `kubectl get pods -n <namespace>`, issued and executed in real mode; its output is shown exactly when it succeeded after the session's earlier commands |
| `Sequencing.StartTrace` | manage_observabilite.py:51-70 | the first command is the unscoped apply of `resources[0]`; after an abort nothing else is issued; otherwise a scoped apply follows for each existing file of `resources[1:]`, in list order |
| `Sequencing.StartAbortsOnlyOnNamespace` | manage_observabilite.py:54-57 | start returns `False` if and only if the namespace apply failed in a real run, and then issued exactly one command; a dry run always returns `True` |
| `Sequencing.StartNamespaceFirst` | manage_observabilite.py:52-66 | the namespace apply is the only unscoped command and comes before all others; every later command is a scoped apply of an existing file of `resources[1:]` |
| `Sequencing.StartAppliesExactlyExisting` | manage_observabilite.py:60-66 | a file of `resources[1:]` gets a scoped apply if and only if start got past the namespace step and its path exists; a missing file produces no command |
| `Sequencing.StartIgnoresSiblingOutcomes` | manage_observabilite.py:66-68 | best effort: two runs whose namespace apply has the same outcome issue the same commands and return the same value, whatever the other applies do |
| `Sequencing.ApplyEachIsFilterMap` | manage_observabilite.py:60-66 | the forward loop's commands are a scoped apply for each existing file, in list order: filter, then map |
| `Sequencing.DryRunMatchesSuccessfulRun` | manage_observabilite.py:25-27 | a dry-run start issues the same commands and returns the same value as a real run whose namespace apply succeeds |
| `Sequencing.StopTrace` | manage_observabilite.py:80-100 | stop issues a scoped delete for each deletable file in reverse list order, then the unscoped delete of `resources[0]`, and returns `True` |
| `Sequencing.DeleteEachIsReverseFilterMap` | manage_observabilite.py:80-89 | the reverse loop's commands are a scoped delete for each deletable file of `reversed(resources)`: filter, then map |
| `Sequencing.StopNamespaceLast` | manage_observabilite.py:93-96 | the last command is the unscoped delete of `resources[0]`; every earlier command is a scoped delete |
| `Sequencing.StopDeletesExactlyDeletable` | manage_observabilite.py:80-89 | a scoped delete of a path is issued if and only if some resource with that path exists and its lower-cased name lacks `namespace` |
| `Sequencing.StopDeletesFirstTwice` | manage_observabilite.py:80-96 | when `resources[0]` exists and its name lacks `namespace`, the last two commands are its scoped delete and then its unscoped delete |
| `Sequencing.ExampleNamespaceFails` | manage_observabilite.py:54-57 | for `["ns.yaml", "deploy.yaml", "svc.yaml"]` with the namespace apply rejected in a real run: one command, result `False` |
| `Sequencing.ExampleSiblingFails` | manage_observabilite.py:60-70 | same set with the apply of `deploy.yaml` rejected: three applies in list order, result `True` |
| `Sequencing.ExampleRetrySucceeds` | manage_observabilite.py:129-131 | a start whose namespace apply fails (one command, `False`) can be followed in the same session by a start that succeeds, when the outside world answers the repeated apply differently |
| `Paths.LowerChar` | manage_observabilite.py:81 | an upper-case ASCII letter becomes the lower-case letter of the same place in the alphabet, any other character is kept, and the result is never an upper-case letter |
| `Paths.LowerIdempotent` | manage_observabilite.py:81 | lower-casing a lower-cased name changes nothing |
| `Paths.ContainsAt` | manage_observabilite.py:81 | the recursive substring test agrees with "some window of the string equals the pattern" (Python's `in` on strings) |
| `Paths.JoinShape` | manage_observabilite.py:61 | a joined path ends with the file name; an absolute file name replaces the directory; a relative one is appended to the directory |

## Left out

- `load_config` (reading and parsing `config.yaml`, `exit(1)` on failure) is not part of this model. The configuration is a `Config` value. Missing keys and ill-typed entries are not modelled.
- `display_menu` and `main`: the interactive menu loop and all printing are not modelled.
- The execution of a command by `subprocess.run`, and the capture and printing of its streams, are folded into the `execute` oracle. The oracle sees the argument vector and the commands executed before it in the session, not the state of the cluster itself. The same file is deleted by two different commands when stop deletes `resources[0]` scoped and then unscoped. Commands do repeat when `resources` lists a file twice, when a menu option is chosen again, and in the `kubectl get pods` issued after every start and stop (lines 129-136).
- `Kubectl.RunKubectlCommand`: only `CalledProcessError` and `FileNotFoundError` are caught (lines 35 and 40). Any other exception of `subprocess.run` (such as `PermissionError`, or `UnicodeDecodeError` while decoding the output) propagates out of start or stop and ends the sequence mid-loop with no return value. The model has no such outcome: every trace and property describes a run in which no other exception is raised.
- `os.path.exists` is the `pathExists` oracle, fixed for a session. No command changes local files.
- `time.sleep(2)`: a pause with no effect on the commands issued.
- An empty `resources` list is a precondition of start and stop. The code raises `IndexError` there and issues no command.
- `Paths.Lower`: lower-cases ASCII letters only and leaves every other character unchanged, where Python's `str.lower()` follows Unicode.
- `Paths.Join`: models the POSIX `os.path.join` with two arguments, not the Windows variant.
- `Manager.Session.GetPodStatus`: printing the output is modelled as returning it (`Some(output)` on success).
