# Dotfiles bootstrap installer — a verified model

`sentu_install.py` bootstraps a dotfiles checkout. It shows a banner. It
stops if `curl` is missing. It stops successfully if `~/dotfiles` already
exists. Otherwise it asks the OS for its name. On Linux, Darwin and Windows it
then checks for `git`. On Linux without git it installs git with the first
package manager it finds, in the order apt-get, dnf, pacman, yum: it runs that
manager's update command, then its install command. On Darwin and Windows it
installs nothing and exits with status 1 when git is missing. On any other OS
it exits with status 1 without probing git.

The model has two modules:

- `PyStr` (`pystr.dfy`) holds the Python string operations the script uses:
  `sep.join`, `str.split(sep)`, `str.replace(old, new)` and `str.center(width)`.
  Strings are sequences of code points. `split` and `replace` are one
  left-to-right scan whose matches never overlap. `center` follows CPython's
  rule: when the margin is odd, the extra space goes on the left exactly when
  the width is odd.
- `Installer` (`installer.dfy`) holds `REPO_NAME`, the two centred banner
  lines of `show`, the exit policy of `run_command`, and `main`.

`main` is modelled as the method `Bootstrap`. It appends each subprocess to a
trace as it starts that subprocess: `Which(c)` for a `check_command` probe,
`Exec(argv)` for a command given to `run_command` that started. It returns how
the run ended: `Exited(n)` for `sys.exit(n)`, `Uncaught` when an exception
escapes `main` (Python prints a traceback and exits with status 1), or
`Finished` when `main` returns, which the process reports as status 0. The
host is an input (`Host`): the commands `which` resolves, whether the path
`~/dotfiles` exists, and the answer of `platform.system()`. What each command
given to `run_command` does comes from an oracle (`Runner`). It either runs
and gives a return code (`Ran(rc)`), or cannot be started (`CannotStart`).
`subprocess.run` raises `FileNotFoundError` in that case, for example when
`sudo` is not installed. `run_command` has no `try`, so the exception ends
the run.

`Bootstrap` follows the code: early returns, the `match` on the OS name, and
the tuple `match` over the four probe results. Its postcondition equates its
trace and outcome with `Plan`, a separate decision table. `Plan` picks the
manager with a priority list evaluated in order (`Select`), and the lemma
`MatchIsSelect` proves the tuple match picks the same one. The properties of
`main` are lemmas about `Plan`: the curl and checkout gates, the manager
priority, update before install, and the refusals.

The tuple at lines 105-110 is built before it is matched, so all four
manager probes run even when apt-get is found first. The trace records all
four. The code installs only git and does not check afterwards that git now
resolves. `main` ends after that step: it clones nothing and runs no playbook.

## Model

| member | source | states |
|---|---|---|
| PyStr.Join | sentu_install.py:9 | `sep.join(parts)` starts with the first part; line 9 has no `join`, but `Join` is the inverse through which its `split` and `replace` are stated |
| PyStr.Max | sentu_install.py:22 | `max(a, b)` is at least both arguments and equals one of them |
| PyStr.Last | sentu_install.py:9 | Python's `xs[-1]` on a non-empty list (`Split` always gives one) is an element of the list |
| PyStr.LastOfSnoc | sentu_install.py:9 | `xs[-1]` of a list ending in `y` is `y`, whatever precedes it |
| PyStr.Split | sentu_install.py:9 | `str.split` always yields at least one part |
| PyStr.JoinSplit | sentu_install.py:9 | joining the parts of a split with the same separator gives back the string |
| PyStr.SplitHeadIsPrefix | sentu_install.py:9 | the first part of a split is a prefix of the string |
| PyStr.SplitPartsAvoidSep | sentu_install.py:9 | no part of a split contains the separator |
| PyStr.SplitWithoutSep | sentu_install.py:9 | a string without the separator splits into itself alone |
| PyStr.Replace | sentu_install.py:9 | `replace` with a replacement no longer than the pattern never lengthens the string |
| PyStr.ReplaceIsJoinSplit | sentu_install.py:9 | `s.replace(old, new)` equals `new.join(s.split(old))` |
| PyStr.ReplaceWithoutOccurrence | sentu_install.py:9 | replacing a pattern that does not occur leaves the string unchanged |
| PyStr.ReplaceAvoidsChar | sentu_install.py:9 | a character in neither the string nor the replacement is not in the result |
| PyStr.ReplaceAfterCleanPrefix | sentu_install.py:9 | a prefix without the pattern's first character is copied, then the match at its end is replaced |
| PyStr.FirstCharAbsent | sentu_install.py:9 | a pattern whose first character is missing from a string does not occur in it |
| PyStr.JoinSnoc | sentu_install.py:9 | a join of two or more parts ends with the separator and then the last part |
| PyStr.CenterOffset | sentu_install.py:25-26 | the left padding of `str.center`: at most the margin, the two sides differ by one at most, and the left side is larger exactly when the margin and the width are both odd |
| PyStr.Center | sentu_install.py:25-26 | the centred string has length `max(len(s), width)`, holds `s` at the left-padding offset, and is spaces elsewhere |
| Installer.RepoName | sentu_install.py:9 | the repository name contains no `/` and is no longer than the URL |
| Installer.LastSegment | sentu_install.py:9 | `split("/")[-1]` is a suffix of the URL |
| Installer.LastSegmentIsTail | sentu_install.py:9 | `split("/")[-1]` is a suffix of the URL without `/`, and is either the whole URL or follows a `/` |
| Installer.LastSegmentAfterSlash | sentu_install.py:9 | for `prefix + "/" + tail` with no `/` in `tail`, the last segment is exactly `tail` |
| Installer.LastSegmentOfPlainUrl | sentu_install.py:9 | a URL without `/` is its own last segment |
| Installer.RepoNameOfPath | sentu_install.py:9 | the name of `prefix/tail` is `tail` with `.git` occurrences removed |
| Installer.RepoNameOfPlainUrl | sentu_install.py:9 | a URL with no `/` and no `.git` is its own repository name |
| Installer.PlaceholderRepoName | sentu_install.py:7-9 | the placeholder `REPO_URL` is its own `REPO_NAME` |
| Installer.HostedRepoName | sentu_install.py:9 | every URL ending in `/dotfiles.git` has the name `dotfiles` |
| Installer.RepoNameMayKeepSuffix | sentu_install.py:9 | one `replace` pass can leave a `.git` in the name (`…/..gitgit` gives `.git`) |
| Installer.Banner | sentu_install.py:18-26 | both banner lines have length `max(len(encabezado), len(mensaje))` and contain their original string as a contiguous slice |
| Installer.InstallBanner | sentu_install.py:85 | for the message `main` shows, the header line is unchanged and the message gets four spaces before and five after |
| Installer.DefaultBanner | sentu_install.py:12-26 | for the default message, eleven spaces go on each side |
| Installer.RunCommand | sentu_install.py:72-81 | `run_command` raises exactly when the command cannot be started; it terminates with status 1 exactly when the command ran, `check` holds and the return code is non-zero; otherwise it returns that return code |
| Installer.Classify | sentu_install.py:99-168 | the OS branch taken is Linux, Darwin or Windows exactly when the name is that string; any other name takes the fallback |
| Installer.Binary | sentu_install.py:106-109 | each manager's binary is the command probed at that manager's position in the tuple |
| Installer.UpdateCommand | sentu_install.py:115-133 | each manager's update command runs under `sudo` and names that manager's binary |
| Installer.InstallGitCommand | sentu_install.py:116-134 | each manager's install command runs under `sudo`, names that manager's binary, ends with `git`, and differs from its update command |
| Installer.MatchManager | sentu_install.py:105-142 | the tuple match chooses a manager exactly when its probe is true and every earlier probe is false, and falls through to `case _` exactly when all four are false |
| Installer.Rank | sentu_install.py:105-134 | each manager's position in the order the tuple match tries them |
| Installer.FirstPresent | sentu_install.py:105-134 | the index found is the first manager whose binary is on the path; every earlier one is absent |
| Installer.MatchIsSelect | sentu_install.py:105-134 | the tuple match over the four probe results picks the same manager as the priority list evaluated in order |
| Installer.SelectIsFirstPresent | sentu_install.py:105-134 | a manager is chosen exactly when its binary is present and every higher-priority binary is absent |
| Installer.SelectNone | sentu_install.py:105-142 | no manager is chosen exactly when none of the four binaries is present |
| Installer.SelectIgnoresLowerProbes | sentu_install.py:105-134 | once a manager is present, the probes of lower-priority managers do not change the choice |
| Installer.InstallGit | sentu_install.py:115-134 | installing with the chosen manager finishes exactly when both its update and its install command return 0; the steps issued are a prefix of the update command followed by the install command, so the install comes after the update, and only if the update returned 0; the status is 0 or 1 |
| Installer.Plan | sentu_install.py:84-168 | every run starts with the curl probe and ends with status 0 or 1 |
| Installer.ExitStatus | sentu_install.py:77-168 | `sys.exit(n)` reports status n, an uncaught exception reports 1, and `main` returning reports 0 |
| Installer.Bootstrap | sentu_install.py:84-168 | the step-by-step run of `main` issues exactly the subprocesses of `Plan`, in the same order, with the same outcome |
| Installer.Mutations | sentu_install.py:62-81 | the commands of a trace issued through `run_command`, which may change the host, in issue order (never more than the trace's steps) |
| Installer.MutationsAppend | sentu_install.py:62-81 | the `run_command` steps of a concatenation are those of each part, in order |
| Installer.ProbesMutateNothing | sentu_install.py:44-59 | a trace of `which` probes alone holds no `run_command` step |
| Installer.CurlMissing | sentu_install.py:86-88 | without curl the run exits with status 1 after the curl probe and nothing else |
| Installer.CheckoutPresent | sentu_install.py:90-95 | an existing path `~/dotfiles` (a directory, a file or any other entry) ends the run with status 0 after the curl probe alone, regardless of the OS name |
| Installer.GitPresent | sentu_install.py:99-162 | on Linux, Darwin or Windows with git present, only the curl and git probes run, nothing is changed, and `main` returns |
| Installer.LinuxInstall | sentu_install.py:72-134 | on Linux without git, the first present manager's update command is issued if it can start, then its install command if the update returned 0 and it can start, and nothing else; the run finishes exactly when both return 0, ends uncaught when one of them cannot start, and exits with status 1 otherwise |
| Installer.UpdateFailureStops | sentu_install.py:72-134 | an update that fails or cannot start ends the run with status 1 (uncaught in the second case), and the install command is never issued |
| Installer.CannotInstall | sentu_install.py:135-168 | Linux with no known manager, Darwin or Windows without git, and an unrecognised OS each exit with status 1 having issued no `run_command` step |
| Installer.ExitStatusIff | sentu_install.py:84-168 | the process status is 0 or 1, and it is 0 exactly when curl is present and either the path `~/dotfiles` exists, git is present on a recognised OS, or on Linux the chosen manager's update and install commands both return 0 |
| Installer.OneManagerUnderSudo | sentu_install.py:105-134 | every command issued through `run_command` runs under `sudo` and is the update or install command of the one chosen manager, so no second manager is tried |

## Left out

- Process execution (`subprocess.run`, `which`) is left out. Probe answers are the `Host` input, and what each issued command does comes from the `Runner` oracle. That oracle gives each argument list one fixed answer, which is enough here because no command is issued twice. The oracle is independent of `Host.onPath`: the model does not tie "`sudo` cannot be started" to "`which sudo` fails", and `main` never probes `sudo`.
- The exception that escapes `main` when a command cannot be started is the outcome `Uncaught` (status 1). Which `OSError` it is and the traceback are left out.
- `Installer.CheckCommand` is membership of the command in `Host.onPath`. It has no contract of its own; the lemmas about `Plan` state what its answers lead to.
- The `FileNotFoundError` path of `check_command` (no `which` binary) is covered only in that the command then does not resolve. The probe step `Which(c)` is recorded in the trace anyway, although no subprocess started.
- `sys.exit` as real process termination is modelled as the outcome `Exited(n)`.
- Other exceptions are not modelled. Examples are a `print` in `show` (line 33) that cannot encode the logo's characters, which ends the run with status 1 before any probe, and command output that `text=True` (lines 54 and 72) cannot decode after the command has run.
- `platform.system()`, `os.path.expanduser` and `os.path.exists` are environment queries. They are inputs (`Host.osName`, `Host.dotfilesExists`) and do not appear in the trace. `Host.dotfilesExists` is the answer of `os.path.exists`: true for any entry at `~/dotfiles`, false for a broken symbolic link.
- Printing is left out: `info`, `error`, the stdout/stderr echo in `run_command`, ANSI colour codes, and the logo art in `show`. Only the widths and contents of the two centred lines are modelled.
- `PyStr.Replace` and `PyStr.Split` require a non-empty pattern. The only pattern the script passes is `".git"` or `"/"`, so Python's behaviour for an empty pattern is not modelled.
- `PyStr.Center` always pads with a space. `show` never passes another fill character.
- The repository's CI badge generator, `.github/scripts/generate_badges.py`, is not part of this model.
