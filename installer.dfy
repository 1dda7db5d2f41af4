/**
 * The dotfiles bootstrap installer: the repository name derived from its URL,
 * the centred banner, the exit policy of `run_command`, and the `main`
 * procedure that checks for curl and for the path `~/dotfiles`, detects the OS and,
 * on Linux, installs git through the first package manager it finds.
 *
 * The host is an input: which commands `which` resolves, whether the path
 * `~/dotfiles` exists and what `platform.system()` answers. Every subprocess the
 * run starts is recorded, in order, in a trace; what happens to each of the
 * commands `run_command` issues (its return code, or that it cannot be
 * started) comes from an oracle.
 */
module Installer {
  import opened PyStr

  datatype Option<T> = None | Some(value: T)

  // ---------------------------------------------------------------------------
  // REPO_NAME = REPO_URL.split("/")[-1].replace(".git", "")

  const RepoUrl: string := "URL_DEL_REPOSITORIO_GIT"

  /** The text after the last `/` (the whole string when it has none); see `LastSegmentIsTail`. */
  function LastSegment(url: string): (seg: string)
    ensures |seg| <= |url| && seg == url[|url| - |seg|..]
  {
    var parts := Split(url, "/");
    JoinSplit(url, "/");
    if |parts| >= 2 then
      JoinSnoc(parts, "/");
      Last(parts)
    else
      Last(parts)
  }

  function RepoName(url: string): (name: string)
    ensures '/' !in name
    ensures |name| <= |url|
  {
    LastSegmentIsTail(url);
    ReplaceAvoidsChar(LastSegment(url), ".git", "", '/');
    Replace(LastSegment(url), ".git", "")
  }

  /**
   * The last segment is the longest tail of the URL without a `/`: it is a
   * suffix, it holds no `/`, and it is the whole URL or follows a `/`.
   */
  lemma LastSegmentIsTail(url: string)
    ensures var seg := LastSegment(url);
      && |seg| <= |url|
      && url[|url| - |seg|..] == seg
      && '/' !in seg
      && (|seg| == |url| || url[|url| - |seg| - 1] == '/')
  {
    var parts := Split(url, "/");
    var seg := Last(parts);
    JoinSplit(url, "/");
    SplitPartsAvoidSep(url, "/");
    assert !OccursAt(parts[|parts| - 1], "/", 0);
    forall i | 0 <= i < |seg| ensures seg[i] != '/' {
      assert !OccursAt(parts[|parts| - 1], "/", i);
      assert seg[i..i + 1] == [seg[i]];
    }
    if |parts| >= 2 {
      JoinSnoc(parts, "/");
    }
  }

  /** The segment after the last `/` of `prefix + "/" + tail` is `tail`. */
  lemma LastSegmentAfterSlash(prefix: string, tail: string)
    requires '/' !in tail
    ensures LastSegment(prefix + "/" + tail) == tail
  {
    var url := prefix + "/" + tail;
    var seg := LastSegment(url);
    LastSegmentIsTail(url);
    // The '/' just before `tail` cannot lie inside `seg`.
    assert url[|url| - |tail| - 1] == '/';
    assert forall j :: |url| - |seg| <= j < |url| ==> url[j] == seg[j - (|url| - |seg|)];
    assert |seg| <= |tail|;
    // The '/' just before `seg` cannot lie inside `tail`.
    assert forall j :: |url| - |tail| <= j < |url| ==> url[j] == tail[j - (|url| - |tail|)];
    assert |seg| >= |tail|;
  }

  /** A URL without any `/` is its own last segment. */
  lemma LastSegmentOfPlainUrl(url: string)
    requires '/' !in url
    ensures LastSegment(url) == url
  {
    FirstCharAbsent(url, "/");
    SplitWithoutSep(url, "/");
  }

  /** For a URL of the form `prefix/tail`, the name is `tail` with `.git` removed. */
  lemma RepoNameOfPath(prefix: string, tail: string)
    requires '/' !in tail
    ensures RepoName(prefix + "/" + tail) == Replace(tail, ".git", "")
  {
    LastSegmentAfterSlash(prefix, tail);
  }

  /** A URL with no `/` and no `.git` is its own repository name. */
  lemma RepoNameOfPlainUrl(url: string)
    requires '/' !in url && !Occurs(url, ".git")
    ensures RepoName(url) == url
  {
    LastSegmentOfPlainUrl(url);
    ReplaceWithoutOccurrence(url, ".git", "");
  }

  /** The placeholder URL of the source is its own repository name. */
  lemma PlaceholderRepoName()
    ensures RepoName(RepoUrl) == RepoUrl
  {
    assert '.' !in RepoUrl;
    FirstCharAbsent(RepoUrl, ".git");
    RepoNameOfPlainUrl(RepoUrl);
  }

  /** Any URL ending in `/dotfiles.git` (a hosted clone URL) names the repository `dotfiles`. */
  lemma HostedRepoName(prefix: string)
    ensures RepoName(prefix + "/dotfiles.git") == "dotfiles"
  {
    var tail := "dotfiles.git";
    assert prefix + "/dotfiles.git" == prefix + "/" + tail;
    RepoNameOfPath(prefix, tail);
    assert tail == "dotfiles" + ".git" + "";
    ReplaceAfterCleanPrefix("dotfiles", ".git", "", "");
    assert Replace("", ".git", "") == "";
  }

  /** A single pass of `replace` can leave a `.git` behind: the scan does not look back. */
  lemma RepoNameMayKeepSuffix(prefix: string)
    ensures RepoName(prefix + "/..gitgit") == ".git"
    ensures Occurs(RepoName(prefix + "/..gitgit"), ".git")
  {
    var tail := "..gitgit";
    assert prefix + "/..gitgit" == prefix + "/" + tail;
    RepoNameOfPath(prefix, tail);
    assert tail[..4] != ".git" && tail[1..] == "" + ".git" + "git";
    ReplaceAfterCleanPrefix("", ".git", "git", "");
    assert Replace(tail, ".git", "") == "." + Replace(tail[1..], ".git", "");
    assert OccursAt(".git", ".git", 0);
  }

  // ---------------------------------------------------------------------------
  // show(message): both banner lines centred on the longer of the two

  const Header: string := "Ingeniería de Datos & Data Science"
  const DefaultMessage: string := "con Python 🐍"
  const InstallMessage: string := "💾 Instalación de dotfiles"

  /** The header line and the message line of the banner, as `show` centres them. */
  function Banner(message: string): (lines: (string, string))
    ensures |lines.0| == Max(|Header|, |message|) && |lines.1| == Max(|Header|, |message|)
    ensures Occurs(lines.0, Header) && Occurs(lines.1, message)
  {
    var width := Max(|Header|, |message|);
    var header, text := Center(Header, width), Center(message, width);
    assert OccursAt(header, Header, CenterOffset(|Header|, width));
    assert OccursAt(text, message, CenterOffset(|message|, width));
    (header, text)
  }

  /** The banner `main` shows: the header is the wider line, so only the message is padded. */
  lemma InstallBanner()
    ensures Banner(InstallMessage) == (Header, "    " + InstallMessage + "     ")
  {
    assert |Header| == 34 && |InstallMessage| == 25;
    assert CenterOffset(25, 34) == 4;
    assert Spaces(4) == "    " && Spaces(5) == "     ";
  }

  /** The default message is shorter than the header by an even margin: eleven spaces each side. */
  lemma DefaultBanner()
    ensures Banner(DefaultMessage) == (Header, Spaces(11) + DefaultMessage + Spaces(11))
  {
    // |Header| == 34 and |DefaultMessage| == 12, so the margin is 22.
  }

  // ---------------------------------------------------------------------------
  // Subprocesses, exit codes and run_command

  /** A subprocess the run starts: a `which` probe, or a command given to `run_command`. */
  datatype Step = Which(command: string) | Exec(argv: seq<string>)

  /**
   * How the run ends: `sys.exit(status)`; an exception that nothing catches
   * (Python prints a traceback and exits with status 1); or `main` returning
   * (process status 0).
   */
  datatype Outcome = Exited(status: int) | Uncaught | Finished

  /** The process status the run reports. */
  function ExitStatus(outcome: Outcome): (status: int)
    ensures outcome.Exited? ==> status == outcome.status
    ensures outcome == Uncaught ==> status == 1
    ensures outcome == Finished ==> status == 0
  {
    match outcome
    case Exited(status) => status
    case Uncaught => 1
    case Finished => 0
  }

  /** What the probes of the host answer. */
  datatype Host = Host(onPath: set<string>, dotfilesExists: bool, osName: string)

  /**
   * What `subprocess.run` gets when it starts a command: the return code, or
   * the `OSError` (such as `FileNotFoundError`) it raises when the program
   * cannot be started at all.
   */
  datatype Launch = Ran(returnCode: int) | CannotStart

  /** What each command gives when `run_command` starts it. */
  type Runner = seq<string> -> Launch

  /** `check_command`: whether `which` resolves the command. */
  predicate CheckCommand(host: Host, command: string)
  {
    command in host.onPath
  }

  /**
   * What `run_command` does: hand back the return code, exit with status 1, or
   * let the exception of a command that could not be started escape (it has no
   * `try`).
   */
  datatype CommandResult = Completed(returnCode: int) | Terminated(status: int) | Raised

  function RunCommand(argv: seq<string>, check: bool, runner: Runner): (r: CommandResult)
    ensures r.Raised? <==> runner(argv) == CannotStart
    ensures r.Terminated? <==> runner(argv).Ran? && check && runner(argv).returnCode != 0
    ensures r.Terminated? ==> r.status == 1
    ensures r.Completed? ==> runner(argv) == Ran(r.returnCode)
  {
    match runner(argv)
    case CannotStart => Raised
    case Ran(returnCode) => if check && returnCode != 0 then Terminated(1) else Completed(returnCode)
  }

  // ---------------------------------------------------------------------------
  // Operating systems and package managers

  datatype OsFamily = Linux | Darwin | Windows | Unrecognised

  /** The branch of `match os_name` that a `platform.system()` answer takes. */
  function Classify(osName: string): (family: OsFamily)
    ensures family == Linux <==> osName == "Linux"
    ensures family == Darwin <==> osName == "Darwin"
    ensures family == Windows <==> osName == "Windows"
  {
    match osName
    case "Linux" => Linux
    case "Darwin" => Darwin
    case "Windows" => Windows
    case _ => Unrecognised
  }

  datatype Manager = AptGet | Dnf | Pacman | Yum

  /** The probe `check_command` runs for each manager, at the manager's position in the tuple. */
  function Binary(m: Manager): (b: string)
    ensures ManagerProbes[Rank(m)] == Which(b)
  {
    match m
    case AptGet => "apt-get"
    case Dnf => "dnf"
    case Pacman => "pacman"
    case Yum => "yum"
  }

  function UpdateCommand(m: Manager): (argv: seq<string>)
    ensures |argv| > 2 && argv[0] == "sudo" && argv[1] == Binary(m)
  {
    match m
    case AptGet => ["sudo", "apt-get", "update"]
    case Dnf => ["sudo", "dnf", "update", "-y"]
    case Pacman => ["sudo", "pacman", "-Syy", "--noconfirm"]
    case Yum => ["sudo", "yum", "update", "-y"]
  }

  function InstallGitCommand(m: Manager): (argv: seq<string>)
    ensures |argv| > 2 && argv[0] == "sudo" && argv[1] == Binary(m) && Last(argv) == "git"
    ensures argv != UpdateCommand(m)
  {
    match m
    case AptGet => ["sudo", "apt-get", "install", "-y", "git"]
    case Dnf => ["sudo", "dnf", "install", "-y", "git"]
    case Pacman => ["sudo", "pacman", "-S", "--noconfirm", "git"]
    case Yum => ["sudo", "yum", "install", "-y", "git"]
  }

  /** The managers in the order the tuple match tries them. */
  const Priority: seq<Manager> := [AptGet, Dnf, Pacman, Yum]

  function Rank(m: Manager): (k: nat)
    ensures k < |Priority| && Priority[k] == m
  {
    match m
    case AptGet => 0
    case Dnf => 1
    case Pacman => 2
    case Yum => 3
  }

  /** The tuple match over the four probe results: the first `True` wins. */
  function MatchManager(aptGet: bool, dnf: bool, pacman: bool, yum: bool): (choice: Option<Manager>)
    ensures choice == None <==> !aptGet && !dnf && !pacman && !yum
    ensures choice == Some(AptGet) <==> aptGet
    ensures choice == Some(Dnf) <==> !aptGet && dnf
    ensures choice == Some(Pacman) <==> !aptGet && !dnf && pacman
    ensures choice == Some(Yum) <==> !aptGet && !dnf && !pacman && yum
  {
    match (aptGet, dnf, pacman, yum)
    case (true, _, _, _) => Some(AptGet)
    case (_, true, _, _) => Some(Dnf)
    case (_, _, true, _) => Some(Pacman)
    case (_, _, _, true) => Some(Yum)
    case _ => None
  }

  /** The index of the first manager in `ms` whose binary is on the path (`|ms|` if none). */
  function FirstPresent(ms: seq<Manager>, onPath: set<string>): (k: nat)
    ensures k <= |ms|
    ensures forall j :: 0 <= j < k ==> Binary(ms[j]) !in onPath
    ensures k < |ms| ==> Binary(ms[k]) in onPath
  {
    if ms == [] then 0
    else if Binary(ms[0]) in onPath then 0
    else 1 + FirstPresent(ms[1..], onPath)
  }

  /** The manager chosen as a priority list evaluated in order. */
  function Select(onPath: set<string>): (choice: Option<Manager>)
  {
    var k := FirstPresent(Priority, onPath);
    if k < |Priority| then Some(Priority[k]) else None
  }

  /** The tuple match of the source chooses what the priority list chooses. */
  lemma MatchIsSelect(host: Host)
    ensures MatchManager(CheckCommand(host, "apt-get"), CheckCommand(host, "dnf"),
                         CheckCommand(host, "pacman"), CheckCommand(host, "yum"))
            == Select(host.onPath)
  {
    var p := host.onPath;
    assert Priority[1..] == [Dnf, Pacman, Yum];
    assert Priority[1..][1..] == [Pacman, Yum];
    assert Priority[1..][1..][1..] == [Yum];
    assert Priority[1..][1..][1..][1..] == [];
    var k3 := FirstPresent([Yum], p);
    var k2 := FirstPresent([Pacman, Yum], p);
    var k1 := FirstPresent([Dnf, Pacman, Yum], p);
    assert k3 == if "yum" in p then 0 else 1;
    assert k2 == if "pacman" in p then 0 else 1 + k3;
    assert k1 == if "dnf" in p then 0 else 1 + k2;
  }

  /** A manager is selected exactly when its binary is present and no higher-priority one is. */
  lemma SelectIsFirstPresent(onPath: set<string>, m: Manager)
    ensures Select(onPath) == Some(m) <==>
              Binary(m) in onPath && forall m' :: Rank(m') < Rank(m) ==> Binary(m') !in onPath
  {
    var k := FirstPresent(Priority, onPath);
    if Select(onPath) == Some(m) {
      forall m' | Rank(m') < Rank(m) ensures Binary(m') !in onPath {
        assert Priority[Rank(m')] == m';
      }
    }
    if Binary(m) in onPath && forall m' :: Rank(m') < Rank(m) ==> Binary(m') !in onPath {
      assert Binary(Priority[Rank(m)]) in onPath;
      assert forall j :: 0 <= j < |Priority| ==> Rank(Priority[j]) == j;
    }
  }

  /** No manager is selected exactly when none of the four binaries is present. */
  lemma SelectNone(onPath: set<string>)
    ensures Select(onPath) == None <==> forall m :: Binary(m) !in onPath
  {
    if Select(onPath) == None {
      forall m ensures Binary(m) !in onPath {
        assert Priority[Rank(m)] == m;
      }
    } else {
      assert Binary(Select(onPath).value) in onPath;
    }
  }

  /** Once a manager is found, the probes of the lower-priority managers do not matter. */
  lemma SelectIgnoresLowerProbes(p: set<string>, q: set<string>, m: Manager)
    requires Select(p) == Some(m)
    requires forall m' :: Rank(m') <= Rank(m) ==> (Binary(m') in p <==> Binary(m') in q)
    ensures Select(q) == Some(m)
  {
    SelectIsFirstPresent(p, m);
    SelectIsFirstPresent(q, m);
  }

  // ---------------------------------------------------------------------------
  // main, as a decision table over the host

  datatype Run = Run(trace: seq<Step>, outcome: Outcome)

  /** The four probes the tuple match evaluates, all of them, in this order. */
  const ManagerProbes: seq<Step> := [Which("apt-get"), Which("dnf"), Which("pacman"), Which("yum")]

  /**
   * Update, then install git, each under `run_command`'s policy: a command
   * that cannot be started leaves no trace and ends the run uncaught; one that
   * fails ends it with status 1.
   */
  function InstallGit(m: Manager, runner: Runner): (r: Run)
    ensures r.outcome == Finished <==>
              runner(UpdateCommand(m)) == Ran(0) && runner(InstallGitCommand(m)) == Ran(0)
    ensures |r.trace| <= 2 && r.trace == [Exec(UpdateCommand(m)), Exec(InstallGitCommand(m))][..|r.trace|]
    ensures Exec(InstallGitCommand(m)) in r.trace ==> runner(UpdateCommand(m)) == Ran(0)
    ensures ExitStatus(r.outcome) in {0, 1}
  {
    var update, install := UpdateCommand(m), InstallGitCommand(m);
    match runner(update)
    case CannotStart => Run([], Uncaught)
    case Ran(code) =>
      if code != 0 then Run([Exec(update)], Exited(1))
      else
        match runner(install)
        case CannotStart => Run([Exec(update)], Uncaught)
        case Ran(code') =>
          if code' != 0 then Run([Exec(update), Exec(install)], Exited(1))
          else Run([Exec(update), Exec(install)], Finished)
  }

  /** What a run of `main` does on a host: the subprocesses it starts and how it ends. */
  function Plan(host: Host, runner: Runner): (r: Run)
    ensures |r.trace| >= 1 && r.trace[0] == Which("curl")
    ensures ExitStatus(r.outcome) in {0, 1}
  {
    var curl := [Which("curl")];
    var git := curl + [Which("git")];
    var family := Classify(host.osName);
    if "curl" !in host.onPath then Run(curl, Exited(1))
    else if host.dotfilesExists then Run(curl, Exited(0))
    else if family == Unrecognised then Run(curl, Exited(1))
    else if "git" in host.onPath then Run(git, Finished)
    else if family != Linux then Run(git, Exited(1))
    else
      match Select(host.onPath)
      case None => Run(git + ManagerProbes, Exited(1))
      case Some(m) =>
        var install := InstallGit(m, runner);
        Run(git + ManagerProbes + install.trace, install.outcome)
  }

  /** `main`, step by step: each subprocess is appended to the trace once it has started. */
  method Bootstrap(host: Host, runner: Runner) returns (trace: seq<Step>, outcome: Outcome)
    ensures Run(trace, outcome) == Plan(host, runner)
  {
    // show(InstallMessage) only prints.
    trace := [Which("curl")];
    if !CheckCommand(host, "curl") {
      return trace, Exited(1);
    }
    if host.dotfilesExists {
      return trace, Exited(0);
    }
    match Classify(host.osName) {
    case Linux =>
      trace := trace + [Which("git")];
      if !CheckCommand(host, "git") {
        trace := trace + ManagerProbes;
        MatchIsSelect(host);
        var choice := MatchManager(CheckCommand(host, "apt-get"), CheckCommand(host, "dnf"),
                                   CheckCommand(host, "pacman"), CheckCommand(host, "yum"));
        match choice
        case None =>
          return trace, Exited(1);
        case Some(m) =>
          var update := RunCommand(UpdateCommand(m), true, runner);
          if update.Raised? {
            return trace, Uncaught;
          }
          trace := trace + [Exec(UpdateCommand(m))];
          if update.Terminated? {
            return trace, Exited(update.status);
          }
          var install := RunCommand(InstallGitCommand(m), true, runner);
          if install.Raised? {
            return trace, Uncaught;
          }
          trace := trace + [Exec(InstallGitCommand(m))];
          if install.Terminated? {
            return trace, Exited(install.status);
          }
      }
    case Darwin =>
      trace := trace + [Which("git")];
      if !CheckCommand(host, "git") {
        return trace, Exited(1);
      }
    case Windows =>
      trace := trace + [Which("git")];
      if !CheckCommand(host, "git") {
        return trace, Exited(1);
      }
    case Unrecognised =>
      return trace, Exited(1);
    }
    outcome := Finished;
  }

  // ---------------------------------------------------------------------------
  // Properties of a run

  /**
   * The commands of a trace issued through `run_command`, which may change the
   * host, in the order they were issued (a command that ran and failed is included).
   */
  function Mutations(trace: seq<Step>): (cmds: seq<seq<string>>)
    ensures |cmds| <= |trace|
  {
    if trace == [] then []
    else match trace[0]
      case Which(_) => Mutations(trace[1..])
      case Exec(argv) => [argv] + Mutations(trace[1..])
  }

  lemma {:induction false} MutationsAppend(a: seq<Step>, b: seq<Step>)
    ensures Mutations(a + b) == Mutations(a) + Mutations(b)
    decreases |a|
  {
    if a != [] {
      MutationsAppend(a[1..], b);
      var ab := a + b;
      assert ab != [] && ab[0] == a[0] && ab[1..] == a[1..] + b;
      match a[0]
      case Which(_) =>
        assert Mutations(ab) == Mutations(a[1..] + b);
      case Exec(argv) =>
        assert Mutations(ab) == [argv] + Mutations(a[1..] + b);
    } else {
      assert a + b == b;
    }
  }

  /** A trace of probes alone issues nothing through `run_command`. */
  lemma {:induction false} ProbesMutateNothing(trace: seq<Step>)
    requires forall i :: 0 <= i < |trace| ==> trace[i].Which?
    ensures Mutations(trace) == []
    decreases |trace|
  {
    if trace != [] {
      ProbesMutateNothing(trace[1..]);
    }
  }

  /** Without curl the run exits with status 1 after that one probe. */
  lemma CurlMissing(host: Host, runner: Runner)
    requires !CheckCommand(host, "curl")
    ensures Plan(host, runner) == Run([Which("curl")], Exited(1))
  {
  }

  /** An existing path `~/dotfiles` ends the run with status 0, whatever the OS, before anything is installed. */
  lemma CheckoutPresent(host: Host, runner: Runner, osName: string)
    requires CheckCommand(host, "curl") && host.dotfilesExists
    ensures Plan(host, runner) == Run([Which("curl")], Exited(0))
    ensures Plan(host.(osName := osName), runner) == Plan(host, runner)
  {
  }

  /** On Linux, Darwin or Windows with git already present, nothing is changed and `main` returns. */
  lemma GitPresent(host: Host, runner: Runner)
    requires CheckCommand(host, "curl") && !host.dotfilesExists
    requires Classify(host.osName) != Unrecognised && CheckCommand(host, "git")
    ensures Plan(host, runner) == Run([Which("curl"), Which("git")], Finished)
    ensures Mutations(Plan(host, runner).trace) == []
  {
    ProbesMutateNothing([Which("curl"), Which("git")]);
  }

  /**
   * On Linux without git, the first manager present in priority order is used:
   * its update command is issued, then, if that succeeded, its install command,
   * and nothing else; the run fails exactly when one of them fails.
   */
  lemma LinuxInstall(host: Host, runner: Runner, m: Manager)
    requires CheckCommand(host, "curl") && !host.dotfilesExists
    requires host.osName == "Linux" && !CheckCommand(host, "git")
    requires Binary(m) in host.onPath
    requires forall m' :: Rank(m') < Rank(m) ==> Binary(m') !in host.onPath
    ensures Mutations(Plan(host, runner).trace) ==
              if runner(UpdateCommand(m)) == CannotStart then []
              else if runner(UpdateCommand(m)) != Ran(0) || runner(InstallGitCommand(m)) == CannotStart then
                [UpdateCommand(m)]
              else [UpdateCommand(m), InstallGitCommand(m)]
    ensures Plan(host, runner).outcome ==
              if runner(UpdateCommand(m)) == Ran(0) && runner(InstallGitCommand(m)) == Ran(0) then Finished
              else if || runner(UpdateCommand(m)) == CannotStart
                      || (runner(UpdateCommand(m)) == Ran(0) && runner(InstallGitCommand(m)) == CannotStart) then
                Uncaught
              else Exited(1)
  {
    SelectIsFirstPresent(host.onPath, m);
    var install := InstallGit(m, runner);
    var probes := [Which("curl"), Which("git")] + ManagerProbes;
    ProbesMutateNothing(probes);
    MutationsAppend(probes, install.trace);
    assert Plan(host, runner).trace == probes + install.trace;
    var update, installGit := Exec(UpdateCommand(m)), Exec(InstallGitCommand(m));
    MutationsAppend([update], [installGit]);
    assert [update] + [installGit] == [update, installGit];
  }

  /** An update that fails or cannot start ends the run with status 1 before the install command is issued. */
  lemma UpdateFailureStops(host: Host, runner: Runner, m: Manager)
    requires CheckCommand(host, "curl") && !host.dotfilesExists
    requires host.osName == "Linux" && !CheckCommand(host, "git")
    requires Select(host.onPath) == Some(m) && runner(UpdateCommand(m)) != Ran(0)
    ensures ExitStatus(Plan(host, runner).outcome) == 1
    ensures Plan(host, runner).outcome ==
              if runner(UpdateCommand(m)) == CannotStart then Uncaught else Exited(1)
    ensures InstallGitCommand(m) !in Mutations(Plan(host, runner).trace)
    ensures Exec(InstallGitCommand(m)) !in Plan(host, runner).trace
  {
    SelectIsFirstPresent(host.onPath, m);
    LinuxInstall(host, runner, m);
  }

  /**
   * Every path on which git cannot be installed ends with status 1 and issues
   * no command that changes the host: Linux with none of the four managers,
   * Darwin or Windows without git, and an unrecognised OS.
   */
  lemma CannotInstall(host: Host, runner: Runner)
    requires CheckCommand(host, "curl") && !host.dotfilesExists
    requires
      || Classify(host.osName) == Unrecognised
      || (host.osName in {"Darwin", "Windows"} && !CheckCommand(host, "git"))
      || (host.osName == "Linux" && !CheckCommand(host, "git") && forall m :: Binary(m) !in host.onPath)
    ensures Plan(host, runner).outcome == Exited(1)
    ensures Mutations(Plan(host, runner).trace) == []
  {
    SelectNone(host.onPath);
    ProbesMutateNothing([Which("curl")]);
    ProbesMutateNothing([Which("curl"), Which("git")]);
    ProbesMutateNothing([Which("curl"), Which("git")] + ManagerProbes);
  }

  /**
   * Whether the run ends with status 0: curl is present, and either the
   * path `~/dotfiles` exists, git is present on a recognised OS, or on Linux the chosen
   * manager's update and install commands both return 0.
   */
  predicate Succeeds(host: Host, runner: Runner)
  {
    && CheckCommand(host, "curl")
    && (|| host.dotfilesExists
        || (&& Classify(host.osName) != Unrecognised
            && (|| CheckCommand(host, "git")
                || (&& host.osName == "Linux"
                    && exists m :: && Select(host.onPath) == Some(m)
                                   && runner(UpdateCommand(m)) == Ran(0)
                                   && runner(InstallGitCommand(m)) == Ran(0)))))
  }

  /** The process status is 0 or 1, and it is 0 exactly when the run succeeds. */
  lemma ExitStatusIff(host: Host, runner: Runner)
    ensures ExitStatus(Plan(host, runner).outcome) in {0, 1}
    ensures ExitStatus(Plan(host, runner).outcome) == 0 <==> Succeeds(host, runner)
  {
  }

  /** Every command that changes the host runs under sudo and belongs to a single manager. */
  lemma OneManagerUnderSudo(host: Host, runner: Runner)
    ensures forall argv :: argv in Mutations(Plan(host, runner).trace) ==>
              |argv| > 1 && argv[0] == "sudo"
              && exists m :: Select(host.onPath) == Some(m) && argv in {UpdateCommand(m), InstallGitCommand(m)}
  {
    if CheckCommand(host, "curl") && !host.dotfilesExists && host.osName == "Linux" && !CheckCommand(host, "git") {
      match Select(host.onPath)
      case None =>
        SelectNone(host.onPath);
        CannotInstall(host, runner);
      case Some(m) =>
        SelectIsFirstPresent(host.onPath, m);
        LinuxInstall(host, runner, m);
    } else if CheckCommand(host, "curl") && !host.dotfilesExists && Classify(host.osName) != Unrecognised {
      if CheckCommand(host, "git") {
        GitPresent(host, runner);
      } else {
        CannotInstall(host, runner);
      }
    } else {
      ProbesMutateNothing([Which("curl")]);
    }
  }
}
