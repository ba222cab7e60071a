/** autopyenv, the older revision: find the Python environment that belongs
    to a directory and print the activator that moves the session to it.

    Unlike pyautoenv 0.1.0 it records the project directory for both kinds
    of environment, detects Poetry from `poetry.lock` alone, asks
    `poetry -C {dir} env info --path` for the environment only when deciding,
    does nothing for a Poetry project when `poetry` is not on `PATH`, and
    prints bare activator paths as lines. The filesystem, `VIRTUAL_ENV`,
    the `shutil.which("poetry")` answer and the output of the `poetry` query
    for each directory are inputs. */
module AutoPyEnv {
  import opened Paths
  import opened Text
  import opened Host
  import opened Walk

  datatype EnvType = Venv | Poetry

  /** An environment found for a directory: `directory` is the project
      directory whichever the kind. */
  datatype Env = Env(directory: Path, envType: EnvType)

  // ---------------------------------------------------------------------
  // Detection in one directory

  /** `venv_path`: `directory / ".venv" / "bin" / "activate"`. */
  function VenvPath(directory: Path): (r: Path)
    ensures r.absolute == directory.absolute
    ensures r.parts == directory.parts + [".venv", "bin", "activate"]
    ensures WellFormed(directory) ==> WellFormed(r)
  {
    Join(Join(Join(directory, ".venv"), "bin"), "activate")
  }

  /** `check_venv`: the venv activator script is a regular file. */
  predicate CheckVenv(fs: FileSystem, directory: Path) {
    IsFile(fs, VenvPath(directory))
  }

  /** `check_poetry`: `poetry.lock` is a regular file. */
  predicate CheckPoetry(fs: FileSystem, directory: Path) {
    IsFile(fs, Join(directory, "poetry.lock"))
  }

  /** `check_env`: the kind of environment in the directory, venv first. */
  function CheckEnv(fs: FileSystem, directory: Path): Option<EnvType> {
    if CheckVenv(fs, directory) then Some(Venv)
    else if CheckPoetry(fs, directory) then Some(Poetry)
    else None
  }

  /** Within one directory the venv marker is tested first, and Poetry is
      detected from `poetry.lock` alone: `check_env` depends on nothing but
      the two files, never on the `poetry` tool. */
  lemma CheckEnvPrecedence(fs: FileSystem, directory: Path)
    ensures CheckEnv(fs, directory) == Some(Venv) <==> CheckVenv(fs, directory)
    ensures CheckEnv(fs, directory) == Some(Poetry) <==> !CheckVenv(fs, directory) && CheckPoetry(fs, directory)
    ensures CheckEnv(fs, directory) == None <==> !CheckVenv(fs, directory) && !CheckPoetry(fs, directory)
  {
  }

  /** What the walk records for a directory where `check_env` succeeds:
      the directory and its kind. */
  function Found(fs: FileSystem, directory: Path): Option<Env> {
    match CheckEnv(fs, directory)
    case None => None
    case Some(kind) => Some(Env(directory, kind))
  }

  /** `Found` as the test the upward walk applies to each directory. */
  function EnvAt(fs: FileSystem): Path -> Option<Env> {
    (directory: Path) => Found(fs, directory)
  }

  // ---------------------------------------------------------------------
  // The upward walk

  /** `discover_env` as a value. */
  function Discover(fs: FileSystem, directory: Path): Option<Env> {
    Search(EnvAt(fs), None, directory)
  }

  /** `discover_env`: test the directory, then its parent, and so on, and
      stop at the first directory that is its own parent. */
  method DiscoverEnv(fs: FileSystem, start: Path) returns (r: Option<Env>)
    ensures r == Discover(fs, start)
  {
    var directory := start;
    while directory != Parent(directory)
      invariant Discover(fs, start) == Discover(fs, directory)
      decreases |directory.parts|
    {
      var envType := CheckEnv(fs, directory);
      if envType.Some? {
        assert Found(fs, directory) == Some(Env(directory, envType.value));
        return Some(Env(directory, envType.value));
      }
      directory := Parent(directory);
    }
    return None;
  }

  /** The walk returns the innermost directory on the parent chain, `k`
      levels up, where `check_env` succeeds, together with its kind. */
  lemma DiscoverInnermost(fs: FileSystem, start: Path, k: nat)
    requires k < |start.parts| && CheckEnv(fs, Up(start, k)).Some?
    requires forall j :: 0 <= j < k ==> CheckEnv(fs, Up(start, j)) == None
    ensures Discover(fs, start) == Some(Env(Up(start, k), CheckEnv(fs, Up(start, k)).value))
  {
    forall j | 0 <= j < k
      ensures EnvAt(fs)(Up(start, j)) == None
    {
      assert CheckEnv(fs, Up(start, j)) == None;
    }
    SearchNearest(EnvAt(fs), None, start, k);
  }

  /** The walk finds nothing exactly when no directory from the start up to,
      and excluding, the root (or `.`) holds either marker. */
  lemma DiscoverNothing(fs: FileSystem, start: Path)
    ensures Discover(fs, start) == None <==>
            forall j :: 0 <= j < |start.parts| ==> CheckEnv(fs, Up(start, j)) == None
  {
    SearchNothing(EnvAt(fs), None, start);
    assert forall j :: 0 <= j < |start.parts| ==>
             (EnvAt(fs)(Up(start, j)) == None <==> CheckEnv(fs, Up(start, j)) == None);
  }

  /** Whatever the walk finds is a directory on the parent chain where
      `check_env` succeeds with the recorded kind. */
  lemma DiscoverFound(fs: FileSystem, start: Path) returns (k: nat)
    requires Discover(fs, start).Some?
    ensures k < |start.parts| && CheckEnv(fs, Up(start, k)).Some?
    ensures Discover(fs, start) == Some(Env(Up(start, k), CheckEnv(fs, Up(start, k)).value))
    ensures forall j :: 0 <= j < k ==> CheckEnv(fs, Up(start, j)) == None
  {
    k := SearchFound(EnvAt(fs), None, start);
    forall j | 0 <= j < k
      ensures CheckEnv(fs, Up(start, j)) == None
    {
      assert EnvAt(fs)(Up(start, j)) == None;
    }
  }

  // ---------------------------------------------------------------------
  // Activators and the Poetry query

  /** `activate_venv` prints `str(venv_path(directory))`: the project
      directory's text followed by `/.venv/bin/activate` (just
      `.venv/bin/activate` for `.`). */
  lemma VenvActivatorText(directory: Path)
    ensures directory.parts != [] ==> Render(VenvPath(directory)) == Render(directory) + "/.venv/bin/activate"
    ensures directory == Here ==> Render(VenvPath(directory)) == ".venv/bin/activate"
  {
    VenvActivatorAfterVenv(directory);
    if directory.parts != [] {
      VenvActivatorBelow(directory);
    } else if directory == Here {
      RenderJoin(directory, ".venv");
      assert ".venv" + "/bin/activate" == ".venv/bin/activate";
    }
  }

  lemma VenvActivatorBelow(directory: Path)
    requires directory.parts != []
    ensures Render(Join(directory, ".venv")) + "/bin/activate" == Render(directory) + "/.venv/bin/activate"
  {
    RenderJoin(directory, ".venv");
    LiteralSuffix(Render(directory), ".venv", "/bin/activate", "/.venv/bin/activate");
  }

  /** The printed venv activator of a clean directory reads back as the
      activator path. */
  lemma VenvActivatorReadsBack(directory: Path)
    requires WellFormed(directory)
    ensures ParsePath(Render(VenvPath(directory))) == VenvPath(directory)
  {
    ParseRender(VenvPath(directory));
  }

  /** The part of the venv activator after `.venv`. */
  lemma VenvActivatorAfterVenv(directory: Path)
    ensures Render(VenvPath(directory)) == Render(Join(directory, ".venv")) + "/bin/activate"
  {
    var venv := Join(directory, ".venv");
    var bin := Join(venv, "bin");
    RenderJoin(venv, "bin");
    RenderJoin(bin, "activate");
    LiteralSuffix(Render(venv), "bin", "/activate", "/bin/activate");
  }

  /** `head + "/" + name + tail` spelt with the literal `"/" + name + tail`. */
  lemma LiteralSuffix(head: string, name: string, tail: string, whole: string)
    requires whole == "/" + name + tail
    ensures head + "/" + name + tail == head + whole
  {
  }

  /** `poetry_env_path`: the whole output of the subprocess, stripped of
      surrounding whitespace, as a path; `CalledProcessError` gives none and
      a missing executable escapes as an exception. */
  function PoetryEnvPath(run: ProcessResult): (r: Except<Option<Path>>)
    ensures r.Raised? <==> run.ExecutableNotFound?
    ensures r == Ok(None) <==> run.CalledProcessError?
    ensures r.Ok? && r.value.Some? ==> WellFormed(r.value.value)
  {
    match run
    case Completed(stdout) => Ok(Some(ParsePath(Strip(stdout))))
    case CalledProcessError => Ok(None)
    case ExecutableNotFound => Raised
  }

  /** A trimmed path, printed with any surrounding whitespace (such as the
      tool's trailing newline), reads back as that path. */
  lemma PoetryEnvPathOfOutput(env: Path, pre: string, post: string)
    requires WellFormed(env) && Trimmed(Render(env))
    requires AllSpace(pre) && AllSpace(post)
    ensures PoetryEnvPath(Completed(pre + Render(env) + post)) == Ok(Some(env))
  {
    StripPadded(pre, Render(env), post);
    ParseRender(env);
  }

  /** `env_path / "bin" / "activate"` */
  function PoetryActivator(envPath: Path): (r: Path)
    ensures r.absolute == envPath.absolute
    ensures r.parts == envPath.parts + ["bin", "activate"]
    ensures WellFormed(envPath) ==> WellFormed(r)
  {
    Join(Join(envPath, "bin"), "activate")
  }

  /** `activate_poetry`: the activator of the environment `poetry` reports
      for the directory (printed by the caller with `str`). With no path,
      `None / "bin"` raises `TypeError`. */
  function ActivatePoetry(envInfo: Path -> ProcessResult, directory: Path): (r: Except<Path>)
    ensures r.Raised? <==> !envInfo(directory).Completed?
    ensures r.Ok? ==> r.value == PoetryActivator(ParsePath(Strip(envInfo(directory).stdout)))
    ensures r.Ok? ==> WellFormed(r.value)
  {
    match PoetryEnvPath(envInfo(directory))
    case Raised => Raised
    case Ok(None) => Raised
    case Ok(Some(envPath)) => Ok(PoetryActivator(envPath))
  }

  // ---------------------------------------------------------------------
  // The decision

  /** What is printed: nothing, one activator line, `deactivate`, or both
      on one line. */
  datatype Action = NoOp | Activate(activator: Path) | Deactivate | Switch(activator: Path)

  /** The text printed for each transition; activators are printed with
      `str`. */
  function Command(a: Action): string {
    match a
    case NoOp => ""
    case Activate(p) => Render(p) + "\n"
    case Deactivate => "deactivate\n"
    case Switch(p) => "deactivate && " + Render(p) + "\n"
  }

  /** Everything `main` prints for a verdict. */
  function Written(v: Verdict<Action>): string {
    if v.Act? then Command(v.action) else ""
  }

  /** The venv branch: compare `VIRTUAL_ENV` with the project directory. */
  function VenvTransition(fs: FileSystem, active: Option<string>, project: Path): Verdict<Action> {
    match active
    case None => Act(Activate(VenvPath(project)))
    case Some(a) =>
      match SameFile(fs, ParsePath(a), project)
      case Raised => Crashed
      case Ok(same) => if same then Act(NoOp) else Act(Switch(VenvPath(project)))
  }

  /** The Poetry branch: nothing without the tool; otherwise compare
      `VIRTUAL_ENV` with the environment reported for the original target,
      and print the activator of the environment reported for the project. */
  function PoetryTransition(fs: FileSystem, envInfo: Path -> ProcessResult, poetryOnPath: bool,
                            active: Option<string>, target: Path, project: Path): Verdict<Action> {
    if !poetryOnPath then Act(NoOp)
    else match active
      case None => PoetryActivate(envInfo, project)
      case Some(a) => PoetryCompare(fs, envInfo, ParsePath(a), target, project)
  }

  /** No environment active: activate the project's Poetry environment. */
  function PoetryActivate(envInfo: Path -> ProcessResult, project: Path): Verdict<Action> {
    match ActivatePoetry(envInfo, project)
    case Raised => Crashed
    case Ok(activator) => Act(Activate(activator))
  }

  /** An environment active: `samefile` against the path reported for the
      target (`samefile(None)` raises when there is none). */
  function PoetryCompare(fs: FileSystem, envInfo: Path -> ProcessResult, active: Path,
                         target: Path, project: Path): Verdict<Action> {
    match PoetryEnvPath(envInfo(target))
    case Ok(Some(targetEnv)) =>
      (match SameFile(fs, active, targetEnv)
       case Raised => Crashed
       case Ok(same) => if same then Act(NoOp) else PoetrySwitch(envInfo, project))
    case _ => Crashed
  }

  /** Another environment active: deactivate it and activate the project's. */
  function PoetrySwitch(envInfo: Path -> ProcessResult, project: Path): Verdict<Action> {
    match ActivatePoetry(envInfo, project)
    case Raised => Crashed
    case Ok(activator) => Act(Switch(activator))
  }

  /** What `main` decides for the target directory. */
  function Decide(fs: FileSystem, envInfo: Path -> ProcessResult, poetryOnPath: bool,
                  virtualEnv: Option<string>, target: Path): Verdict<Action> {
    if !IsDir(fs, target) then NotADirectory
    else match Discover(fs, target)
      case None => if ActiveEnv(virtualEnv).Some? then Act(Deactivate) else Act(NoOp)
      case Some(env) =>
        if env.envType == Venv then VenvTransition(fs, ActiveEnv(virtualEnv), env.directory)
        else PoetryTransition(fs, envInfo, poetryOnPath, ActiveEnv(virtualEnv), target, env.directory)
  }

  /** `main`: returns 1 when the target is not a directory; otherwise walks
      up from it, prints at most one line and returns 0. */
  method Run(fs: FileSystem, envInfo: Path -> ProcessResult, poetryOnPath: bool,
             virtualEnv: Option<string>, target: Path, stdout: OutputStream) returns (status: Status)
    modifies stdout
    ensures status == StatusOf(Decide(fs, envInfo, poetryOnPath, virtualEnv, target))
    ensures stdout.text == old(stdout.text) + Written(Decide(fs, envInfo, poetryOnPath, virtualEnv, target))
  {
    if !IsDir(fs, target) {
      return Exited(1);
    }
    var env := DiscoverEnv(fs, target);
    if env.Some? {
      if env.value.envType == Venv {
        DecideVenv(fs, envInfo, poetryOnPath, virtualEnv, target, env.value.directory);
        status := PrintVenv(fs, ActiveEnv(virtualEnv), env.value.directory, stdout);
        if status.Uncaught? {
          return;
        }
      }
      if env.value.envType == Poetry {
        DecidePoetry(fs, envInfo, poetryOnPath, virtualEnv, target, env.value.directory);
        status := PrintPoetry(fs, envInfo, poetryOnPath, ActiveEnv(virtualEnv), target, env.value.directory, stdout);
        return;
      }
    } else if ActiveEnv(virtualEnv).Some? {
      assert Decide(fs, envInfo, poetryOnPath, virtualEnv, target) == Act(Deactivate);
      stdout.Print("deactivate");
      PrintedDeactivate(old(stdout.text));
    } else {
      assert Decide(fs, envInfo, poetryOnPath, virtualEnv, target) == Act(NoOp);
    }
    return Exited(0);
  }

  /** The venv branch of `main`. */
  method PrintVenv(fs: FileSystem, activeVenv: Option<string>, project: Path, stdout: OutputStream)
    returns (status: Status)
    modifies stdout
    ensures status == StatusOf(VenvTransition(fs, activeVenv, project))
    ensures stdout.text == old(stdout.text) + Written(VenvTransition(fs, activeVenv, project))
  {
    if activeVenv.Some? {
      var same := SameFile(fs, ParsePath(activeVenv.value), project);
      if same.Raised? {
        return Uncaught;
      }
      if !same.value {
        assert VenvTransition(fs, activeVenv, project) == Act(Switch(VenvPath(project)));
        stdout.Print("deactivate && " + Render(VenvPath(project)));
        PrintedSwitch(old(stdout.text), VenvPath(project));
      } else {
        assert VenvTransition(fs, activeVenv, project) == Act(NoOp);
      }
    } else {
      assert VenvTransition(fs, activeVenv, project) == Act(Activate(VenvPath(project)));
      stdout.Print(Render(VenvPath(project)));
      PrintedActivate(old(stdout.text), VenvPath(project));
    }
    return Exited(0);
  }

  /** The Poetry branch of `main`. */
  method PrintPoetry(fs: FileSystem, envInfo: Path -> ProcessResult, poetryOnPath: bool,
                     activeVenv: Option<string>, target: Path, project: Path, stdout: OutputStream)
    returns (status: Status)
    modifies stdout
    ensures status == StatusOf(PoetryTransition(fs, envInfo, poetryOnPath, activeVenv, target, project))
    ensures stdout.text == old(stdout.text) + Written(PoetryTransition(fs, envInfo, poetryOnPath, activeVenv, target, project))
  {
    if !poetryOnPath {
      return Exited(0);
    }
    if activeVenv.Some? {
      var targetEnv := PoetryEnvPath(envInfo(target));
      if targetEnv.Raised? || targetEnv.value.None? {
        return Uncaught;
      }
      var same := SameFile(fs, ParsePath(activeVenv.value), targetEnv.value.value);
      if same.Raised? {
        return Uncaught;
      }
      if !same.value {
        var line := ActivatePoetry(envInfo, project);
        if line.Raised? {
          return Uncaught;
        }
        assert PoetryTransition(fs, envInfo, poetryOnPath, activeVenv, target, project) == Act(Switch(line.value));
        stdout.Print("deactivate && " + Render(line.value));
        PrintedSwitch(old(stdout.text), line.value);
      } else {
        assert PoetryTransition(fs, envInfo, poetryOnPath, activeVenv, target, project) == Act(NoOp);
      }
    } else {
      var line := ActivatePoetry(envInfo, project);
      if line.Raised? {
        return Uncaught;
      }
      assert PoetryTransition(fs, envInfo, poetryOnPath, activeVenv, target, project) == Act(Activate(line.value));
      stdout.Print(Render(line.value));
      PrintedActivate(old(stdout.text), line.value);
    }
    return Exited(0);
  }

  /** Printing `deactivate && {activator}` as a line prints the switch. */
  lemma PrintedSwitch(before: string, activator: Path)
    ensures before + ("deactivate && " + Render(activator)) + "\n" == before + Command(Switch(activator))
  {
  }

  /** Printing `deactivate` as a line prints the deactivation. */
  lemma PrintedDeactivate(before: string)
    ensures before + "deactivate" + "\n" == before + Command(Deactivate)
  {
    assert "deactivate" + "\n" == "deactivate\n";
  }

  /** Printing the activator as a line prints the activation. */
  lemma PrintedActivate(before: string, activator: Path)
    ensures before + Render(activator) + "\n" == before + Command(Activate(activator))
  {
  }

  // ---------------------------------------------------------------------
  // Properties of the decision

  /** `main` reports a non-directory target, and nothing else, with its
      return value 1 (and prints nothing); on a directory it returns 0
      unless an exception escapes. */
  lemma ReturnValue(fs: FileSystem, envInfo: Path -> ProcessResult, poetryOnPath: bool,
                    virtualEnv: Option<string>, target: Path)
    ensures Decide(fs, envInfo, poetryOnPath, virtualEnv, target) == NotADirectory <==> !IsDir(fs, target)
    ensures !IsDir(fs, target) ==> Written(Decide(fs, envInfo, poetryOnPath, virtualEnv, target)) == ""
    ensures IsDir(fs, target) ==> StatusOf(Decide(fs, envInfo, poetryOnPath, virtualEnv, target)) != Exited(1)
  {
  }

  /** Whatever is printed ends with a newline. */
  lemma WrittenEndsWithNewline(v: Verdict<Action>)
    ensures Written(v) == [] || Written(v)[|Written(v)| - 1] == '\n'
  {
  }

  /** No environment found: `deactivate` exactly when `VIRTUAL_ENV` is set
      and not empty, nothing otherwise. */
  lemma NothingFound(fs: FileSystem, envInfo: Path -> ProcessResult, poetryOnPath: bool,
                     virtualEnv: Option<string>, target: Path)
    requires IsDir(fs, target) && Discover(fs, target) == None
    ensures Decide(fs, envInfo, poetryOnPath, virtualEnv, target) ==
            if virtualEnv.Some? && virtualEnv.value != "" then Act(Deactivate) else Act(NoOp)
  {
  }

  /** Once the walk has found a venv in `project`, `main` takes the venv
      branch with the active environment read from `VIRTUAL_ENV`. */
  lemma DecideVenv(fs: FileSystem, envInfo: Path -> ProcessResult, poetryOnPath: bool,
                   virtualEnv: Option<string>, target: Path, project: Path)
    requires IsDir(fs, target) && Discover(fs, target) == Some(Env(project, Venv))
    ensures Decide(fs, envInfo, poetryOnPath, virtualEnv, target) == VenvTransition(fs, ActiveEnv(virtualEnv), project)
  {
  }

  /** Once the walk has found a Poetry project in `project`, `main` takes
      the Poetry branch, still knowing the original target. */
  lemma DecidePoetry(fs: FileSystem, envInfo: Path -> ProcessResult, poetryOnPath: bool,
                     virtualEnv: Option<string>, target: Path, project: Path)
    requires IsDir(fs, target) && Discover(fs, target) == Some(Env(project, Poetry))
    ensures Decide(fs, envInfo, poetryOnPath, virtualEnv, target) ==
            PoetryTransition(fs, envInfo, poetryOnPath, ActiveEnv(virtualEnv), target, project)
  {
  }

  /** A venv found in `project`: its activator when no environment is
      active; nothing when the active one is the same file as the project
      directory (not its `.venv`); deactivate and activate when it is another
      existing file; an escaping exception when either is missing. */
  lemma VenvFound(fs: FileSystem, envInfo: Path -> ProcessResult, poetryOnPath: bool,
                  virtualEnv: Option<string>, target: Path, project: Path)
    requires IsDir(fs, target) && Discover(fs, target) == Some(Env(project, Venv))
    ensures ActiveEnv(virtualEnv) == None ==>
              Decide(fs, envInfo, poetryOnPath, virtualEnv, target) == Act(Activate(VenvPath(project)))
    ensures ActiveEnv(virtualEnv).Some? && Exists(fs, ParsePath(virtualEnv.value)) && Exists(fs, project) ==>
              Decide(fs, envInfo, poetryOnPath, virtualEnv, target) ==
                if fs.identity(ParsePath(virtualEnv.value)) == fs.identity(project) then Act(NoOp)
                else Act(Switch(VenvPath(project)))
    ensures ActiveEnv(virtualEnv).Some? && (!Exists(fs, ParsePath(virtualEnv.value)) || !Exists(fs, project)) ==>
              Decide(fs, envInfo, poetryOnPath, virtualEnv, target) == Crashed
  {
    DecideVenv(fs, envInfo, poetryOnPath, virtualEnv, target, project);
  }

  /** A Poetry project found while `poetry` is not on `PATH`: nothing at
      all, whether or not an environment is active. */
  lemma PoetryWithoutTool(fs: FileSystem, envInfo: Path -> ProcessResult, virtualEnv: Option<string>,
                          target: Path, project: Path)
    requires IsDir(fs, target) && Discover(fs, target) == Some(Env(project, Poetry))
    ensures Decide(fs, envInfo, false, virtualEnv, target) == Act(NoOp)
  {
    DecidePoetry(fs, envInfo, false, virtualEnv, target, project);
  }

  /** A Poetry project found with the tool available and no active
      environment: the activator of the environment reported for the project
      directory; when the query reports no path, `None / "bin"` raises. */
  lemma PoetryActivates(fs: FileSystem, envInfo: Path -> ProcessResult, virtualEnv: Option<string>,
                        target: Path, project: Path)
    requires IsDir(fs, target) && Discover(fs, target) == Some(Env(project, Poetry))
    requires ActiveEnv(virtualEnv) == None
    ensures envInfo(project).Completed? ==>
              Decide(fs, envInfo, true, virtualEnv, target) ==
                Act(Activate(PoetryActivator(ParsePath(Strip(envInfo(project).stdout)))))
    ensures !envInfo(project).Completed? ==> Decide(fs, envInfo, true, virtualEnv, target) == Crashed
  {
    DecidePoetry(fs, envInfo, true, virtualEnv, target, project);
  }

  /** With an active environment, the comparison is against the environment
      reported for the original target, not for the project directory: when
      that one is the active environment nothing is printed, whatever the
      tool reports for the project. */
  lemma PoetryComparesWithTarget(fs: FileSystem, envInfo: Path -> ProcessResult, envInfo': Path -> ProcessResult,
                                 active: string, target: Path, project: Path, targetEnv: Path)
    requires IsDir(fs, target) && Discover(fs, target) == Some(Env(project, Poetry))
    requires active != "" && envInfo(target) == envInfo'(target)
    requires PoetryEnvPath(envInfo(target)) == Ok(Some(targetEnv))
    requires Exists(fs, ParsePath(active)) && Exists(fs, targetEnv)
    requires fs.identity(ParsePath(active)) == fs.identity(targetEnv)
    ensures Decide(fs, envInfo, true, Some(active), target) == Decide(fs, envInfo', true, Some(active), target) == Act(NoOp)
  {
    DecidePoetry(fs, envInfo, true, Some(active), target, project);
    DecidePoetry(fs, envInfo', true, Some(active), target, project);
    PoetryCompareStays(fs, envInfo, ParsePath(active), target, project, targetEnv);
    PoetryCompareStays(fs, envInfo', ParsePath(active), target, project, targetEnv);
  }

  lemma PoetryCompareStays(fs: FileSystem, envInfo: Path -> ProcessResult, active: Path,
                           target: Path, project: Path, targetEnv: Path)
    requires PoetryEnvPath(envInfo(target)) == Ok(Some(targetEnv))
    requires Exists(fs, active) && Exists(fs, targetEnv) && fs.identity(active) == fs.identity(targetEnv)
    ensures PoetryCompare(fs, envInfo, active, target, project) == Act(NoOp)
  {
    assert SameFile(fs, active, targetEnv) == Ok(true);
  }

  /** With an active environment that is another existing file than the one
      reported for the target: deactivate, then activate the environment
      reported for the project directory. */
  lemma PoetrySwitches(fs: FileSystem, envInfo: Path -> ProcessResult, active: string,
                       target: Path, project: Path, targetEnv: Path)
    requires IsDir(fs, target) && Discover(fs, target) == Some(Env(project, Poetry))
    requires active != "" && PoetryEnvPath(envInfo(target)) == Ok(Some(targetEnv))
    requires Exists(fs, ParsePath(active)) && Exists(fs, targetEnv)
    requires fs.identity(ParsePath(active)) != fs.identity(targetEnv)
    requires envInfo(project).Completed?
    ensures Decide(fs, envInfo, true, Some(active), target) ==
            Act(Switch(PoetryActivator(ParsePath(Strip(envInfo(project).stdout)))))
  {
    DecidePoetry(fs, envInfo, true, Some(active), target, project);
    assert SameFile(fs, ParsePath(active), targetEnv) == Ok(false);
    assert PoetryCompare(fs, envInfo, ParsePath(active), target, project) == PoetrySwitch(envInfo, project);
    PoetrySwitchActivator(envInfo, project);
  }

  /** The switch activates what the query at the project directory reports. */
  lemma PoetrySwitchActivator(envInfo: Path -> ProcessResult, project: Path)
    requires envInfo(project).Completed?
    ensures PoetrySwitch(envInfo, project) == Act(Switch(PoetryActivator(ParsePath(Strip(envInfo(project).stdout)))))
  {
  }

  /** With an active environment, a query at the target that reports no
      path (or cannot run) makes `samefile` raise, or lets the exception
      escape, before anything is printed. */
  lemma PoetryCrashesWithoutTargetEnv(fs: FileSystem, envInfo: Path -> ProcessResult, active: string,
                                      target: Path, project: Path)
    requires IsDir(fs, target) && Discover(fs, target) == Some(Env(project, Poetry))
    requires active != "" && !envInfo(target).Completed?
    ensures Decide(fs, envInfo, true, Some(active), target) == Crashed
  {
    DecidePoetry(fs, envInfo, true, Some(active), target, project);
  }

  /** From a sub-directory of a project, `main` decides what it decides in
      the project itself when no directory in between holds a marker, both
      are directories and, for Poetry, the tool reports the same for both. */
  lemma DecideFromSubdirectory(fs: FileSystem, envInfo: Path -> ProcessResult, poetryOnPath: bool,
                               virtualEnv: Option<string>, project: Path, sub: seq<string>)
    requires IsDir(fs, project) && IsDir(fs, Path(project.absolute, project.parts + sub))
    requires forall j :: 0 <= j < |sub| ==>
               CheckEnv(fs, Up(Path(project.absolute, project.parts + sub), j)) == None
    requires envInfo(Path(project.absolute, project.parts + sub)) == envInfo(project)
    ensures Decide(fs, envInfo, poetryOnPath, virtualEnv, Path(project.absolute, project.parts + sub)) ==
            Decide(fs, envInfo, poetryOnPath, virtualEnv, project)
  {
    var start := Path(project.absolute, project.parts + sub);
    forall j | 0 <= j < |sub|
      ensures EnvAt(fs)(Up(start, j)) == None
    {
      assert CheckEnv(fs, Up(start, j)) == None;
    }
    SearchFromSubdirectory(EnvAt(fs), None, project, sub);
    assert Discover(fs, start) == Discover(fs, project);
    var found := Discover(fs, project);
    if found.Some? && found.value.envType == Poetry {
      PoetryTransitionTarget(fs, envInfo, poetryOnPath, ActiveEnv(virtualEnv), start, project, found.value.directory);
    }
  }

  /** The Poetry branch depends on the target only through what the tool
      reports for it. */
  lemma PoetryTransitionTarget(fs: FileSystem, envInfo: Path -> ProcessResult, poetryOnPath: bool,
                               active: Option<string>, target: Path, target': Path, project: Path)
    requires envInfo(target) == envInfo(target')
    ensures PoetryTransition(fs, envInfo, poetryOnPath, active, target, project) ==
            PoetryTransition(fs, envInfo, poetryOnPath, active, target', project)
  {
  }
}
