/** pyautoenv 0.1.0: find the Python environment that belongs to a directory
    and write the shell command that moves the session to it.

    The filesystem, the `VIRTUAL_ENV` variable and the output of
    `poetry env list --full-path` (run in a given directory) are inputs; the
    command goes to an `OutputStream`. */
module PyAutoEnv {
  import opened Paths
  import opened Text
  import opened Host
  import opened Walk

  datatype EnvType = Poetry | Venv

  /** An environment found for a directory. For a venv `directory` is the
      project directory holding `.venv`; for Poetry it is the environment
      directory the `poetry` tool reports. */
  datatype Env = Env(directory: Path, envType: EnvType)

  /** The marker `poetry env list` appends to the environment in use. */
  const ActivatedMarker: string := " (Activated)"

  // ---------------------------------------------------------------------
  // Detection in one directory

  /** `venv_path`: `directory / ".venv" / "bin" / "activate"`. */
  function VenvPath(directory: Path): (r: Path)
    ensures Parent(Parent(Parent(r))) == directory
    ensures r.parts == directory.parts + [".venv", "bin", "activate"]
    ensures WellFormed(directory) ==> WellFormed(r)
  {
    Join(Join(Join(directory, ".venv"), "bin"), "activate")
  }

  /** `check_venv`: the venv activator script is a regular file. */
  predicate CheckVenv(fs: FileSystem, directory: Path) {
    IsFile(fs, VenvPath(directory))
  }

  /** `check_poetry`: `poetry.lock` is a regular file. */
  predicate CheckPoetry(fs: FileSystem, directory: Path) {
    IsFile(fs, Join(directory, "poetry.lock"))
  }

  /** The suffix handling of `poetry_env_path`: a listing that ends with the
      marker loses exactly its last 12 characters. */
  function DropActivated(listing: string): (r: string)
    ensures EndsWith(listing, ActivatedMarker) ==> r + ActivatedMarker == listing
    ensures !EndsWith(listing, ActivatedMarker) ==> r == listing
  {
    assert |ActivatedMarker| == 12;
    if EndsWith(listing, ActivatedMarker) then listing[..|listing| - 12] else listing
  }

  /** Removing the marker undoes appending it. */
  lemma DropActivatedInverse(path: string)
    ensures DropActivated(path + ActivatedMarker) == path
  {
    var listing := path + ActivatedMarker;
    assert listing[|listing| - |ActivatedMarker|..] == ActivatedMarker;
    assert listing[..|listing| - 12] == path;
  }

  /** `poetry_env_path`: the stripped output of the subprocess, without the
      marker, read as a path. Every completed run yields a path (an empty
      output gives `.`); only `CalledProcessError` gives none, and a missing
      executable escapes as an exception. */
  function PoetryEnvPath(run: ProcessResult): (r: Except<Option<Path>>)
    ensures r.Raised? <==> run.ExecutableNotFound?
    ensures r == Ok(None) <==> run.CalledProcessError?
    ensures r.Ok? && r.value.Some? ==> WellFormed(r.value.value)
  {
    match run
    case Completed(stdout) => Ok(Some(ParsePath(DropActivated(Strip(stdout)))))
    case CalledProcessError => Ok(None)
    case ExecutableNotFound => Raised
  }

  /** A listing of one absolute environment path, with or without the
      marker and padded with whitespace, reads back as that path. Without
      the marker this needs the path's own text to be trimmed and not to end
      with the marker; with it, nothing more. */
  lemma PoetryEnvPathOfListing(env: Path, pre: string, post: string)
    requires WellFormed(env) && env.absolute
    requires AllSpace(pre) && AllSpace(post)
    ensures PoetryEnvPath(Completed(pre + Render(env) + ActivatedMarker + post)) == Ok(Some(env))
    ensures Trimmed(Render(env)) && !EndsWith(Render(env), ActivatedMarker) ==>
              PoetryEnvPath(Completed(pre + Render(env) + post)) == Ok(Some(env))
  {
    var text := Render(env);
    var marked := text + ActivatedMarker;
    assert marked[0] == '/' && marked[|marked| - 1] == ')';
    assert pre + text + ActivatedMarker + post == pre + marked + post;
    StripPadded(pre, marked, post);
    DropActivatedInverse(text);
    ParseRender(env);
    if Trimmed(text) {
      StripPadded(pre, text, post);
    }
  }

  /** `check_env`: a venv in the directory wins; otherwise a Poetry project
      whose environment the `poetry` tool reports. */
  function CheckEnv(fs: FileSystem, envList: Path -> ProcessResult, directory: Path): Except<Option<Env>> {
    if CheckVenv(fs, directory) then Ok(Some(Env(directory, Venv)))
    else if CheckPoetry(fs, directory) then
      match PoetryEnvPath(envList(directory))
      case Raised => Raised
      case Ok(None) => Ok(None)
      case Ok(Some(envPath)) => Ok(Some(Env(envPath, Poetry)))
    else Ok(None)
  }

  /** Within one directory a venv takes precedence: it counts exactly when
      its activator is a file, and then names the directory itself. Poetry
      counts only when there is no venv, `poetry.lock` is a file and the
      tool reports a path; the tool is never run without the lock file. */
  lemma CheckEnvPrecedence(fs: FileSystem, envList: Path -> ProcessResult, directory: Path)
    ensures CheckVenv(fs, directory) <==> CheckEnv(fs, envList, directory) == Ok(Some(Env(directory, Venv)))
    ensures forall d :: CheckEnv(fs, envList, directory) == Ok(Some(Env(d, Poetry))) <==>
              !CheckVenv(fs, directory) && CheckPoetry(fs, directory) &&
              PoetryEnvPath(envList(directory)) == Ok(Some(d))
    ensures CheckEnv(fs, envList, directory) == Ok(None) <==>
              !CheckVenv(fs, directory) &&
              (!CheckPoetry(fs, directory) || envList(directory).CalledProcessError?)
    ensures CheckEnv(fs, envList, directory).Raised? <==>
              !CheckVenv(fs, directory) && CheckPoetry(fs, directory) &&
              envList(directory).ExecutableNotFound?
  {
  }

  /** `env_activate_path`: the activator script of an environment; since
      there are only these two kinds, there always is one. */
  function EnvActivatePath(env: Env): (r: Option<Path>)
    ensures r.Some?
    ensures env.envType == Venv ==> r.value == VenvPath(env.directory)
    ensures env.envType == Poetry ==> r.value.parts == env.directory.parts + ["bin", "activate"]
    ensures r.value.absolute == env.directory.absolute
    ensures WellFormed(env.directory) ==> WellFormed(r.value)
  {
    match env.envType
    case Poetry => Some(Join(Join(env.directory, "bin"), "activate"))
    case Venv => Some(VenvPath(env.directory))
  }

  // ---------------------------------------------------------------------
  // The upward walk

  /** `check_env` as the test the upward walk applies to each directory. */
  function Check(fs: FileSystem, envList: Path -> ProcessResult): Path -> Except<Option<Env>> {
    (directory: Path) => CheckEnv(fs, envList, directory)
  }

  /** `discover_env` as a value: the first result of `check_env`, from the
      directory upwards, that is not empty. */
  function Discover(fs: FileSystem, envList: Path -> ProcessResult, directory: Path): Except<Option<Env>> {
    Search(Check(fs, envList), Ok(None), directory)
  }

  /** `discover_env`: test the directory, then its parent, and so on, and
      stop at the first directory that is its own parent. */
  method DiscoverEnv(fs: FileSystem, envList: Path -> ProcessResult, start: Path) returns (r: Except<Option<Env>>)
    ensures r == Discover(fs, envList, start)
  {
    var directory := start;
    while directory != Parent(directory)
      invariant Discover(fs, envList, start) == Discover(fs, envList, directory)
      decreases |directory.parts|
    {
      var env := CheckEnv(fs, envList, directory);
      if env != Ok(None) {
        return env;
      }
      directory := Parent(directory);
    }
    return Ok(None);
  }

  /** A closer directory always wins: the walk returns what `check_env`
      says about the nearest directory, `k` levels up, where it does not
      come back empty (an environment, or an exception). */
  lemma DiscoverNearest(fs: FileSystem, envList: Path -> ProcessResult, start: Path, k: nat)
    requires k < |start.parts|
    requires CheckEnv(fs, envList, Up(start, k)) != Ok(None)
    requires forall j :: 0 <= j < k ==> CheckEnv(fs, envList, Up(start, j)) == Ok(None)
    ensures Discover(fs, envList, start) == CheckEnv(fs, envList, Up(start, k))
  {
    SearchNearest(Check(fs, envList), Ok(None), start, k);
  }

  /** The walk finds nothing exactly when no directory from the start up to,
      and excluding, the root (or `.`) holds an environment. */
  lemma DiscoverNothing(fs: FileSystem, envList: Path -> ProcessResult, start: Path)
    ensures Discover(fs, envList, start) == Ok(None) <==>
            forall j :: 0 <= j < |start.parts| ==> CheckEnv(fs, envList, Up(start, j)) == Ok(None)
  {
    SearchNothing(Check(fs, envList), Ok(None), start);
  }

  /** The root, and `.` for a relative start, are never examined: starting
      there finds nothing, whatever they contain. */
  lemma DiscoverAtTop(fs: FileSystem, envList: Path -> ProcessResult, start: Path)
    requires Parent(start) == start
    ensures Discover(fs, envList, start) == Ok(None)
  {
  }

  /** Starting in a sub-directory of `project` finds what starting in
      `project` finds, as long as no directory in between holds an
      environment. */
  lemma DiscoverFromSubdirectory(fs: FileSystem, envList: Path -> ProcessResult, project: Path, sub: seq<string>)
    requires forall j :: 0 <= j < |sub| ==>
               CheckEnv(fs, envList, Up(Path(project.absolute, project.parts + sub), j)) == Ok(None)
    ensures Discover(fs, envList, Path(project.absolute, project.parts + sub)) == Discover(fs, envList, project)
  {
    SearchFromSubdirectory(Check(fs, envList), Ok(None), project, sub);
  }

  // ---------------------------------------------------------------------
  // The decision

  /** The four transitions: nothing, activate, deactivate, or both. */
  datatype Action = NoOp | Activate(activator: Path) | Deactivate | Switch(activator: Path)

  /** The text written for each transition. */
  function Command(a: Action): string {
    match a
    case NoOp => ""
    case Activate(p) => "source " + Render(p)
    case Deactivate => "deactivate"
    case Switch(p) => "deactivate && source " + Render(p)
  }

  /** Everything `main` writes for a verdict. */
  function Written(v: Verdict<Action>): string {
    if v.Act? then Command(v.action) else ""
  }

  function Activator(env: Env): Path {
    EnvActivatePath(env).value
  }

  /** The transition for an active environment (if any) and a found one (if
      any): the found environment is the active one when its `directory` is
      the same file as `VIRTUAL_ENV`. */
  function Transition(fs: FileSystem, active: Option<string>, found: Option<Env>): Verdict<Action> {
    match (active, found)
    case (None, None) => Act(NoOp)
    case (None, Some(env)) => Act(Activate(Activator(env)))
    case (Some(_), None) => Act(Deactivate)
    case (Some(a), Some(env)) =>
      match SameFile(fs, env.directory, ParsePath(a))
      case Raised => Crashed
      case Ok(same) => if same then Act(NoOp) else Act(Switch(Activator(env)))
  }

  /** What `main` decides for the target directory. */
  function Decide(fs: FileSystem, envList: Path -> ProcessResult, virtualEnv: Option<string>, target: Path): Verdict<Action> {
    if !IsDir(fs, target) then NotADirectory
    else
      match Discover(fs, envList, target)
      case Raised => Crashed
      case Ok(found) => Transition(fs, ActiveEnv(virtualEnv), found)
  }

  /** `main`: returns 1 when the target is not a directory; otherwise
      walks up from it and writes the transition command. */
  method Run(fs: FileSystem, envList: Path -> ProcessResult, virtualEnv: Option<string>, target: Path,
             stdout: OutputStream) returns (status: Status)
    modifies stdout
    ensures status == StatusOf(Decide(fs, envList, virtualEnv, target))
    ensures stdout.text == old(stdout.text) + Written(Decide(fs, envList, virtualEnv, target))
  {
    if !IsDir(fs, target) {
      return Exited(1);
    }
    var newEnv := DiscoverEnv(fs, envList, target);
    if newEnv.Raised? {
      return Uncaught;
    }
    status := WriteTransition(fs, ActiveEnv(virtualEnv), newEnv.value, stdout);
  }

  /** The part of `main` after the walk: compare with the active
      environment and write `deactivate`, then ` && source {activator}`, or
      just `source {activator}`. */
  method WriteTransition(fs: FileSystem, activeEnvPath: Option<string>, newEnv: Option<Env>,
                         stdout: OutputStream) returns (status: Status)
    modifies stdout
    ensures status == StatusOf(Transition(fs, activeEnvPath, newEnv))
    ensures stdout.text == old(stdout.text) + Written(Transition(fs, activeEnvPath, newEnv))
  {
    if activeEnvPath.Some? {
      if newEnv.None? {
        stdout.Write("deactivate");
      } else {
        var same := SameFile(fs, newEnv.value.directory, ParsePath(activeEnvPath.value));
        if same.Raised? {
          return Uncaught;
        }
        if !same.value {
          stdout.Write("deactivate");
          var activate := EnvActivatePath(newEnv.value);
          if activate.Some? {
            stdout.Write(" && source " + Render(activate.value));
          }
          SwitchWrittenInTwoSteps(old(stdout.text), activate.value);
        }
      }
    } else if newEnv.Some? {
      var activate := EnvActivatePath(newEnv.value);
      if activate.Some? {
        stdout.Write("source " + Render(activate.value));
      }
    }
    return Exited(0);
  }

  /** Writing `deactivate` and then ` && source {activator}` writes the
      switch command. */
  lemma SwitchWrittenInTwoSteps(before: string, activator: Path)
    ensures before + "deactivate" + (" && source " + Render(activator)) ==
            before + Command(Switch(activator))
  {
    var tail := " && source " + Render(activator);
    assert "deactivate" + tail == Command(Switch(activator)) by {
      assert "deactivate" + " && source " == "deactivate && source ";
    }
    assert before + "deactivate" + tail == before + ("deactivate" + tail);
  }

  // ---------------------------------------------------------------------
  // Properties of the decision

  /** A target that is not a directory: return value 1, nothing written. */
  lemma NotADirectoryWritesNothing(fs: FileSystem, envList: Path -> ProcessResult, virtualEnv: Option<string>, target: Path)
    requires !IsDir(fs, target)
    ensures StatusOf(Decide(fs, envList, virtualEnv, target)) == Exited(1)
    ensures Written(Decide(fs, envList, virtualEnv, target)) == ""
  {
  }

  /** With no active environment (`VIRTUAL_ENV` unset or empty): exactly
      `source {activator}` for a found environment, nothing otherwise, and
      return value 0. */
  lemma OutputWhenInactive(fs: FileSystem, envList: Path -> ProcessResult, virtualEnv: Option<string>,
                           target: Path, found: Option<Env>)
    requires IsDir(fs, target) && ActiveEnv(virtualEnv) == None
    requires Discover(fs, envList, target) == Ok(found)
    ensures StatusOf(Decide(fs, envList, virtualEnv, target)) == Exited(0)
    ensures Written(Decide(fs, envList, virtualEnv, target)) ==
            if found.Some? then "source " + Render(Activator(found.value)) else ""
  {
  }

  /** With an active environment and none found: exactly `deactivate`. */
  lemma DeactivateWhenNothingFound(fs: FileSystem, envList: Path -> ProcessResult, active: string, target: Path)
    requires IsDir(fs, target) && active != ""
    requires Discover(fs, envList, target) == Ok(None)
    ensures StatusOf(Decide(fs, envList, Some(active), target)) == Exited(0)
    ensures Written(Decide(fs, envList, Some(active), target)) == "deactivate"
  {
  }

  /** With an active environment whose path is the same file as the found
      environment's `directory`: nothing. For a venv that `directory` is the
      project directory, not its `.venv`. */
  lemma NothingWhenAlreadyActive(fs: FileSystem, envList: Path -> ProcessResult, active: string, target: Path, env: Env)
    requires IsDir(fs, target) && active != ""
    requires Discover(fs, envList, target) == Ok(Some(env))
    requires Exists(fs, env.directory) && Exists(fs, ParsePath(active))
    requires fs.identity(env.directory) == fs.identity(ParsePath(active))
    ensures StatusOf(Decide(fs, envList, Some(active), target)) == Exited(0)
    ensures Written(Decide(fs, envList, Some(active), target)) == ""
  {
  }

  /** With an active environment that is another existing file: exactly
      `deactivate && source {activator}`. */
  lemma SwitchWhenDifferent(fs: FileSystem, envList: Path -> ProcessResult, active: string, target: Path, env: Env)
    requires IsDir(fs, target) && active != ""
    requires Discover(fs, envList, target) == Ok(Some(env))
    requires Exists(fs, env.directory) && Exists(fs, ParsePath(active))
    requires fs.identity(env.directory) != fs.identity(ParsePath(active))
    ensures StatusOf(Decide(fs, envList, Some(active), target)) == Exited(0)
    ensures Written(Decide(fs, envList, Some(active), target)) ==
            "deactivate && source " + Render(Activator(env))
  {
    assert Decide(fs, envList, Some(active), target) == Act(Switch(Activator(env)));
  }

  /** With an active environment that no longer exists (or a found one
      that does not), `samefile` raises before anything is written. */
  lemma CrashWhenActiveMissing(fs: FileSystem, envList: Path -> ProcessResult, active: string, target: Path, env: Env)
    requires IsDir(fs, target) && active != ""
    requires Discover(fs, envList, target) == Ok(Some(env))
    requires !Exists(fs, env.directory) || !Exists(fs, ParsePath(active))
    ensures StatusOf(Decide(fs, envList, Some(active), target)) == Uncaught
    ensures Written(Decide(fs, envList, Some(active), target)) == ""
  {
  }

  /** Whenever an environment is active, whatever is written begins by
      deactivating it. */
  lemma ActiveEnvIsDeactivatedFirst(fs: FileSystem, active: string, found: Option<Env>)
    requires active != ""
    requires Written(Transition(fs, Some(active), found)) != ""
    ensures "deactivate" <= Written(Transition(fs, Some(active), found))
  {
    var v := Transition(fs, Some(active), found);
    if v.action.Switch? {
      SwitchWrittenInTwoSteps("", v.action.activator);
      PrefixOfAppend("deactivate", " && source " + Render(v.action.activator));
      assert "" + "deactivate" == "deactivate";
    }
  }

  lemma PrefixOfAppend(a: string, b: string)
    ensures a <= a + b
  {
  }

  /** How `VIRTUAL_ENV` is spelt does not matter, only what it denotes. */
  lemma ActiveSpellingIrrelevant(fs: FileSystem, envList: Path -> ProcessResult, a: string, b: string, target: Path)
    requires a != "" && b != ""
    requires fs.identity(ParsePath(a)) == fs.identity(ParsePath(b))
    ensures Decide(fs, envList, Some(a), target) == Decide(fs, envList, Some(b), target)
  {
  }

  /** The written text determines the transition: distinct transitions
      between well-formed paths are never written the same way. */
  lemma CommandDeterminesAction(a: Action, b: Action)
    requires (a.Activate? || a.Switch?) ==> WellFormed(a.activator)
    requires (b.Activate? || b.Switch?) ==> WellFormed(b.activator)
    ensures Command(a) == Command(b) <==> a == b
  {
    CommandShape(a);
    CommandShape(b);
    if Command(a) == Command(b) {
      var t := Command(a);
      if a.Activate? && b.Activate? {
        assert Render(a.activator) == t[7..] == Render(b.activator);
        RenderInjective(a.activator, b.activator);
      } else if a.Switch? && b.Switch? {
        assert Render(a.activator) == t[21..] == Render(b.activator);
        RenderInjective(a.activator, b.activator);
      }
    }
  }

  /** How each command begins, and how long it is at least. */
  lemma CommandShape(a: Action)
    ensures a.NoOp? <==> Command(a) == ""
    ensures a.Activate? ==> |Command(a)| >= 7 && Command(a)[..7] == "source " && Command(a)[7..] == Render(a.activator)
    ensures a.Deactivate? ==> Command(a) == "deactivate"
    ensures a.Switch? ==> |Command(a)| >= 21 && Command(a)[..21] == "deactivate && source " &&
                          Command(a)[21..] == Render(a.activator)
  {
  }

  /** From a well-formed start, every activator the walk can produce is
      well-formed, so `CommandDeterminesAction` applies to what `main`
      writes. */
  lemma FoundActivatorWellFormed(fs: FileSystem, envList: Path -> ProcessResult, start: Path)
    requires WellFormed(start)
    requires Discover(fs, envList, start).Ok? && Discover(fs, envList, start).value.Some?
    ensures WellFormed(Activator(Discover(fs, envList, start).value.value))
  {
    var k := SearchFound(Check(fs, envList), Ok(None), start);
    assert WellFormed(Up(start, k));
  }

  /** From a sub-directory of a project, `main` decides exactly what it
      decides in the project itself, when no directory in between holds an
      environment and both are directories. */
  lemma DecideFromSubdirectory(fs: FileSystem, envList: Path -> ProcessResult, virtualEnv: Option<string>,
                               project: Path, sub: seq<string>)
    requires IsDir(fs, project) && IsDir(fs, Path(project.absolute, project.parts + sub))
    requires forall j :: 0 <= j < |sub| ==>
               CheckEnv(fs, envList, Up(Path(project.absolute, project.parts + sub), j)) == Ok(None)
    ensures Decide(fs, envList, virtualEnv, Path(project.absolute, project.parts + sub)) ==
            Decide(fs, envList, virtualEnv, project)
  {
    DiscoverFromSubdirectory(fs, envList, project, sub);
  }
}
