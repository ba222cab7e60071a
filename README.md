# py-autoenv, modelled in Dafny

py-autoenv is a small script that a shell runs each time it changes directory.
It looks for a Python environment belonging to the target directory or to one
of its parents, and writes the shell command that moves the session to that
environment: activate it, deactivate the current one, switch from one to the
other, or do nothing. It recognises two kinds of environment:

- a *venv*: a directory holding `.venv/bin/activate`;
- a *Poetry* project: a directory holding `poetry.lock`, whose environment
  is the one the `poetry` tool reports for it.

The project models two revisions of the script:

- `pyautoenv.py` (version 0.1.0), module `PyAutoEnv`. It writes
  `source <activator>`, `deactivate` or `deactivate && source <activator>`
  without a newline. It asks `poetry env list --full-path` for the Poetry
  environment, and drops a trailing ` (Activated)` marker.
- `autopyenv.py`, the older revision, module `AutoPyEnv`. It prints the bare
  activator path, `deactivate` or `deactivate && <activator>`, each
  followed by a newline. It asks `poetry -C <dir> env info --path`. It checks
  whether the tool is on `PATH`, and compares the active environment with the
  one reported for the target directory.

Shared modules:

- `Paths`: the lexical part of `pathlib`. A path is a flag saying whether it
  is absolute, plus its components. `/` and `.` both have no components and
  are their own parents. The module covers `parent`, `/`, parsing
  `Path(str)` and printing `str(path)`.
- `Text`: Python's `str.isspace`, `str.strip()` and `str.endswith`.
- `Host`: everything the script reads or writes.
  - The filesystem is a value. It maps each spelling of a path to the
    object it denotes.
  - `samefile` raises when either path is missing.
  - `VIRTUAL_ENV` is an optional string.
  - The `poetry` subprocess is a function from the directory it is asked
    about to what it printed or how it failed.
  - The output stream is an object whose text grows with each write.
- `Walk`: the upward walk that both revisions' `discover_env` perform. It
  checks the directory, then its parent, and stops at the first directory
  that is its own parent, without checking that one.

Each revision's `main` has two forms:

- `Decide`, a function giving a verdict: "not a directory" (return value 1),
  an uncaught exception, or a transition (return value 0);
- `Run`, a method writing to an `OutputStream`. Its contract says that it
  returns what `Decide` gives and writes exactly that verdict's command.

The lemmas then state the script's behaviour case by case, in terms of
`Decide`.

## Model

| member | source | states |
|---|---|---|
| Paths.ParentSpec | pyautoenv.py:100 | `parent` keeps absoluteness and drops exactly the last component; a path is its own parent exactly when it has no components (`/` or `.`); the parent of a clean path is clean |
| Paths.JoinSpec | pyautoenv.py:133 | `p / name` has `p` as its parent, differs from `p`, ends in `name`, and is clean when `p` and `name` are |
| Paths.Parent | pyautoenv.py:100 | `directory.parent`; its contract is stated by ParentSpec |
| Paths.Join | pyautoenv.py:133 | `directory / name`; its contract is stated by JoinSpec |
| Paths.UpIsIteratedParent | pyautoenv.py:100-103 | taking `parent` no times leaves the path as it is, and each further level up is one more `parent` of the previous one |
| Paths.Ancestors | pyautoenv.py:100-103 | the directories the walk visits are one per component of the start |
| Paths.AncestorsAt | pyautoenv.py:100-103 | the k-th directory visited is the start taken up k levels, and it is not its own parent, so the loop test lets it through |
| Paths.AncestorsOfSubdirectory | pyautoenv.py:100-103 | the walk from `project / sub...` continues, after the sub-directories in between, as the walk from `project` |
| Paths.Split | pyautoenv.py:155 | the `/`-separated pieces of a string; stated by JoinSplit and SplitJoin |
| Paths.Components | pyautoenv.py:155 | the pieces `pathlib` keeps, dropping empty and `.` pieces; stated by ComponentsAppend, ComponentsOne and ComponentsOfClean |
| Paths.ParsePath | pyautoenv.py:155 | `Path(s)` produces a clean path, absolute exactly when `s` starts with `/` |
| Paths.Render | pyautoenv.py:69 | `str(path)`; stated by ParseRender, RenderInjective and RenderJoin |
| Paths.ParseRender | pyautoenv.py:69 | printing a clean path and parsing it back gives the same path |
| Paths.RenderInjective | pyautoenv.py:69 | two clean paths print the same exactly when they are equal |
| Paths.ParseIdempotent | pyautoenv.py:159 | parsing a printed parse changes nothing |
| Paths.RenderJoin | pyautoenv.py:133 | `str(p / name)` is `name` for `.`, `/name` for `/`, and `str(p) + "/" + name` otherwise |
| Paths.JoinSplit | pyautoenv.py:155 | joining the `/`-separated pieces of a string gives back the string |
| Paths.SplitJoin | pyautoenv.py:155 | splitting pieces that hold no `/`, once joined, gives back the pieces |
| Paths.ComponentsAppend | pyautoenv.py:155 | the kept pieces of a concatenation are those of each part, in order |
| Paths.ComponentsOne | pyautoenv.py:155 | a single piece is dropped exactly when it is empty or `.`, and kept otherwise |
| Paths.ParseTrailingSeparator | pyautoenv.py:155 | `Path("/a/")` is `/a` for any clean component `a` |
| Paths.ParseDoubledSeparator | pyautoenv.py:155 | `Path("/a//./b")` is `/a/b` for any clean components `a` and `b` |
| Paths.ComponentsOfClean | pyautoenv.py:155 | a sequence of clean components survives the dropping of empty and `.` pieces unchanged |
| Text.TrimStart | pyautoenv.py:152 | the result is a suffix of the input, everything removed is whitespace, and it does not start with whitespace |
| Text.TrimEnd | pyautoenv.py:152 | the result is a prefix of the input, everything removed is whitespace, and it does not end with whitespace |
| Text.Strip | pyautoenv.py:152 | `strip()` returns a middle stretch of its input, whose ends are not whitespace and around which there is only whitespace |
| Text.StripPadded | pyautoenv.py:152 | a trimmed text surrounded by any whitespace strips to exactly that text |
| Text.StripIdempotent | autopyenv.py:135 | stripping twice is stripping once |
| Text.IsSpace | pyautoenv.py:152 | the characters `str.isspace` accepts, which `strip()` removes |
| Text.EndsWith | pyautoenv.py:154 | `s.endswith(suffix)`: `s` ends with the characters of `suffix`; used by DropActivated |
| Host.IsFile | pyautoenv.py:119 | `path.is_file()`: what the path denotes is a regular file |
| Host.IsDir | pyautoenv.py:60 | `path.is_dir()`: what the path denotes is a directory |
| Host.SameFile | pyautoenv.py:66 | `samefile` raises exactly when one of the two paths does not exist; otherwise it says whether they denote the same object |
| Host.SameFileRespelled | autopyenv.py:46 | `samefile` depends only on what the paths denote, and is symmetric |
| Host.ActiveEnv | pyautoenv.py:63 | `VIRTUAL_ENV` counts as set exactly when it holds a non-empty string, and then it is that string |
| Host.StatusOf | pyautoenv.py:57-72 | return value 1 is "not a directory", 0 is a carried-out transition, and an escaping exception is neither |
| Host.OutputStream.Write | pyautoenv.py:65 | `stream.write(s)` appends `s` to what was written |
| Host.OutputStream.Print | autopyenv.py:47 | `print(line, file=stream)` appends the line and a newline |
| Walk.FirstFound | pyautoenv.py:100-102 | the first result in a sequence of directories that is not "nothing"; stated by SearchNearest, SearchNothing and SearchFound |
| Walk.Search | pyautoenv.py:98-104 | the walk from a start directory through its parents; stated by SearchNearest, SearchNothing, SearchFound and SearchFromSubdirectory |
| Walk.SearchNearest | pyautoenv.py:98-104 | the walk returns the check's result for the nearest directory where the check finds something |
| Walk.SearchNothing | pyautoenv.py:98-104 | the walk finds nothing exactly when the check finds nothing in every directory from the start up to, and excluding, the top |
| Walk.SearchFound | pyautoenv.py:98-104 | whatever the walk returns is the check's result for some directory k levels up, the check having found nothing below it |
| Walk.SearchFromSubdirectory | pyautoenv.py:98-104 | starting in a sub-directory where the check finds nothing gives what starting in the project gives |
| PyAutoEnv.VenvPath | pyautoenv.py:131-133 | the venv activator is `directory / ".venv" / "bin" / "activate"`: three `parent` steps lead back to the directory |
| PyAutoEnv.CheckVenv | pyautoenv.py:116-119 | the venv activator under the directory is a regular file; stated by CheckEnvPrecedence |
| PyAutoEnv.CheckPoetry | pyautoenv.py:136-139 | `directory / "poetry.lock"` is a regular file; stated by CheckEnvPrecedence |
| PyAutoEnv.DropActivated | pyautoenv.py:154-155 | the 12-character ` (Activated)` marker is removed when the listing ends with it, and the listing is kept otherwise |
| PyAutoEnv.DropActivatedInverse | pyautoenv.py:154-155 | removing the marker is the inverse of appending it |
| PyAutoEnv.PoetryEnvPath | pyautoenv.py:142-159 | the query raises exactly when `poetry` cannot be started, gives no path exactly on `CalledProcessError`, and any path it gives is clean |
| PyAutoEnv.PoetryEnvPathOfListing | pyautoenv.py:145-159 | an absolute path listed with the marker and any surrounding whitespace reads back as that path, and also without the marker when it is trimmed and does not itself end in the marker |
| PyAutoEnv.CheckEnv | pyautoenv.py:107-113 | `check_env`; stated by CheckEnvPrecedence |
| PyAutoEnv.CheckEnvPrecedence | pyautoenv.py:107-113 | a venv in the directory wins over Poetry; Poetry is reported with the environment path the query gives; nothing is found exactly when there is no venv and no usable Poetry answer; the check raises exactly when the query raises |
| PyAutoEnv.EnvActivatePath | pyautoenv.py:122-128 | every environment has an activator: the venv activator for a venv, `directory / "bin" / "activate"` for Poetry, with the directory's absoluteness and cleanliness |
| PyAutoEnv.Check | pyautoenv.py:101 | `check_env` as the test the walk applies to each directory |
| PyAutoEnv.Discover | pyautoenv.py:98-104 | `discover_env` as a value; stated by DiscoverNearest, DiscoverNothing, DiscoverAtTop and DiscoverFromSubdirectory |
| PyAutoEnv.DiscoverEnv | pyautoenv.py:98-104 | the loop returns what the upward walk over `check_env` returns |
| PyAutoEnv.DiscoverNearest | pyautoenv.py:98-104 | the discovered environment, or exception, comes from the nearest directory where `check_env` does not find nothing |
| PyAutoEnv.DiscoverNothing | pyautoenv.py:98-104 | nothing is discovered exactly when `check_env` finds nothing in every visited directory |
| PyAutoEnv.DiscoverAtTop | pyautoenv.py:100 | starting at `/` or `.` nothing is checked and nothing is found |
| PyAutoEnv.DiscoverFromSubdirectory | pyautoenv.py:98-104 | from a sub-directory without environments, the project's environment is discovered |
| PyAutoEnv.Activator | pyautoenv.py:68-71 | the activator `env_activate_path` gives, which is never `None` for the two kinds (EnvActivatePath) |
| PyAutoEnv.Command | pyautoenv.py:65-71 | the text written for each transition; stated by CommandShape and CommandDeterminesAction |
| PyAutoEnv.Written | pyautoenv.py:57-72 | everything `main` writes for a verdict: nothing unless it returns 0 |
| PyAutoEnv.Transition | pyautoenv.py:63-71 | the choice after discovery; stated by OutputWhenInactive, DeactivateWhenNothingFound, NothingWhenAlreadyActive, SwitchWhenDifferent, CrashWhenActiveMissing and ActiveEnvIsDeactivatedFirst |
| PyAutoEnv.Decide | pyautoenv.py:57-72 | the verdict of `main`; stated by NotADirectoryWritesNothing and the decision lemmas below, and tied to the writes by Run |
| PyAutoEnv.Run | pyautoenv.py:57-72 | `main` returns what `Decide` says and writes exactly its command |
| PyAutoEnv.WriteTransition | pyautoenv.py:63-71 | the writes of `main` after discovery produce exactly the command of the transition |
| PyAutoEnv.SwitchWrittenInTwoSteps | pyautoenv.py:67-69 | `deactivate` followed by ` && source {activate}` is the switch command |
| PyAutoEnv.NotADirectoryWritesNothing | pyautoenv.py:60-61 | a target that is not a directory gives return value 1 and no output |
| PyAutoEnv.OutputWhenInactive | pyautoenv.py:70-72 | with no active environment, `source {activator}` is written for a found environment and nothing otherwise, with return value 0 |
| PyAutoEnv.DeactivateWhenNothingFound | pyautoenv.py:63-65 | with an active environment and none found, exactly `deactivate` is written |
| PyAutoEnv.NothingWhenAlreadyActive | pyautoenv.py:66 | when the found environment's directory is the same file as the active one, nothing is written |
| PyAutoEnv.SwitchWhenDifferent | pyautoenv.py:66-69 | when it is another existing file, exactly `deactivate && source {activator}` is written |
| PyAutoEnv.CrashWhenActiveMissing | pyautoenv.py:66 | when either path is missing, `samefile` raises and nothing is written |
| PyAutoEnv.ActiveEnvIsDeactivatedFirst | pyautoenv.py:63-69 | with an active environment, any output starts with `deactivate` |
| PyAutoEnv.ActiveSpellingIrrelevant | pyautoenv.py:66 | two spellings of `VIRTUAL_ENV` that denote the same object give the same decision |
| PyAutoEnv.CommandDeterminesAction | pyautoenv.py:63-71 | with clean activators, the written text determines the transition, and different transitions write different texts |
| PyAutoEnv.CommandShape | pyautoenv.py:63-71 | nothing is written only for no transition; activation starts with `source ` and then the activator; deactivation is exactly `deactivate`; a switch starts with `deactivate && source ` and then the activator |
| PyAutoEnv.FoundActivatorWellFormed | pyautoenv.py:68-71 | the activator of an environment found from a clean start is clean |
| PyAutoEnv.DecideFromSubdirectory | pyautoenv.py:57-72 | from a sub-directory without environments, `main` decides what it decides in the project |
| AutoPyEnv.VenvPath | autopyenv.py:109-111 | the venv activator keeps the directory's absoluteness, appends `.venv`, `bin`, `activate`, and is clean when the directory is |
| AutoPyEnv.CheckVenv | autopyenv.py:97-100 | the venv activator under the directory is a regular file; stated by CheckEnvPrecedence |
| AutoPyEnv.CheckPoetry | autopyenv.py:114-117 | `directory / "poetry.lock"` is a regular file; stated by CheckEnvPrecedence |
| AutoPyEnv.CheckEnv | autopyenv.py:88-94 | `check_env`; stated by CheckEnvPrecedence |
| AutoPyEnv.CheckEnvPrecedence | autopyenv.py:88-94 | a venv in the directory wins; Poetry is reported exactly when there is no venv and there is `poetry.lock`; nothing is reported exactly when neither exists |
| AutoPyEnv.Found | autopyenv.py:82-83 | the environment recorded for a directory where `check_env` succeeds: that directory, with the kind found |
| AutoPyEnv.EnvAt | autopyenv.py:82 | `Found` as the test the walk applies to each directory |
| AutoPyEnv.Discover | autopyenv.py:79-85 | `discover_env` as a value; stated by DiscoverInnermost, DiscoverNothing and DiscoverFound |
| AutoPyEnv.DiscoverEnv | autopyenv.py:79-85 | the loop returns what the upward walk over `check_env` returns |
| AutoPyEnv.DiscoverInnermost | autopyenv.py:79-85 | the environment found is the nearest directory on the parent chain where `check_env` finds something, with the kind found there |
| AutoPyEnv.DiscoverNothing | autopyenv.py:79-85 | nothing is found exactly when `check_env` finds nothing in every visited directory |
| AutoPyEnv.DiscoverFound | autopyenv.py:79-85 | whatever is found is some directory k levels up, with the kind found there and nothing found below it |
| AutoPyEnv.VenvActivatorText | autopyenv.py:103-106 | the printed venv activator is the project directory followed by `/.venv/bin/activate`, or `.venv/bin/activate` for `.` |
| AutoPyEnv.VenvActivatorReadsBack | autopyenv.py:103-106 | the printed venv activator of a clean directory parses back to the activator path |
| AutoPyEnv.PoetryEnvPath | autopyenv.py:126-138 | the query raises exactly when `poetry` cannot be started, gives no path exactly on `CalledProcessError`, and any path it gives is clean |
| AutoPyEnv.PoetryEnvPathOfOutput | autopyenv.py:129-136 | a trimmed clean path printed with any surrounding whitespace reads back as that path |
| AutoPyEnv.PoetryActivator | autopyenv.py:123 | the Poetry activator is `env_path / "bin" / "activate"` |
| AutoPyEnv.ActivatePoetry | autopyenv.py:120-123 | `activate_poetry` raises exactly when the query at the directory does not complete, and otherwise gives the activator of the reported path |
| AutoPyEnv.Command | autopyenv.py:47-61 | the line printed for each transition; stated by WrittenEndsWithNewline, VenvActivatorText and the decision lemmas below |
| AutoPyEnv.Written | autopyenv.py:38-62 | everything `main` prints for a verdict: nothing unless it returns normally |
| AutoPyEnv.VenvTransition | autopyenv.py:44-49 | the venv branch; stated by VenvFound |
| AutoPyEnv.PoetryTransition | autopyenv.py:50-59 | the Poetry branch; stated by PoetryWithoutTool, PoetryActivates, PoetryComparesWithTarget, PoetrySwitches and PoetryCrashesWithoutTargetEnv |
| AutoPyEnv.PoetryActivate | autopyenv.py:58-59 | no environment active: print the project's Poetry activator; stated by PoetryActivates |
| AutoPyEnv.PoetryCompare | autopyenv.py:53-57 | an environment active: `samefile` against the path reported for the target; stated by PoetryCompareStays and PoetryCrashesWithoutTargetEnv |
| AutoPyEnv.PoetrySwitch | autopyenv.py:55-57 | another environment active: deactivate it and activate the project's; stated by PoetrySwitchActivator |
| AutoPyEnv.Decide | autopyenv.py:38-62 | the verdict of `main`; stated by ReturnValue and the decision lemmas below, and tied to the output by Run |
| AutoPyEnv.Run | autopyenv.py:38-62 | `main` returns what `Decide` says and prints exactly its command |
| AutoPyEnv.PrintVenv | autopyenv.py:44-49 | the venv branch prints exactly the command of the venv transition |
| AutoPyEnv.PrintPoetry | autopyenv.py:50-59 | the Poetry branch prints exactly the command of the Poetry transition |
| AutoPyEnv.ReturnValue | autopyenv.py:41-42 | `main` returns 1 exactly when the target is not a directory, and then prints nothing; on a directory it never returns 1 |
| AutoPyEnv.WrittenEndsWithNewline | autopyenv.py:47 | whatever is printed ends with a newline |
| AutoPyEnv.NothingFound | autopyenv.py:60-61 | with no environment found, `deactivate` is printed exactly when `VIRTUAL_ENV` is set and non-empty, and nothing otherwise |
| AutoPyEnv.DecideVenv | autopyenv.py:44-49 | a venv found in a project selects the venv branch for that project |
| AutoPyEnv.DecidePoetry | autopyenv.py:50-59 | a Poetry project found selects the Poetry branch for that project and the target |
| AutoPyEnv.VenvFound | autopyenv.py:44-49 | for a venv: its activator with no active environment; nothing when the active one is the same file as the project; a switch when it is another file; an exception when either is missing |
| AutoPyEnv.PoetryWithoutTool | autopyenv.py:51-52 | a Poetry project while `poetry` is not on `PATH` gives nothing, with return value 0 |
| AutoPyEnv.PoetryActivates | autopyenv.py:58-59 | with no active environment, the activator of the path reported for the project is printed, or an exception escapes when the query does not complete |
| AutoPyEnv.PoetryCompareStays | autopyenv.py:54 | when the active path and the path reported for the target are the same existing file, nothing is printed |
| AutoPyEnv.PoetryComparesWithTarget | autopyenv.py:53-54 | the active environment is compared with the path reported for the target directory, not the project; when they are the same file nothing is printed, whatever is reported for the project |
| AutoPyEnv.PoetrySwitches | autopyenv.py:53-57 | when they are different existing files, the command deactivates and activates the path reported for the project |
| AutoPyEnv.PoetrySwitchActivator | autopyenv.py:55-57 | the switch activates the activator of the path reported for the project directory |
| AutoPyEnv.PoetryCrashesWithoutTargetEnv | autopyenv.py:53-54 | with an active environment and a query at the target that does not complete, an exception escapes |
| AutoPyEnv.DecideFromSubdirectory | autopyenv.py:38-62 | from a sub-directory without environments, that the tool reports the same for as the project, `main` decides what it decides in the project |

## Left out

- Argument parsing (`parse_args`, `--version`, `__version__`): the target
  directory is an input. The default `Path.cwd()` is one more spelling that
  the filesystem's identity map resolves.
- The entry points. pyautoenv passes `main`'s return value to `sys.exit`;
  autopyenv discards it. Both appear here as the `Status` of `Run`.
- The subprocess itself, and the UTF-8 decoding of its output: what
  `poetry` prints for a directory is a function given as an input. A
  non-UTF-8 output is an exception not modelled.
- `shutil.which("poetry")` is a boolean input.
- The one exception the code catches, `CalledProcessError`, is kept as a
  case of the subprocess result, although `subprocess.run` without
  `check=True` does not raise it. Other exceptions (permission errors, a
  non-UTF-8 path, decoding errors) are not modelled. A missing `poetry`
  executable is modelled, as an exception that escapes `main`.
- Symbolic links, `..` and the working directory are not resolved
  lexically. They are folded into the filesystem's identity map.
- Paths.ParsePath: a path spelt with the POSIX `//` root, which `pathlib`
  keeps distinct from `/`, is parsed as the same path as its `/` spelling.
  So for a target spelt `//x` the model prints `/x/.venv/bin/activate`,
  where `pathlib` prints `//x/.venv/bin/activate`.
- In autopyenv, a `None` from `poetry_env_path` reaches `samefile` or
  `/ "bin"` and raises `TypeError`; the model gives such runs the
  uncaught-exception verdict.
- Where the repository's tests disagree with the code, the code is followed.
  - `test_autopyenv.py` expects a `source ` prefix and no newline, and no
    output when the Poetry path is `None`; `autopyenv.py:47-59` prints the
    bare path with a newline, and raises.
  - `test_pyautoenv.py:81-93` expects no output when the project's `.venv`
    is the active environment. `pyautoenv.py:110` records the project
    directory, so `samefile` compares the project with `.venv`; the model
    switches there (PyAutoEnv.SwitchWhenDifferent).
  - `test_pyautoenv.py:147-294` drives a Poetry helper that `pyautoenv.py`
    does not have.
- Later revisions of the script are not part of this model: the operating
  system switch, the cache directory, ignored directories, the fish and
  PowerShell variants and the hashed cache keys. So are the benchmarks and
  the test helpers.
- Paths.ParseRender, AutoPyEnv.VenvActivatorReadsBack,
  PyAutoEnv.CommandDeterminesAction: these round trips are stated for clean
  paths only (no empty, `.` or `/`-holding components); `pathlib` normalises
  the others away before printing.
- AutoPyEnv.VenvActivatorText: the printed form is stated for directories
  with components and for `.`; for `/` it is `/.venv/bin/activate`, which
  Paths.RenderJoin covers.
