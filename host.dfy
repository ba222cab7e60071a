/** What both revisions read from, or write to, the world around them: the
    filesystem, the `VIRTUAL_ENV` variable, the `poetry` subprocess and the
    standard output stream. Each becomes an explicit input value here, or an
    object the program writes to. */
module Host {
  import opened Paths

  datatype Option<T> = None | Some(value: T)

  /** The value of a Python expression, or the exception it raised. The
      programs catch none of the exceptions that can reach here, so every
      `Raised` ends the run with a traceback. */
  datatype Except<T> = Ok(value: T) | Raised

  /** A snapshot of the filesystem. `identity` maps a spelling of a path to
      the object it denotes (resolving symbolic links and the working
      directory); `files` and `dirs` hold the identities of the existing
      regular files and directories. */
  datatype FileSystem = FileSystem(files: set<Path>, dirs: set<Path>, identity: Path -> Path)

  /** `p.is_file()` */
  predicate IsFile(fs: FileSystem, p: Path) {
    fs.identity(p) in fs.files
  }

  /** `p.is_dir()` */
  predicate IsDir(fs: FileSystem, p: Path) {
    fs.identity(p) in fs.dirs
  }

  /** `os.stat(p)` succeeds. */
  predicate Exists(fs: FileSystem, p: Path) {
    IsFile(fs, p) || IsDir(fs, p)
  }

  /** `a.samefile(b)`: both paths are passed to `os.stat`, which raises when
      either is missing; otherwise the answer is whether they denote the same
      object. */
  function SameFile(fs: FileSystem, a: Path, b: Path): (r: Except<bool>)
    ensures r.Raised? <==> !Exists(fs, a) || !Exists(fs, b)
    ensures r.Ok? ==> (r.value <==> fs.identity(a) == fs.identity(b))
  {
    if Exists(fs, a) && Exists(fs, b) then Ok(fs.identity(a) == fs.identity(b)) else Raised
  }

  /** The comparison is symmetric and depends only on what the paths denote,
      not on how they are spelt. */
  lemma SameFileRespelled(fs: FileSystem, a: Path, a': Path, b: Path)
    requires fs.identity(a) == fs.identity(a')
    ensures SameFile(fs, a, b) == SameFile(fs, a', b) == SameFile(fs, b, a')
  {
  }

  /** What `subprocess.run([...], capture_output=True)` did: it completed
      (with any exit status, since `check=True` is not passed) and printed
      `stdout`, or it raised `CalledProcessError`, or the executable could not
      be started (`FileNotFoundError`). */
  datatype ProcessResult = Completed(stdout: string) | CalledProcessError | ExecutableNotFound

  /** The active environment as both revisions read it: `VIRTUAL_ENV` is
      taken to be set only when it holds a non-empty string. */
  function ActiveEnv(virtualEnv: Option<string>): (r: Option<string>)
    ensures r.Some? <==> virtualEnv.Some? && virtualEnv.value != ""
    ensures r.Some? ==> r == virtualEnv
  {
    match virtualEnv
    case Some(s) => if s != "" then virtualEnv else None
    case None => None
  }

  /** How a run of `main` ends: with its return value, or with an uncaught
      exception. */
  datatype Status = Exited(code: int) | Uncaught

  /** What `main` decides for one invocation: the target is not a directory,
      an exception escapes, or it carries out `action`. */
  datatype Verdict<A> = NotADirectory | Crashed | Act(action: A)

  function StatusOf<A>(v: Verdict<A>): (s: Status)
    ensures s == Exited(1) <==> v.NotADirectory?
    ensures s == Uncaught <==> v.Crashed?
    ensures s == Exited(0) <==> v.Act?
  {
    match v
    case NotADirectory => Exited(1)
    case Crashed => Uncaught
    case Act(_) => Exited(0)
  }

  /** The text stream `main` writes its command to. */
  class OutputStream {
    var text: string

    constructor ()
      ensures text == ""
    {
      text := "";
    }

    /** `stream.write(s)` */
    method Write(s: string)
      modifies this
      ensures text == old(text) + s
    {
      text := text + s;
    }

    /** `print(line, file=stream)`: the line, then a newline. */
    method Print(line: string)
      modifies this
      ensures text == old(text) + line + "\n"
    {
      Write(line);
      Write("\n");
    }
  }
}
