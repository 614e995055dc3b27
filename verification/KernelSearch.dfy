/** The search for a kernel: candidate names, the directories they are tried in, and
    what the search does to `module_path`. */
module KernelSearch {
  import opened Optional
  import opened Splitting
  import opened Buffers

  type Environment = map<string, string>

  const BOOTPATH := "/boot/"
  const MODULEPATH := "module_path"

  /** One call of `load`. */
  datatype Attempt = Attempt(modulePath: Option<string>, kernel: string, flags: Option<string>)

  function Get(env: Environment, name: string): Option<string> {
    if name in env then Some(env[name]) else None
  }

  /** The names in a `;`-separated list, as repeated `parse-;` yields them. */
  function Candidates(list: string): (names: seq<string>)
    ensures names != []
    decreases |list|
  {
    var n := Find(';', list);
    [list[..n]] + if n + 1 >= |list| then [] else Candidates(list[n + 1..])
  }

  lemma CandidatesStep(list: string)
    ensures var n := Find(';', list);
      if n + 1 < |list| then
        && Candidates(list) == [list[..n]] + Candidates(list[n + 1..])
        && Split(';', list) == [list[..n]] + Split(';', list[n + 1..])
      else
        && Candidates(list) == [list[..n]]
        && Split(';', list) == if n == |list| then [list] else [list[..n]] + [[]]
  {}

  /** They are the pieces between semicolons, less a last empty piece. */
  lemma {:induction false} CandidatesAreSplit(list: string)
    ensures Split(';', list)
         == if list != [] && list[|list| - 1] == ';' then Candidates(list) + [[]] else Candidates(list)
    decreases |list|
  {
    hide Candidates, Split;
    FindMeans(';', list);
    CandidatesStep(list);
    var n := Find(';', list);
    if n == |list| {
      assert list[..n] == list;
    } else if n + 1 < |list| {
      var rest := list[n + 1..];
      CandidatesAreSplit(rest);
      assert [list[..n]] + (Candidates(rest) + [[]]) == ([list[..n]] + Candidates(rest)) + [[]];
    }
  }

  function Plan(modulePath: Option<string>, names: seq<string>, flags: Option<string>): seq<Attempt> {
    seq(|names|, i requires 0 <= i < |names| => Attempt(modulePath, names[i], flags))
  }

  function ListPlan(modulePath: Option<string>, list: Option<string>, flags: Option<string>): seq<Attempt> {
    if list.None? then [] else Plan(modulePath, Candidates(list.value), flags)
  }

  /** What `load_a_kernel` would try, in order. */
  function KernelPlan(env: Environment, modulePath: Option<string>, flags: Option<string>): seq<Attempt> {
    ListPlan(modulePath, Get(env, "bootfile"), flags) + ListPlan(modulePath, Get(env, "kernel"), flags)
  }

  function DirectoryPlan(env: Environment, path: string, flags: Option<string>): seq<Attempt> {
    KernelPlan(env, Some(BOOTPATH + path), flags) + KernelPlan(env, Some(path), flags)
  }

  /** Room for the longest `module_path` that a directory may lead to. */
  function Room(env: Environment, path: string): nat {
    |BOOTPATH| + |path| + if MODULEPATH in env then 1 + |env[MODULEPATH]| else 0
  }

  /** `module_path` after a kernel was loaded from a directory. */
  function Prepended(env: Environment, directory: string): Environment {
    env[MODULEPATH := directory + if MODULEPATH in env then ";" + env[MODULEPATH] else ""]
  }

  /** The loader: whether an attempt succeeds may depend on all the attempts before it. */
  type Loader = (seq<Attempt>, Attempt) -> bool

  datatype Search = Search(log: seq<Attempt>, ok: bool)

  /** Attempts in turn up to the first that succeeds. */
  function Try(log: seq<Attempt>, plan: seq<Attempt>, loads: Loader): Search
    decreases |plan|
  {
    if plan == [] then Search(log, false)
    else if loads(log, plan[0]) then Search(log + [plan[0]], true)
    else Try(log + [plan[0]], plan[1..], loads)
  }

  /** The first `i` attempts of the plan fail, each after those before it. */
  ghost predicate FailBefore(log: seq<Attempt>, plan: seq<Attempt>, loads: Loader, i: nat)
    requires i <= |plan|
  {
    forall j :: 0 <= j < i ==> !loads(log + plan[..j], plan[j])
  }

  lemma ShiftLog(log: seq<Attempt>, plan: seq<Attempt>, j: nat)
    requires j < |plan|
    ensures log + plan[..j + 1] == log + [plan[0]] + plan[1..][..j]
  {}

  /** The search stops at the first attempt that succeeds, and fails when none does. */
  lemma {:induction false} TryMeans(log: seq<Attempt>, plan: seq<Attempt>, loads: Loader) returns (i: nat)
    ensures i <= |plan| && FailBefore(log, plan, loads, i)
    ensures Try(log, plan, loads)
         == if i == |plan| then Search(log + plan, false) else Search(log + plan[..i + 1], true)
    ensures i < |plan| ==> loads(log + plan[..i], plan[i])
    decreases |plan|
  {
    assert log + plan[..0] == log;
    if plan == [] {
      i := 0;
    } else if loads(log, plan[0]) {
      i := 0;
      assert plan[..1] == [plan[0]];
    } else {
      i := TryMeans(log + [plan[0]], plan[1..], loads);
      forall j | 0 <= j <= i ensures log + plan[..j + 1] == log + [plan[0]] + plan[1..][..j] {
        ShiftLog(log, plan, j);
      }
      forall j | 0 <= j < i + 1 ensures !loads(log + plan[..j], plan[j]) {
        if j > 0 {
          ShiftLog(log, plan, j - 1);
        }
      }
      ShiftLog(log, plan, |plan| - 1);
      if i + 1 < |plan| {
        ShiftLog(log, plan, i + 1);
      }
      assert plan[..|plan|] == plan && plan[1..][..|plan| - 1] == plan[1..];
      i := i + 1;
    }
  }

  lemma {:induction false} TryAppend(log: seq<Attempt>, a: seq<Attempt>, b: seq<Attempt>, loads: Loader)
    ensures var first := Try(log, a, loads);
      Try(log, a + b, loads) == if first.ok then first else Try(first.log, b, loads)
    decreases |a|
  {
    if a == [] {
      assert a + b == b;
    } else {
      assert (a + b)[1..] == a[1..] + b;
      TryAppend(log + [a[0]], a[1..], b, loads);
    }
  }

  lemma TryNothing(log: seq<Attempt>, loads: Loader)
    ensures Try(log, [], loads) == Search(log, false)
  {}

  lemma PlanAppend(modulePath: Option<string>, first: string, rest: seq<string>, flags: Option<string>)
    ensures Plan(modulePath, [first] + rest, flags)
         == [Attempt(modulePath, first, flags)] + Plan(modulePath, rest, flags)
  {}

  /** The text before the first semicolon, and what follows it. */
  method ParseSemicolon(list: string) returns (rest: string, piece: string)
    ensures var n := Find(';', list);
      piece == list[..n] && rest == if n < |list| then list[n + 1..] else []
  {
    var i := 0;
    while i < |list| && list[i] != ';'
      invariant i <= |list| && Free(';', list[..i])
    {
      i := i + 1;
    }
    FindIs(';', list[..i], list[i..]);
    assert list == list[..i] + list[i..];
    piece := list[..i];
    rest := list[i..];
    if |rest| != 0 {
      rest := rest[1..];
    }
  }

  lemma SameEnvironment(a: Environment, b: Environment)
    requires Get(a, MODULEPATH) == Get(b, MODULEPATH) && a - {MODULEPATH} == b - {MODULEPATH}
    ensures a == b
  {
    forall name ensures Get(a, name) == Get(b, name) {
      if name != MODULEPATH {
        assert Get(a, name) == Get(a - {MODULEPATH}, name) && Get(b, name) == Get(b - {MODULEPATH}, name);
      }
    }
    assert forall name :: name in a ==> Get(b, name).Some?;
    assert forall name :: name in b ==> Get(a, name).Some?;
  }

  lemma PlanIgnoresModulePath(env: Environment, value: string, modulePath: Option<string>, flags: Option<string>)
    ensures KernelPlan(env[MODULEPATH := value], modulePath, flags) == KernelPlan(env, modulePath, flags)
  {}

  /** A kernel found from a directory is the last attempt of the log, made in that directory. */
  lemma LastAttempt(
    env: Environment, log: seq<Attempt>, modulePath: Option<string>, flags: Option<string>, loads: Loader)
    requires Try(log, KernelPlan(env, modulePath, flags), loads).ok
    ensures var log' := Try(log, KernelPlan(env, modulePath, flags), loads).log;
      log' != [] && log'[|log'| - 1].modulePath == modulePath
  {
    hide Try, Candidates;
    var plan := KernelPlan(env, modulePath, flags);
    var i := TryMeans(log, plan, loads);
    assert plan[i].modulePath == modulePath;
  }

  /** Attempts made one after the other: all but the last fail, and the last succeeds if and only
      if the search does. */
  ghost predicate MadeInTurn(before: seq<Attempt>, made: seq<Attempt>, ok: bool, loads: Loader) {
    && (forall i :: 0 <= i < |made| - 1 ==> !loads(before + made[..i], made[i]))
    && (ok <==> made != [] && loads(before + made[..|made| - 1], made[|made| - 1]))
  }

  /** The kernels to try: those of `bootfile` and then those of `kernel`. */
  function KernelNames(env: Environment): seq<string> {
    (if "bootfile" in env then Candidates(env["bootfile"]) else [])
      + (if "kernel" in env then Candidates(env["kernel"]) else [])
  }

  lemma TryMade(before: seq<Attempt>, plan: seq<Attempt>, loads: Loader)
    ensures var search := Try(before, plan, loads);
      && before <= search.log
      && var made := search.log[|before|..];
      && |made| <= |plan| && made == plan[..|made|] && MadeInTurn(before, made, search.ok, loads)
      && (!search.ok ==> |made| == |plan|)
  {
    hide Try;
    var i := TryMeans(before, plan, loads);
    var n := if i == |plan| then i else i + 1;
    assert plan[..|plan|] == plan;
    assert (before + plan[..n])[|before|..] == plan[..n];
    assert forall j :: 0 <= j < n ==> plan[..n][..j] == plan[..j];
  }

  lemma KernelPlanAt(env: Environment, modulePath: Option<string>, flags: Option<string>)
    ensures |KernelPlan(env, modulePath, flags)| == |KernelNames(env)|
    ensures forall i :: 0 <= i < |KernelNames(env)| ==>
      KernelPlan(env, modulePath, flags)[i] == Attempt(modulePath, KernelNames(env)[i], flags)
  {
    hide Candidates;
  }

  /** Attempt `i` of a search through a directory: all kernels with `/boot/` first. */
  function DirectoryAttempt(names: seq<string>, path: string, flags: Option<string>, i: nat): Attempt
    requires i < 2 * |names|
  {
    if i < |names| then Attempt(Some("/boot/" + path), names[i], flags)
    else Attempt(Some(path), names[i - |names|], flags)
  }

  lemma DirectoryPlanAt(env: Environment, path: string, flags: Option<string>, i: nat)
    requires i < 2 * |KernelNames(env)|
    ensures |DirectoryPlan(env, path, flags)| == 2 * |KernelNames(env)|
    ensures DirectoryPlan(env, path, flags)[i] == DirectoryAttempt(KernelNames(env), path, flags, i)
  {
    hide KernelPlan, KernelNames;
    KernelPlanAt(env, Some("/boot/" + path), flags);
    KernelPlanAt(env, Some(path), flags);
  }

  lemma DirectoryPlanSize(env: Environment, path: string, flags: Option<string>)
    ensures |DirectoryPlan(env, path, flags)| == 2 * |KernelNames(env)|
  {
    hide KernelPlan, KernelNames;
    KernelPlanAt(env, Some("/boot/" + path), flags);
    KernelPlanAt(env, Some(path), flags);
  }

  /** The attempts of a search through a directory: every kernel with `/boot/` in front of the path
      and then, if all of these fail, every kernel with the path alone, up to the first success. */
  ghost predicate DirectoryTried(before: seq<Attempt>, log: seq<Attempt>, ok: bool, env: Environment, path: string,
                                 flags: Option<string>, loads: Loader)
  {
    && before <= log
    && var names, made := KernelNames(env), log[|before|..];
    && |made| <= 2 * |names| && MadeInTurn(before, made, ok, loads) && (!ok ==> |made| == 2 * |names|)
    && forall i :: 0 <= i < |made| ==> made[i] == DirectoryAttempt(names, path, flags, i)
  }

  lemma DirectoryMade(before: seq<Attempt>, log: seq<Attempt>, ok: bool, env: Environment, path: string,
                      flags: Option<string>, loads: Loader)
    requires Search(log, ok) == Try(before, DirectoryPlan(env, path, flags), loads)
    ensures DirectoryTried(before, log, ok, env, path, flags, loads)
  {
    hide Try, DirectoryPlan, KernelNames, MadeInTurn;
    TryMade(before, DirectoryPlan(env, path, flags), loads);
    DirectoryPlanSize(env, path, flags);
    var names, made := KernelNames(env), log[|before|..];
    forall i | 0 <= i < |made| ensures made[i] == DirectoryAttempt(names, path, flags, i) {
      assert made[i] == DirectoryPlan(env, path, flags)[i];
      DirectoryPlanAt(env, path, flags, i);
    }
  }

  /** The directory search if there is memory for it, and then the path as a list of kernels. */
  function PathPlan(env: Environment, path: string, flags: Option<string>, memory: nat): seq<Attempt> {
    (if Room(env, path) <= memory then DirectoryPlan(env, path, flags) else [])
      + ListPlan(Get(env, MODULEPATH), Some(path), flags)
  }

  lemma PathPlanAt(env: Environment, path: string, flags: Option<string>, memory: nat, i: nat)
    requires i < |PathPlan(env, path, flags, memory)|
    ensures var names, files := KernelNames(env), Candidates(path);
      var tried := if Room(env, path) <= memory then 2 * |names| else 0;
      && i < tried + |files|
      && PathPlan(env, path, flags, memory)[i]
           == if i < tried then DirectoryAttempt(names, path, flags, i)
              else Attempt(Get(env, "module_path"), files[i - tried], flags)
  {
    hide DirectoryPlan, KernelNames, Candidates, Room, DirectoryAttempt;
    DirectoryPlanSize(env, path, flags);
    if i < 2 * |KernelNames(env)| {
      DirectoryPlanAt(env, path, flags, i);
    }
  }

  lemma PathPlanSize(env: Environment, path: string, flags: Option<string>, memory: nat)
    ensures |PathPlan(env, path, flags, memory)|
         == (if Room(env, path) <= memory then 2 * |KernelNames(env)| else 0) + |Candidates(path)|
  {
    hide DirectoryPlan, KernelNames, Candidates, Room;
    DirectoryPlanSize(env, path, flags);
  }

  /** The same, and if all of it fails, or there was no memory for it, every kernel of the path taken as
      a list, under the `module_path` there was. */
  ghost predicate PathTried(before: seq<Attempt>, log: seq<Attempt>, ok: bool, env: Environment, path: string,
                            flags: Option<string>, memory: nat, loads: Loader)
  {
    && before <= log
    && var names, files, made := KernelNames(env), Candidates(path), log[|before|..];
    && var tried := if Room(env, path) <= memory then 2 * |names| else 0;
    && |made| <= tried + |files| && MadeInTurn(before, made, ok, loads) && (!ok ==> |made| == tried + |files|)
    && (forall i :: 0 <= i < |made| && i < tried ==> made[i] == DirectoryAttempt(names, path, flags, i))
    && (forall i :: tried <= i < |made| ==> made[i].kernel == files[i - tried])
    && (forall i :: tried <= i < |made| ==> made[i].modulePath == Get(env, "module_path") && made[i].flags == flags)
  }

  lemma PathMade(before: seq<Attempt>, log: seq<Attempt>, ok: bool, env: Environment, path: string,
                 flags: Option<string>, memory: nat, loads: Loader)
    requires Search(log, ok) == Try(before, PathPlan(env, path, flags, memory), loads)
    ensures PathTried(before, log, ok, env, path, flags, memory, loads)
  {
    hide Try, PathPlan, KernelNames, MadeInTurn, Candidates, Room;
    TryMade(before, PathPlan(env, path, flags, memory), loads);
    PathPlanSize(env, path, flags, memory);
    var names, files, made := KernelNames(env), Candidates(path), log[|before|..];
    var tried := if Room(env, path) <= memory then 2 * |names| else 0;
    forall i | 0 <= i < |made|
      ensures i < tried ==> made[i] == DirectoryAttempt(names, path, flags, i)
      ensures i >= tried ==> made[i] == Attempt(Get(env, "module_path"), files[i - tried], flags)
    {
      assert made[i] == PathPlan(env, path, flags, memory)[i];
      PathPlanAt(env, path, flags, memory, i);
    }
  }

  class KernelLoader {
    var env: Environment
    var log: seq<Attempt>
    const loads: Loader

    constructor (env: Environment, loads: Loader)
      ensures this.env == env && log == [] && this.loads == loads
    {
      this.env, log, this.loads := env, [], loads;
    }

    method Load(kernel: string, flags: Option<string>) returns (ok: bool)
      modifies `log
      ensures var attempt := Attempt(Get(env, MODULEPATH), kernel, flags);
        log == old(log) + [attempt] && ok == loads(old(log), attempt)
    {
      var attempt := Attempt(Get(env, MODULEPATH), kernel, flags);
      ok := loads(log, attempt);
      log := log + [attempt];
    }

    /** Tries the kernels of a `;`-separated list until one loads. */
    method TryMultipleKernels(list: string, flags: Option<string>) returns (ok: bool)
      modifies `log
      ensures Search(log, ok) == Try(old(log), ListPlan(Get(env, MODULEPATH), Some(list), flags), loads)
    {
      ghost var mp := Get(env, MODULEPATH);
      var rest := list;
      while true
        invariant Try(old(log), Plan(mp, Candidates(list), flags), loads)
               == Try(log, Plan(mp, Candidates(rest), flags), loads)
        decreases |rest|
      {
        ghost var names := Candidates(rest);
        var piece;
        rest, piece := ParseSemicolon(rest);
        PlanAppend(mp, piece, names[1..], flags);
        assert names == [piece] + names[1..];
        ok := Load(piece, flags);
        if ok {
          return;
        }
        assert Plan(mp, names, flags)[1..] == Plan(mp, names[1..], flags);
        if |rest| == 0 {
          assert Plan(mp, names[1..], flags) == [];
          return;
        }
      }
    }

    method LoadAKernel(flags: Option<string>) returns (ok: bool)
      modifies `log
      ensures Search(log, ok) == Try(old(log), KernelPlan(env, Get(env, MODULEPATH), flags), loads)
    {
      ghost var mp := Get(env, MODULEPATH);
      TryAppend(log, ListPlan(mp, Get(env, "bootfile"), flags), ListPlan(mp, Get(env, "kernel"), flags), loads);
      if "bootfile" in env {
        ok := TryMultipleKernels(env["bootfile"], flags);
        if ok {
          return;
        }
      }
      if "kernel" in env {
        ok := TryMultipleKernels(env["kernel"], flags);
      } else {
        ok := false;
      }
    }

    /** Tries the kernels from one directory. */
    method TryDirectory(directory: string, flags: Option<string>) returns (ok: bool)
      modifies `env, `log
      ensures env == old(env)[MODULEPATH := directory]
      ensures Search(log, ok) == Try(old(log), KernelPlan(old(env), Some(directory), flags), loads)
      ensures ok ==> log != [] && log[|log| - 1].modulePath == Some(directory)
    {
      ghost var plan := KernelPlan(env, Some(directory), flags);
      env := env[MODULEPATH := directory];
      assert KernelPlan(env, Some(directory), flags) == plan;
      ok := LoadAKernel(flags);
      if ok {
        LastAttempt(env, old(log), Some(directory), flags, loads);
      }
    }

    /** Puts the old `module_path` after the directory that the buffer holds. */
    method Prepend(buffer: array<char>, len: nat, oldModulePath: Option<string>)
      requires len + (if oldModulePath.None? then 0 else 1 + |oldModulePath.value|) <= buffer.Length
      requires Get(env, MODULEPATH) == Some(buffer[..len])
      modifies `env, buffer
      ensures env == old(env)[MODULEPATH :=
        old(buffer[..len]) + if oldModulePath.None? then "" else ";" + oldModulePath.value]
    {
      ghost var directory := buffer[..len];
      match oldModulePath
      case None =>
        assert directory + "" == directory;
        assert env == env[MODULEPATH := directory];
      case Some(previous) =>
        var len' := Strcat(buffer, len, ";");
        len' := Strcat(buffer, len', previous);
        assert buffer[..len'] == directory + (";" + previous);
        env := env[MODULEPATH := buffer[..len']];
    }

    /** `module_path` reads as it did, and no other variable changes. */
    method RestoreEnv(oldModulePath: Option<string>)
      modifies `env
      ensures Get(env, MODULEPATH) == oldModulePath
      ensures env - {MODULEPATH} == old(env) - {MODULEPATH}
    {
      match oldModulePath
      case None => env := env - {MODULEPATH};
      case Some(value) => env := env[MODULEPATH := value];
    }

    /** Tries the kernels with `/boot/` and then without it in front of the path; the buffer
        holds the directory tried last. */
    method TryDirectories(path: string, flags: Option<string>, buffer: array<char>) returns (ok: bool, len: nat)
      requires |BOOTPATH| + |path| <= buffer.Length
      modifies `env, `log, buffer
      ensures Search(log, ok) == Try(old(log), DirectoryPlan(old(env), path, flags), loads)
      ensures len <= |BOOTPATH| + |path| && buffer[..len] in [BOOTPATH + path, path]
      ensures env == old(env)[MODULEPATH := buffer[..len]]
      ensures ok ==> log != [] && log[|log| - 1].modulePath == Some(buffer[..len])
    {
      hide Try, KernelPlan;
      TryAppend(log, KernelPlan(env, Some(BOOTPATH + path), flags), KernelPlan(env, Some(path), flags), loads);
      PlanIgnoresModulePath(env, BOOTPATH + path, Some(path), flags);
      len := Strcat(buffer, 0, BOOTPATH);
      len := Strcat(buffer, len, path);
      assert buffer[..len] == BOOTPATH + path;
      ok := TryDirectory(buffer[..len], flags);
      if !ok {
        len := Strcat(buffer, 0, path);
        assert buffer[..len] == path;
        ok := TryDirectory(buffer[..len], flags);
      }
    }

    /** Tries the kernels with `/boot/` and then without it in front of the path. A failed
        search leaves the environment as it was; a successful one leaves the directory of
        the kernel in front of the old `module_path`. */
    method LoadFromDirectory(path: string, flags: Option<string>, memory: nat) returns (ok: bool)
      modifies this
      ensures Room(old(env), path) > memory ==> !ok && log == old(log)
      ensures Room(old(env), path)
        == |"/boot/"| + |path| + if "module_path" in old(env) then |";"| + |old(env)["module_path"]| else 0
      ensures Room(old(env), path) <= memory ==>
        Search(log, ok) == Try(old(log), DirectoryPlan(old(env), path, flags), loads)
      ensures Room(old(env), path) <= memory ==>
        DirectoryTried(old(log), log, ok, old(env), path, flags, loads)
      ensures !ok ==> env == old(env)
      ensures ok ==> log != [] && log[|log| - 1].modulePath in {Some(BOOTPATH + path), Some(path)}
      ensures ok ==> env == Prepended(old(env), log[|log| - 1].modulePath.value)
      ensures ok ==> "module_path" in env
      ensures ok ==>
        var previous := if "module_path" in old(env) then ";" + old(env)["module_path"] else "";
        env["module_path"] == log[|log| - 1].modulePath.value + previous
    {
      hide Try, DirectoryPlan, DirectoryTried;
      var oldModulePath := Get(env, MODULEPATH);
      var size := |BOOTPATH| + |path| + if oldModulePath.None? then 0 else 1 + |oldModulePath.value|;
      if size > memory {
        return false;
      }
      var buffer := new char[size];
      var len;
      ok, len := TryDirectories(path, flags, buffer);
      DirectoryMade(old(log), log, ok, old(env), path, flags, loads);
      if ok {
        Prepend(buffer, len, oldModulePath);
      } else {
        assert env - {MODULEPATH} == old(env) - {MODULEPATH};
        RestoreEnv(oldModulePath);
        SameEnvironment(env, old(env));
      }
    }

    /** Takes the path for a directory, and failing that for a list of kernels. */
    method LoadDirectoryOrFile(path: string, flags: Option<string>, memory: nat) returns (ok: bool)
      modifies this
      ensures var asDirectory :=
          Try(old(log), if Room(old(env), path) <= memory then DirectoryPlan(old(env), path, flags) else [], loads);
        if asDirectory.ok then
          ok && log == asDirectory.log && log != [] && log[|log| - 1].modulePath.Some?
          && env == Prepended(old(env), log[|log| - 1].modulePath.value)
        else
          env == old(env)
          && Search(log, ok) == Try(asDirectory.log, ListPlan(Get(old(env), MODULEPATH), Some(path), flags), loads)
      ensures PathTried(old(log), log, ok, old(env), path, flags, memory, loads)
    {
      hide Try, DirectoryPlan, ListPlan, Candidates, DirectoryTried, PathTried;
      ghost var asDirectory := if Room(env, path) <= memory then DirectoryPlan(env, path, flags) else [];
      ghost var asList := ListPlan(Get(env, MODULEPATH), Some(path), flags);
      TryAppend(log, asDirectory, asList, loads);
      TryNothing(log, loads);
      ok := LoadFromDirectory(path, flags, memory);
      if !ok {
        ok := TryMultipleKernels(path, flags);
      }
      PathMade(old(log), log, ok, old(env), path, flags, memory, loads);
    }
  }
}
