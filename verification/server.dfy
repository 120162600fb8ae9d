/**
 The worker and master threads: `worker_thread` runs one command line
 (parse, validate, lock the target, perform the operation, unlock) and, in
 join mode, `master_thread` strips the newline from each input line,
 appends a timestamped audit line to the commands file and runs the worker
 to completion before reading the next line.

 Each worker is one atomic step on the pair (file system, registry). Its
 registry effect is the sequence of `enqueue`/`dequeue` calls it makes
 (`LockCalls`); its file effect is the request-kind switch (`Perform`).
 The two are independent, so the state after the worker is the pair of
 both effects.
 */
module Server {
  import opened Wrappers
  import opened TicketLocks
  import opened OpenFiles
  import opened Requests
  import opened Files

  /** What the C program leaves undefined, made explicit: the contents of
      a worker thread's uninitialised `text` buffer, which a write request
      without free text writes. Each worker has its own. */
  datatype Undefined = Undefined(staleText: string)

  /** One registry call: `enqueue(path)` or `dequeue(path)`. */
  datatype Call = Lock(path: Path) | Unlock(path: Path)

  /** The shared file a request reads into, if any. */
  function OutputOf(k: Kind): (r: Option<Path>)
    ensures k == Read ==> r == Some(ReadFile)
    ensures k == Empty ==> r == Some(EmptyFile)
    ensures r.Some? <==> k == Read || k == Empty
    ensures r.Some? ==> r.value != CommandsFile
  {
    SharedFilesDistinct();
    match k
    case Read => Some(ReadFile)
    case Empty => Some(EmptyFile)
    case _ => None
  }

  /** Replays calls against a stack of held paths: `Some(stack)` when every
      `dequeue` releases the path most recently locked and not yet
      released. */
  function Nest(cs: seq<Call>, held: seq<Path>): Option<seq<Path>>
    decreases |cs|
  {
    if |cs| == 0 then Some(held)
    else match cs[0]
      case Lock(p) => Nest(cs[1..], held + [p])
      case Unlock(p) =>
        if |held| > 0 && held[|held| - 1] == p then Nest(cs[1..], held[..|held| - 1]) else None
  }

  /** Every lock taken is released exactly once, in reverse order. */
  predicate Balanced(cs: seq<Call>)
  {
    Nest(cs, []) == Some([])
  }

  /** The registry calls of a worker: `enqueue` of the target; for a read
      or an empty request whose target is not the output file, `read_file`
      locks and unlocks the output file while the target is held; then
      `dequeue` of the target. The target is always locked first and only
      once, the output second, and all locks are released in reverse
      order. */
  function LockCalls(req: Request): (cs: seq<Call>)
    ensures Balanced(cs)
    ensures |cs| >= 2 && cs[0] == Lock(req.path) && cs[|cs| - 1] == Unlock(req.path)
    ensures forall i :: 0 < i < |cs| ==> cs[i] != Lock(req.path)
    ensures |cs| == 4 <==> OutputOf(req.kind).Some? && OutputOf(req.kind).value != req.path
    ensures |cs| == 4 ==> cs[1] == Lock(OutputOf(req.kind).value)
    ensures |cs| == 2 || |cs| == 4
  {
    match OutputOf(req.kind)
    case Some(out) =>
      if out != req.path then
        NestedBalanced(req.path, out);
        [Lock(req.path), Lock(out), Unlock(out), Unlock(req.path)]
      else
        SingleBalanced(req.path);
        [Lock(req.path), Unlock(req.path)]
    case None =>
      SingleBalanced(req.path);
      [Lock(req.path), Unlock(req.path)]
  }

  /** Locking and unlocking one path is balanced. */
  lemma SingleBalanced(p: Path)
    ensures Balanced([Lock(p), Unlock(p)])
  {
    var cs := [Lock(p), Unlock(p)];
    assert Nest(cs, []) == Nest(cs[1..], [p]);
    assert Nest(cs[1..], [p]) == Nest([], []);
  }

  /** A lock nested inside another and released first is balanced. */
  lemma NestedBalanced(p: Path, o: Path)
    ensures Balanced([Lock(p), Lock(o), Unlock(o), Unlock(p)])
  {
    var cs := [Lock(p), Lock(o), Unlock(o), Unlock(p)];
    assert [] + [p] == [p] && [p] + [o] == [p, o] && [p, o][..1] == [p];
    assert Nest(cs, []) == Nest(cs[1..], [p]);
    assert Nest(cs[1..], [p]) == Nest(cs[2..], [p, o]);
    assert Nest(cs[2..], [p, o]) == Nest(cs[3..], [p]);
    assert Nest(cs[3..], [p]) == Nest([], []);
  }

  /** The registry after one call. */
  function ApplyCall(r: Registry, c: Call): Registry
  {
    match c
    case Lock(p) => Enqueue(r, p).registry
    case Unlock(p) => Dequeue(r, p)
  }

  /** The registry after a sequence of calls. */
  function ApplyCalls(r: Registry, cs: seq<Call>): Registry
    decreases |cs|
  {
    if |cs| == 0 then r else ApplyCalls(ApplyCall(r, cs[0]), cs[1..])
  }

  /** The request-kind switch of `worker_thread`, run while the target is
      locked.
      - read: `read_file(path, "read.txt", cmdline)`.
      - write: `write_file(path, text)`.
      - empty: `read_file(path, "empty.txt", NULL)`, then `empty_file` only
        if that succeeded.
      - any other kind (the `default` branch): fail with no effect. */
  function Perform(fs: FileSystem, req: Request, line: string, u: Undefined): (r: Effect)
    ensures r.rc == 0 || r.rc == -1
    ensures req.kind == Invalid ==> r == Effect(fs, -1)
    ensures fs.Keys <= r.fs.Keys
    ensures SameExcept(fs, r.fs, {req.path, ReadFile, EmptyFile})
    ensures req.kind == Write ==>
      && r.rc == 0
      && req.path in r.fs
      && r.fs[req.path] == Contents(fs, req.path) + req.payload.GetOr(u.staleText) + "\n"
      && SameExcept(fs, r.fs, {req.path})
    ensures req.kind == Read ==>
      && (r.rc == 0 <==> req.path != ReadFile && req.path in fs)
      && (req.path == ReadFile ==> r.fs == fs)
      && (req.path != ReadFile ==> ReadFile in r.fs && SameExcept(fs, r.fs, {ReadFile}))
      && (r.rc == 0 ==> r.fs[ReadFile] == Contents(fs, ReadFile) + line + ": " + fs[req.path] + "\n")
      && (req.path != ReadFile && req.path !in fs ==> r.fs[ReadFile] == Contents(fs, ReadFile))
    ensures req.kind == Empty ==>
      && (r.rc == 0 <==> req.path != EmptyFile && req.path in fs)
      && (req.path == EmptyFile ==> r.fs == fs)
      && (req.path != EmptyFile ==> EmptyFile in r.fs && SameExcept(fs, r.fs, {req.path, EmptyFile}))
      && (r.rc == 0 ==>
            && req.path in r.fs && r.fs[req.path] == ""
            && r.fs[EmptyFile] == Contents(fs, EmptyFile) + fs[req.path] + "\n")
      && (req.path !in fs ==> req.path !in r.fs || req.path == EmptyFile)
      && (req.path != EmptyFile && req.path !in fs ==> r.fs[EmptyFile] == Contents(fs, EmptyFile))
  {
    match req.kind
    case Read => ReadFileInto(fs, req.path, ReadFile, Some(line))
    case Write => WriteFile(fs, req.path, req.payload.GetOr(u.staleText))
    case Empty =>
      var copied := ReadFileInto(fs, req.path, EmptyFile, None);
      if copied.rc == 0 then EmptyFileOp(copied.fs, req.path, Some(line)) else copied
    case Invalid => Effect(fs, -1)
  }

  /** The missing-file branch of `empty_file` is never reached from the
      worker: `empty_file` runs only after the read into the empty-output
      file succeeded, which requires the file to exist. */
  lemma EmptyMissingBranchUnreachable(fs: FileSystem, path: Path)
    requires ReadFileInto(fs, path, EmptyFile, None).rc == 0
    ensures path in ReadFileInto(fs, path, EmptyFile, None).fs
  {
  }

  datatype Server = Server(fs: FileSystem, registry: Registry)

  /** A worker's final state and return value (`parcel->return_value`). */
  datatype Outcome = Outcome(server: Server, rc: int)

  /** `worker_thread` on the command line `line`. A rejected request fails
      with -1 before any lock or file effect. An accepted request changes at
      most its target and the two shared output files, and returns 0 or
      -1. */
  function Worker(s: Server, line: string, u: Undefined): (o: Outcome)
    ensures Parse(line).Rejected? ==> o == Outcome(s, -1)
    ensures o.rc == 0 || o.rc == -1
    ensures s.fs.Keys <= o.server.fs.Keys
    ensures Parse(line).Accepted? ==>
      var req := Parse(line).req;
      && SameExcept(s.fs, o.server.fs, {req.path, ReadFile, EmptyFile})
      && o.server.registry == ApplyCalls(s.registry, LockCalls(req))
      && o.server.fs == Perform(s.fs, req, line, u).fs
      && o.rc == Perform(s.fs, req, line, u).rc
  {
    match Parse(line)
    case Rejected(_) => Outcome(s, -1)
    case Accepted(req) =>
      var e := Perform(s.fs, req, line, u);
      Outcome(Server(e.fs, ApplyCalls(s.registry, LockCalls(req))), e.rc)
  }

  /** A write request `write <path> <text>` with free text of at most 50
      characters (which may contain spaces) succeeds and appends the text
      as one line to its target; nothing else changes. */
  lemma WorkerWrites(s: Server, path: Path, text: string, u: Undefined)
    requires IsWord(path) && 0 < |text| <= MaxPayload
    ensures var o := Worker(s, Name(Write) + " " + path + " " + text, u);
      && o.rc == 0
      && path in o.server.fs
      && o.server.fs[path] == Contents(s.fs, path) + text + "\n"
      && SameExcept(s.fs, o.server.fs, {path})
  {
    ParseRoundTrip(Write, path, text);
  }

  /** An empty request `empty <path>` of an existing file other than the
      empty-output file records its contents there and truncates it. */
  lemma WorkerEmpties(s: Server, path: Path, u: Undefined)
    requires IsWord(path) && path in s.fs && path != EmptyFile
    ensures var o := Worker(s, Name(Empty) + " " + path, u);
      && o.rc == 0
      && path in o.server.fs && o.server.fs[path] == ""
      && EmptyFile in o.server.fs
      && o.server.fs[EmptyFile] == Contents(s.fs, EmptyFile) + s.fs[path] + "\n"
      && SameExcept(s.fs, o.server.fs, {path, EmptyFile})
  {
    ParseRoundTrip(Empty, path, "x");
  }

  /** A read request `read <path>` of a missing file fails and leaves the
      file missing. The read-output file is created if absent, but the
      "FILE DNE" line formatted into its unclosed stream never reaches it:
      its contents are unchanged, and so is every other file. */
  lemma WorkerReadsMissing(s: Server, path: Path, u: Undefined)
    requires IsWord(path) && path !in s.fs && path != ReadFile
    ensures var o := Worker(s, Name(Read) + " " + path, u);
      && o.rc == -1
      && path !in o.server.fs
      && ReadFile in o.server.fs
      && o.server.fs[ReadFile] == Contents(s.fs, ReadFile)
      && SameExcept(s.fs, o.server.fs, {ReadFile})
  {
    ParseRoundTrip(Read, path, "x");
  }

  /** An empty request `empty <path>` of a missing file fails before
      `empty_file` runs: the file stays missing, and the empty-output file
      is created if absent but its contents are unchanged, since the
      "FILE ALREADY EMPTY" line `read_file` formats stays in an unclosed
      stream. */
  lemma WorkerEmptiesMissing(s: Server, path: Path, u: Undefined)
    requires IsWord(path) && path !in s.fs && path != EmptyFile
    ensures var o := Worker(s, Name(Empty) + " " + path, u);
      && o.rc == -1
      && path !in o.server.fs
      && EmptyFile in o.server.fs
      && o.server.fs[EmptyFile] == Contents(s.fs, EmptyFile)
      && SameExcept(s.fs, o.server.fs, {EmptyFile})
  {
    ParseRoundTrip(Empty, path, "x");
  }

  /** Applying calls keeps the list at one node at most. */
  lemma {:induction false} ApplyCallsAtMostOne(r: Registry, cs: seq<Call>)
    requires |r.files| <= 1
    ensures |ApplyCalls(r, cs).files| <= 1
    decreases |cs|
  {
    if |cs| > 0 {
      AtMostOneNode(r, cs[0].path);
      ApplyCallsAtMostOne(ApplyCall(r, cs[0]), cs[1..]);
    }
  }

  /** After `enqueue(p)` on an idle registry, every node is idle except the
      one found for `p`, which has exactly one outstanding ticket. */
  lemma EnqueueOnIdle(r: Registry, p: Path)
    requires AllIdle(r)
    ensures var e := Enqueue(r, p).registry;
      && Idle(e.guard)
      && Find(e.files, p).Some?
      && var i := Find(e.files, p).value;
      && e.files[i].lock.waiting == e.files[i].lock.curr + 1
      && forall j :: 0 <= j < |e.files| && j != i ==> Idle(e.files[j].lock)
  {
    var e := Enqueue(r, p).registry;
    if Find(r.files, p).Some? {
      FindDependsOnPaths(e.files, r.files, p);
    }
  }

  /** `read_file`'s `enqueue` of the output file, made while the worker
      holds its target, is granted at once when the registry was idle
      before the worker's own `enqueue`, whether the output file's node is
      found or a new one replaces the list. */
  lemma OutputEnqueueGranted(r: Registry, p: Path, d: Path)
    requires AllIdle(r) && p != d
    ensures var e := Enqueue(Enqueue(r, p).registry, d);
      MayEnter(e.registry.files[Find(e.registry.files, d).value].lock, e.ticket)
  {
    var r1 := Enqueue(r, p).registry;
    EnqueueOnIdle(r, p);
    var e := Enqueue(r1, d);
    if Find(r1.files, d).Some? {
      FindDependsOnPaths(e.registry.files, r1.files, d);
    }
  }

  /** The worker pattern of a read or empty request: target locked, output
      locked and unlocked, target unlocked. From an idle registry it leaves
      an idle registry, whether or not the output's node dropped the
      target's. */
  lemma {:induction false} NestedIdle(r: Registry, p: Path, d: Path)
    requires AllIdle(r) && p != d
    ensures AllIdle(Dequeue(Dequeue(Enqueue(Enqueue(r, p).registry, d).registry, d), p))
  {
    var r1 := Enqueue(r, p).registry;
    EnqueueOnIdle(r, p);
    var i := Find(r1.files, p).value;
    var r2 := Enqueue(r1, d).registry;
    var r3 := Dequeue(r2, d);
    var r4 := Dequeue(r3, p);
    match Find(r1.files, d)
    case Some(k) =>
      assert k != i;
      FindDependsOnPaths(r2.files, r1.files, d);
      assert Paths(r3.files) == Paths(r1.files);
      FindDependsOnPaths(r3.files, r1.files, p);
      forall j | 0 <= j < |r4.files|
        ensures Idle(r4.files[j].lock)
      {
        if j != i && j != k {
          assert r4.files[j] == r3.files[j] == r2.files[j] == r1.files[j];
        } else if j == k {
          assert r4.files[k] == r3.files[k];
        } else {
          assert r3.files[i] == r2.files[i] == r1.files[i];
        }
      }
    case None =>
      assert r3.files == [Node(d, TicketLock(1, 1))];
      assert Find(r3.files, p).None?;
  }

  /** Applying a first call, then the rest. */
  lemma ApplyCallsCons(r: Registry, c: Call, cs: seq<Call>)
    ensures ApplyCalls(r, [c] + cs) == ApplyCalls(ApplyCall(r, c), cs)
  {
    assert ([c] + cs)[1..] == cs;
  }

  /** The registry effect of the two shapes of `LockCalls`. */
  lemma ApplyLockCalls(r: Registry, req: Request)
    ensures var cs := LockCalls(req);
      && (|cs| == 2 ==> ApplyCalls(r, cs) == Dequeue(Enqueue(r, req.path).registry, req.path))
      && (|cs| == 4 ==>
            var d := OutputOf(req.kind).value;
            ApplyCalls(r, cs) == Dequeue(Dequeue(Enqueue(Enqueue(r, req.path).registry, d).registry, d), req.path))
  {
    var cs := LockCalls(req);
    var p := req.path;
    var r1 := Enqueue(r, p).registry;
    if |cs| == 4 {
      var d := OutputOf(req.kind).value;
      assert cs == [Lock(p)] + ([Lock(d)] + ([Unlock(d)] + [Unlock(p)]));
      var r2 := Enqueue(r1, d).registry;
      var r3 := Dequeue(r2, d);
      ApplyCallsCons(r, Lock(p), [Lock(d)] + ([Unlock(d)] + [Unlock(p)]));
      ApplyCallsCons(r1, Lock(d), [Unlock(d)] + [Unlock(p)]);
      ApplyCallsCons(r2, Unlock(d), [Unlock(p)]);
      ApplyCallsCons(r3, Unlock(p), []);
    } else {
      assert cs == [Lock(p)] + [Unlock(p)];
      ApplyCallsCons(r, Lock(p), [Unlock(p)]);
      ApplyCallsCons(r1, Unlock(p), []);
    }
  }

  /** A worker leaves an idle registry idle, with at most one node: in join
      mode every `enqueue` of the next worker is granted at once. */
  lemma WorkerKeepsIdle(s: Server, line: string, u: Undefined)
    requires AllIdle(s.registry) && |s.registry.files| <= 1
    ensures AllIdle(Worker(s, line, u).server.registry)
    ensures |Worker(s, line, u).server.registry.files| <= 1
  {
    match Parse(line)
    case Rejected(_) =>
    case Accepted(req) =>
      var cs := LockCalls(req);
      ApplyCallsAtMostOne(s.registry, cs);
      ApplyLockCalls(s.registry, req);
      if |cs| == 4 {
        NestedIdle(s.registry, req.path, OutputOf(req.kind).value);
      } else {
        EnqueueDequeueIdle(s.registry, req.path);
      }
  }

  /** The newline strip of `master_thread`: the line up to the first
      newline, or all of it when there is none. */
  function StripNewline(buf: string): (line: string)
    ensures '\n' !in line
    ensures line <= buf
    ensures |line| < |buf| ==> buf[|line|] == '\n'
    decreases |buf|
  {
    if |buf| == 0 || buf[0] == '\n' then "" else [buf[0]] + StripNewline(buf[1..])
  }

  /** A line without a newline is left as it is, so stripping twice is the
      same as stripping once. */
  lemma {:induction false} StripNewlineIdempotent(buf: string)
    ensures '\n' !in buf ==> StripNewline(buf) == buf
    ensures StripNewline(StripNewline(buf)) == StripNewline(buf)
    decreases |buf|
  {
    if |buf| > 0 && buf[0] != '\n' {
      StripNewlineIdempotent(buf[1..]);
      var line := StripNewline(buf);
      StripNewlineIdempotent(line[1..]);
      assert line[1..] == StripNewline(buf[1..]);
    }
  }

  /** The audit line `[<timestamp>] <cmdline>` written to the commands
      file. */
  function AuditLine(stamp: string, line: string): (a: string)
    ensures |a| + 1 == |stamp| + |line| + 4
  {
    "[" + stamp + "] " + line
  }

  /** The first position at or after `i` holding `c`, or `|s|`. */
  function IndexOf(s: string, c: char, i: nat): (j: nat)
    requires i <= |s|
    ensures i <= j <= |s|
    ensures forall k :: i <= k < j ==> s[k] != c
    ensures j < |s| ==> s[j] == c
    decreases |s| - i
  {
    if i == |s| || s[i] == c then i else IndexOf(s, c, i + 1)
  }

  /** Reads an audit line back into its timestamp and command line. */
  function ParseAuditLine(a: string): Option<(string, string)>
  {
    if |a| == 0 || a[0] != '[' then None
    else
      var close := IndexOf(a, ']', 1);
      if close + 1 < |a| && a[close + 1] == ' ' then Some((a[1..close], a[close + 2..])) else None
  }

  /** Audit lines are unambiguous: the timestamp (a `ctime` string, which
      has no ']') and the command line are recovered from the line. */
  lemma AuditLineRoundTrip(stamp: string, line: string)
    requires ']' !in stamp
    ensures ParseAuditLine(AuditLine(stamp, line)) == Some((stamp, line))
  {
    var a := AuditLine(stamp, line);
    assert a[1..|stamp| + 1] == stamp;
    assert forall k :: 1 <= k < |stamp| + 1 ==> a[k] == stamp[k - 1];
    assert a[|stamp| + 1] == ']';
    var close := IndexOf(a, ']', 1);
    assert close == |stamp| + 1;
    assert a[|stamp| + 3..] == line;
  }

  /** One input line of the master thread, the timestamp it is read at, and
      the undefined state of the worker thread started for it. */
  datatype Input = Input(buf: string, stamp: string, u: Undefined)

  /** A worker whose line does not target the commands file leaves it as
      it is. */
  lemma WorkerKeepsCommands(s: Server, line: string, u: Undefined)
    requires Parse(line).Rejected? || Parse(line).req.path != CommandsFile
    ensures Contents(Worker(s, line, u).server.fs, CommandsFile) == Contents(s.fs, CommandsFile)
  {
    SharedFilesDistinct();
    if Parse(line).Accepted? {
      var req := Parse(line).req;
      assert CommandsFile !in {req.path, ReadFile, EmptyFile};
    }
  }

  /** One iteration of `master_thread` in join mode: strip the newline,
      append the audit line to the commands file (without taking its
      lock), then run the worker to completion. */
  function MasterStep(s: Server, input: Input): (o: Outcome)
    ensures s.fs.Keys <= o.server.fs.Keys && CommandsFile in o.server.fs
    ensures var line := StripNewline(input.buf);
      Parse(line).Rejected? ==>
        && o.rc == -1
        && o.server.registry == s.registry
        && o.server.fs == Append(s.fs, CommandsFile, AuditLine(input.stamp, line) + "\n")
  {
    var line := StripNewline(input.buf);
    var logged := WriteFile(s.fs, CommandsFile, AuditLine(input.stamp, line)).fs;
    Worker(Server(logged, s.registry), line, input.u)
  }

  /** One master iteration whose line does not target the commands file
      appends exactly its audit line there. */
  lemma MasterStepAudits(s: Server, input: Input)
    requires var line := StripNewline(input.buf);
      Parse(line).Rejected? || Parse(line).req.path != CommandsFile
    ensures Contents(MasterStep(s, input).server.fs, CommandsFile)
      == Contents(s.fs, CommandsFile) + (AuditLine(input.stamp, StripNewline(input.buf)) + "\n")
  {
    var line := StripNewline(input.buf);
    var logged := WriteFile(s.fs, CommandsFile, AuditLine(input.stamp, line)).fs;
    WorkerKeepsCommands(Server(logged, s.registry), line, input.u);
  }

  /** The master thread in join mode over a sequence of input lines. */
  function Serve(s: Server, inputs: seq<Input>): (r: Server)
    ensures s.fs.Keys <= r.fs.Keys
    ensures |inputs| > 0 ==> CommandsFile in r.fs
    decreases |inputs|
  {
    if |inputs| == 0 then s
    else Serve(MasterStep(s, inputs[0]).server, inputs[1..])
  }

  /** The audit lines of a sequence of inputs. */
  function AuditLines(inputs: seq<Input>): seq<string>
  {
    seq(|inputs|, i requires 0 <= i < |inputs| => AuditLine(inputs[i].stamp, StripNewline(inputs[i].buf)))
  }

  /** No request among the inputs targets the commands file. */
  predicate AuditUntouched(inputs: seq<Input>)
  {
    forall i :: 0 <= i < |inputs| ==>
      Parse(StripNewline(inputs[i].buf)).Rejected? || Parse(StripNewline(inputs[i].buf)).req.path != CommandsFile
  }

  /** Join mode keeps the registry idle with at most one node. */
  lemma {:induction false} ServeKeepsIdle(s: Server, inputs: seq<Input>)
    requires AllIdle(s.registry) && |s.registry.files| <= 1
    ensures AllIdle(Serve(s, inputs).registry) && |Serve(s, inputs).registry.files| <= 1
    decreases |inputs|
  {
    if |inputs| > 0 {
      var line := StripNewline(inputs[0].buf);
      var logged := WriteFile(s.fs, CommandsFile, AuditLine(inputs[0].stamp, line)).fs;
      WorkerKeepsIdle(Server(logged, s.registry), line, inputs[0].u);
      ServeKeepsIdle(MasterStep(s, inputs[0]).server, inputs[1..]);
    }
  }

  /** The audit lines of inputs with a first element. */
  lemma AuditLinesCons(inputs: seq<Input>)
    requires |inputs| > 0
    ensures AuditLines(inputs) == [AuditLine(inputs[0].stamp, StripNewline(inputs[0].buf))] + AuditLines(inputs[1..])
  {
  }

  /** Dropping the first input keeps the commands file untouched. */
  lemma AuditUntouchedTail(inputs: seq<Input>)
    requires |inputs| > 0 && AuditUntouched(inputs)
    ensures AuditUntouched(inputs[1..])
  {
    forall i | 0 <= i < |inputs[1..]|
      ensures Parse(StripNewline(inputs[1..][i].buf)).Rejected?
        || Parse(StripNewline(inputs[1..][i].buf)).req.path != CommandsFile
    {
      assert inputs[1..][i] == inputs[i + 1];
    }
  }

  /** The commands file is an audit trail: as long as no request writes to
      it, it grows by exactly one audit line per input, in input order. */
  lemma {:induction false} ServeAudits(s: Server, inputs: seq<Input>)
    requires AuditUntouched(inputs)
    ensures Contents(Serve(s, inputs).fs, CommandsFile) == Contents(s.fs, CommandsFile) + Lines(AuditLines(inputs))
    decreases |inputs|
  {
    if |inputs| > 0 {
      var next := MasterStep(s, inputs[0]).server;
      var first := AuditLine(inputs[0].stamp, StripNewline(inputs[0].buf));
      var rest := AuditLines(inputs[1..]);
      MasterStepAudits(s, inputs[0]);
      AuditUntouchedTail(inputs);
      ServeAudits(next, inputs[1..]);
      AuditLinesCons(inputs);
      AppendLinesCons(Contents(s.fs, CommandsFile), first, rest);
      assert Serve(s, inputs) == Serve(next, inputs[1..]);
    }
  }

  /** Appending one line and then the lines of the rest is appending the
      lines of the whole sequence. */
  lemma AppendLinesCons(before: string, t: string, ts: seq<string>)
    ensures (before + (t + "\n")) + Lines(ts) == before + Lines([t] + ts)
  {
    LinesCons(t, ts);
    assert (before + (t + "\n")) + Lines(ts) == before + ((t + "\n") + Lines(ts));
  }

  /** `Lines` of a sequence with a first element. */
  lemma {:induction false} LinesCons(t: string, ts: seq<string>)
    ensures Lines([t] + ts) == t + "\n" + Lines(ts)
    decreases |ts|
  {
    if |ts| > 0 {
      var init := ts[..|ts| - 1];
      LinesCons(t, init);
      assert ([t] + ts)[..|ts|] == [t] + init;
    }
  }
}
