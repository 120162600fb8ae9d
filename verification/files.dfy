/**
 The file operations `write_file`, `read_file` and `empty_file` over an
 abstract file system: a map from path to contents, where a path that is
 not a key names a file that does not exist.

 Opening a file is assumed to succeed. The lock calls that `read_file`
 makes on its destination are modelled separately (`Server.LockCalls`).
 */
module Files {
  import opened Wrappers

  type Path = string

  type FileSystem = map<Path, string>

  /** The shared output files. */
  const ReadFile: Path := "read.txt"
  const EmptyFile: Path := "empty.txt"
  const CommandsFile: Path := "commands.txt"

  /** The three shared files are distinct. */
  lemma SharedFilesDistinct()
    ensures CommandsFile != ReadFile && CommandsFile != EmptyFile && ReadFile != EmptyFile
  {
    assert |CommandsFile| == 12 && |ReadFile| == 8 && |EmptyFile| == 9;
  }

  /** An operation's effect: the file system afterwards and the C return
      value (0 on success, -1 on failure). */
  datatype Effect = Effect(fs: FileSystem, rc: int)

  /** What a file holds, the empty text for a missing file (as read back
      after `fopen(…, "a")` creates it). */
  function Contents(fs: FileSystem, p: Path): string
  {
    if p in fs then fs[p] else ""
  }

  /** Every path outside `changed` exists in `b` exactly when in `a`, with
      the same contents. */
  ghost predicate SameExcept(a: FileSystem, b: FileSystem, changed: set<Path>)
  {
    forall q :: q !in changed ==> (q in a <==> q in b) && (q in a ==> a[q] == b[q])
  }

  /** Opening `p` in append mode and writing `s`: the file exists
      afterwards, holds its old contents followed by `s`, and no other file
      changes. */
  function Append(fs: FileSystem, p: Path, s: string): (r: FileSystem)
    ensures p in r && r[p] == Contents(fs, p) + s
    ensures SameExcept(fs, r, {p})
  {
    fs[p := Contents(fs, p) + s]
  }

  /** `write_file(path, text, …)`: `text` and a newline are appended to the
      file, which is created if absent; the call succeeds. */
  function WriteFile(fs: FileSystem, path: Path, text: string): (r: Effect)
    ensures r.rc == 0
    ensures path in r.fs && r.fs[path] == Contents(fs, path) + text + "\n"
    ensures SameExcept(fs, r.fs, {path})
    ensures fs.Keys <= r.fs.Keys
  {
    Effect(Append(fs, path, text + "\n"), 0)
  }

  /** The lines `text + "\n"` of a sequence of texts, concatenated. */
  function Lines(texts: seq<string>): string
  {
    if |texts| == 0 then "" else Lines(texts[..|texts| - 1]) + texts[|texts| - 1] + "\n"
  }

  /** Writes to one file in sequence. */
  function WriteAll(fs: FileSystem, path: Path, texts: seq<string>): FileSystem
  {
    if |texts| == 0 then fs else WriteFile(WriteAll(fs, path, texts[..|texts| - 1]), path, texts[|texts| - 1]).fs
  }

  /** Successive writes to a file are never interleaved: the file holds its
      old contents followed by each text on its own line, in the order of
      the writes, and no other file changes. */
  lemma {:induction false} WritesAccumulate(fs: FileSystem, path: Path, texts: seq<string>)
    ensures Contents(WriteAll(fs, path, texts), path) == Contents(fs, path) + Lines(texts)
    ensures SameExcept(fs, WriteAll(fs, path, texts), {path})
    decreases |texts|
  {
    if |texts| > 0 {
      var init := texts[..|texts| - 1];
      var t := texts[|texts| - 1];
      WritesAccumulate(fs, path, init);
      var before := WriteAll(fs, path, init);
      var after := WriteFile(before, path, t).fs;
      assert WriteAll(fs, path, texts) == after;
      calc {
        Contents(after, path);
        Contents(before, path) + t + "\n";
        Contents(fs, path) + Lines(init) + t + "\n";
        { assert Lines(texts) == Lines(init) + t + "\n"; }
        Contents(fs, path) + Lines(texts);
      }
    }
  }

  /** The prefix `read_file` writes before the contents: the command line
      and ": ", or nothing for a NULL command line. */
  function Echo(cmdline: Option<string>): string
  {
    match cmdline
    case Some(c) => c + ": "
    case None => ""
  }

  /** The failure text `read_file` formats for a missing source:
      "<cmdline>: FILE DNE", or, for a NULL command line, the NULL string
      followed by ": FILE ALREADY EMPTY". Printing a NULL string is
      undefined behaviour: `nullText` stands for what the C library prints
      for it. */
  function MissingText(cmdline: Option<string>, nullText: string): string
  {
    match cmdline
    case Some(c) => c + ": FILE DNE\n"
    case None => nullText + ": FILE ALREADY EMPTY\n"
  }

  /** `read_file(src, dest, cmdline)` as the code writes it.
      - Reading a file into itself fails and changes nothing.
      - Otherwise the destination is opened for appending, which creates it
        if absent, and no other file changes.
      - A missing source fails. The failure text is formatted into the
        destination's stream, but that path jumps to `cleanup` without
        `fclose(dest)`, and the program never exits normally, so the text
        stays in an unflushed buffer: the destination's contents are
        unchanged.
      - An existing source succeeds, appending the echo, the source's
        contents and a newline, and closes the destination. The source is
        never modified. */
  function ReadFileInto(fs: FileSystem, src: Path, dest: Path, cmdline: Option<string>): (r: Effect)
    ensures src == dest ==> r == Effect(fs, -1)
    ensures r.rc == 0 <==> src != dest && src in fs
    ensures r.rc == 0 || r.rc == -1
    ensures src != dest ==> dest in r.fs && SameExcept(fs, r.fs, {dest})
    ensures src != dest && src in fs ==>
      r.fs[dest] == Contents(fs, dest) + Echo(cmdline) + fs[src] + "\n"
    ensures src != dest && src !in fs ==> r.fs[dest] == Contents(fs, dest)
    ensures src != dest ==> Contents(fs, dest) <= r.fs[dest]
    ensures fs.Keys <= r.fs.Keys
  {
    if src == dest then Effect(fs, -1)
    else if src !in fs then Effect(Append(fs, dest, ""), -1)
    else Effect(Append(fs, dest, Echo(cmdline) + fs[src] + "\n"), 0)
  }

  /** `read_file` with the destination closed on every path, as its
      failure messages evidently intend: a missing source is recorded in
      the destination. */
  function ReadFileIntoClosed(fs: FileSystem, src: Path, dest: Path, cmdline: Option<string>, nullText: string): (r: Effect)
    ensures src == dest ==> r == Effect(fs, -1)
    ensures r.rc == 0 <==> src != dest && src in fs
    ensures src != dest ==> dest in r.fs && SameExcept(fs, r.fs, {dest}) && Contents(fs, dest) <= r.fs[dest]
    ensures src != dest && src in fs ==>
      r.fs[dest] == Contents(fs, dest) + Echo(cmdline) + fs[src] + "\n"
    ensures src != dest && src !in fs ==>
      r.fs[dest] == Contents(fs, dest) + MissingText(cmdline, nullText)
  {
    if src == dest then Effect(fs, -1)
    else if src !in fs then Effect(Append(fs, dest, MissingText(cmdline, nullText)), -1)
    else Effect(Append(fs, dest, Echo(cmdline) + fs[src] + "\n"), 0)
  }

  /** The two definitions differ only in the failure text of a missing
      source: the closed one returns the same value and leaves the same
      files, with that text appended to the destination. */
  lemma ClosedAddsMissingText(fs: FileSystem, src: Path, dest: Path, cmdline: Option<string>, nullText: string)
    ensures var w := ReadFileInto(fs, src, dest, cmdline);
      var c := ReadFileIntoClosed(fs, src, dest, cmdline, nullText);
      && c.rc == w.rc
      && (src != dest && src !in fs ==> c.fs == w.fs[dest := w.fs[dest] + MissingText(cmdline, nullText)])
      && (src == dest || src in fs ==> c.fs == w.fs)
  {
  }

  /** The lost failure text: a read of a missing file followed by a read
      of an existing one leaves only the second in the destination, where
      the closed definition records both, in order. */
  lemma MissingReadLeavesNoTrace(fs: FileSystem, missing: Path, present: Path, dest: Path,
                                 first: string, second: string, nullText: string)
    requires missing !in fs && present in fs && missing != dest && present != dest
    ensures var w := ReadFileInto(ReadFileInto(fs, missing, dest, Some(first)).fs, present, dest, Some(second));
      w.fs[dest] == Contents(fs, dest) + second + ": " + fs[present] + "\n"
    ensures var c := ReadFileIntoClosed(ReadFileIntoClosed(fs, missing, dest, Some(first), nullText).fs,
                                        present, dest, Some(second), nullText);
      c.fs[dest] == Contents(fs, dest) + first + ": FILE DNE\n" + second + ": " + fs[present] + "\n"
  {
    var c1 := ReadFileIntoClosed(fs, missing, dest, Some(first), nullText).fs;
    var c := ReadFileIntoClosed(c1, present, dest, Some(second), nullText).fs;
    var before, failed, read := Contents(fs, dest), first + ": FILE DNE\n", second + ": " + fs[present] + "\n";
    assert c[dest] == before + failed + read;
    assert before + failed + read == Contents(fs, dest) + first + ": FILE DNE\n" + second + ": " + fs[present] + "\n";
  }

  /** `empty_file(path, cmdline)`. An existing file is truncated to the
      empty text. A missing file is left missing; with a command line,
      "<cmdline>: FILE ALREADY EMPTY" and a newline is written through
      `write_file` to the empty-output file, which adds a second newline.
      The call succeeds either way. */
  function EmptyFileOp(fs: FileSystem, path: Path, cmdline: Option<string>): (r: Effect)
    ensures r.rc == 0
    ensures fs.Keys <= r.fs.Keys
    ensures path in fs ==> r.fs == fs[path := ""]
    ensures path !in fs && cmdline.None? ==> r.fs == fs
    ensures path !in fs && cmdline.Some? ==>
      && (path != EmptyFile ==> path !in r.fs)
      && EmptyFile in r.fs && r.fs[EmptyFile] == Contents(fs, EmptyFile) + cmdline.value + ": FILE ALREADY EMPTY\n\n"
      && SameExcept(fs, r.fs, {EmptyFile})
  {
    if path !in fs then
      match cmdline
      case Some(c) => WriteFile(fs, EmptyFile, c + ": FILE ALREADY EMPTY\n")
      case None => Effect(fs, 0)
    else Effect(fs[path := ""], 0)
  }
}
