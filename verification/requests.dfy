/**
 The request front end of `worker_thread`: `determine_request`, the two
 `strtok(…, " ")` calls that cut the operation and the path out of the
 command line, the offset arithmetic that extracts the optional free text,
 and the validation that rejects a request before any lock is taken.

 Strings are sequences of characters; a C string holds no NUL.
 */
module Requests {
  import opened Wrappers

  /** The request type codes REQUEST_INVALID, REQUEST_READ, REQUEST_WRITE
      and REQUEST_EMPTY. */
  datatype Kind = Invalid | Read | Write | Empty

  /** The numeric code the C program uses for each kind. */
  function Code(k: Kind): int
  {
    match k
    case Invalid => 0
    case Read => 1
    case Write => 2
    case Empty => 3
  }

  /** The command word that names a valid kind. */
  function Name(k: Kind): string
    requires k != Invalid
  {
    match k
    case Read => "read"
    case Write => "write"
    case Empty => "empty"
  }

  /** The command words are words. */
  lemma NameIsWord(k: Kind)
    requires k != Invalid
    ensures |Name(k)| > 0 && Delim !in Name(k)
  {
  }

  /** The longest free text a write request may carry (the worker's text
      buffer holds 50 characters and a terminator). */
  const MaxPayload: nat := 50

  /** The only delimiter the worker passes to `strtok`. */
  const Delim: char := ' '

  /** `determine_request`: exactly the three command words are recognised. */
  function DetermineRequest(cmd: string): (k: Kind)
    ensures k == Read <==> cmd == "read"
    ensures k == Write <==> cmd == "write"
    ensures k == Empty <==> cmd == "empty"
    ensures Code(k) == 0 <==> k == Invalid
  {
    if cmd == "read" then Read
    else if cmd == "write" then Write
    else if cmd == "empty" then Empty
    else Invalid
  }

  /** `Name` and `DetermineRequest` are inverse on the valid kinds, and a
      word is recognised exactly when it is one of the three names. */
  lemma DetermineRequestInverse(k: Kind, cmd: string)
    ensures k != Invalid ==> DetermineRequest(Name(k)) == k
    ensures DetermineRequest(cmd) != Invalid ==> Name(DetermineRequest(cmd)) == cmd
    ensures DetermineRequest(cmd) == Invalid <==> cmd != "read" && cmd != "write" && cmd != "empty"
  {
  }

  /** The first position at or after `i` that is not a delimiter (where
      `strtok` starts a token). */
  function SkipDelims(s: string, i: nat): (j: nat)
    requires i <= |s|
    ensures i <= j <= |s|
    ensures forall k :: i <= k < j ==> s[k] == Delim
    ensures j == |s| || s[j] != Delim
    decreases |s| - i
  {
    if i == |s| || s[i] != Delim then i else SkipDelims(s, i + 1)
  }

  /** The first delimiter at or after `i` (where `strtok` ends a token). */
  function TokenEnd(s: string, i: nat): (j: nat)
    requires i <= |s|
    ensures i <= j <= |s|
    ensures forall k :: i <= k < j ==> s[k] != Delim
    ensures j == |s| || s[j] == Delim
    decreases |s| - i
  {
    if i == |s| || s[i] == Delim then i else TokenEnd(s, i + 1)
  }

  /** The outcome of one `strtok` call: no token (NULL), or the token
      `s[start..end]`. */
  datatype Cut = NoToken | Token(start: nat, end: nat)

  /** One `strtok(…, " ")` call that resumes scanning `s` at offset `from`.
      A token is a maximal non-empty run of non-delimiters preceded only by
      delimiters since `from`. */
  function StrTok(s: string, from: nat): (c: Cut)
    requires from <= |s|
    ensures c.NoToken? <==> forall k :: from <= k < |s| ==> s[k] == Delim
    ensures c.Token? ==>
      && from <= c.start < c.end <= |s|
      && (forall k :: from <= k < c.start ==> s[k] == Delim)
      && (forall k :: c.start <= k < c.end ==> s[k] != Delim)
      && (c.end == |s| || s[c.end] == Delim)
  {
    var b := SkipDelims(s, from);
    if b == |s| then NoToken else Token(b, TokenEnd(s, b))
  }

  /** Where the next `strtok(NULL, …)` call resumes: after the delimiter
      that ended the token (overwritten by NUL), or at the end. */
  function Resume(s: string, c: Cut): (i: nat)
    requires c.NoToken? || c.end <= |s|
    ensures i <= |s|
  {
    match c
    case NoToken => |s|
    case Token(_, e) => if e < |s| then e + 1 else |s|
  }

  /** The space-separated words of `s[i..]`, as an independent reference
      for what the two `strtok` calls cut out. */
  function WordsFrom(s: string, i: nat): seq<string>
    requires i <= |s|
    decreases |s| - i
  {
    if i == |s| then []
    else if s[i] == Delim then WordsFrom(s, i + 1)
    else var e := TokenEnd(s, i); [s[i..e]] + WordsFrom(s, e)
  }

  /** Delimiters in front of the scan position do not change the words. */
  lemma {:induction false} WordsSkipDelims(s: string, i: nat, j: nat)
    requires i <= j <= |s|
    requires forall k :: i <= k < j ==> s[k] == Delim
    ensures WordsFrom(s, i) == WordsFrom(s, j)
    decreases j - i
  {
    if i < j {
      WordsSkipDelims(s, i + 1, j);
    }
  }

  /** A `strtok` call takes the first word and resumes at the others. */
  lemma StrTokTakesFirstWord(s: string, from: nat)
    requires from <= |s|
    ensures var c := StrTok(s, from);
      match c
      case NoToken => WordsFrom(s, from) == []
      case Token(b, e) => WordsFrom(s, from) == [s[b..e]] + WordsFrom(s, Resume(s, c))
  {
    var c := StrTok(s, from);
    match c
    case NoToken =>
      WordsSkipDelims(s, from, |s|);
    case Token(b, e) =>
      WordsSkipDelims(s, from, b);
      assert TokenEnd(s, b) == e;
      if e < |s| {
        WordsSkipDelims(s, e, e + 1);
      }
  }

  /** The fields the worker extracts from a command line before validating
      them: the operation, the path, and the free text if the line is
      longer than `|cmd| + |path| + 2`. */
  datatype Fields = Fields(cmd: string, path: string, payload: Option<string>)

  /** The parsing prefix of `worker_thread`: two `strtok` calls, then the
      free text from offset `|cmd| + |path| + 2` to the end of the line.
      None when the second token (the path) is missing. The free text is
      present exactly when the line is longer than that offset. */
  function Split(line: string): (r: Option<Fields>)
    ensures r.Some? ==> IsWord(r.value.cmd) && IsWord(r.value.path)
    ensures r.Some? && r.value.payload.Some? ==>
      var preceding := |r.value.cmd| + |r.value.path| + 2;
      && |line| > preceding
      && r.value.payload.value == line[preceding..]
    ensures r.Some? && r.value.payload.None? ==>
      |line| <= |r.value.cmd| + |r.value.path| + 2
  {
    var first := StrTok(line, 0);
    var second := StrTok(line, Resume(line, first));
    if first.NoToken? || second.NoToken? then None
    else
      var cmd := line[first.start..first.end];
      var path := line[second.start..second.end];
      var preceding := |cmd| + |path| + 2;
      if |line| > preceding then Some(Fields(cmd, path, Some(line[preceding..])))
      else Some(Fields(cmd, path, None))
  }

  /** The two `strtok` calls agree with the words of the line: the path is
      missing exactly when the line has fewer than two words, and otherwise
      the operation and the path are its first two words. */
  lemma SplitMatchesWords(line: string)
    ensures Split(line).None? <==> |WordsFrom(line, 0)| < 2
    ensures Split(line).Some? ==>
      && Split(line).value.cmd == WordsFrom(line, 0)[0]
      && Split(line).value.path == WordsFrom(line, 0)[1]
  {
    var first := StrTok(line, 0);
    StrTokTakesFirstWord(line, 0);
    StrTokTakesFirstWord(line, Resume(line, first));
  }

  /** A word: non-empty and free of delimiters. */
  predicate IsWord(w: string)
  {
    |w| > 0 && Delim !in w
  }

  /** The command line a client writes for the given fields. */
  function Join(f: Fields): string
  {
    f.cmd + " " + f.path + Trailer(f.payload)
  }

  /** The free text with its separating space, or nothing. */
  function Trailer(payload: Option<string>): string
  {
    match payload
    case Some(t) => " " + t
    case None => ""
  }

  /** `Join` spelled out for each shape of the fields. */
  lemma JoinShapes(f: Fields)
    ensures f.payload.Some? ==> Join(f) == f.cmd + " " + f.path + " " + f.payload.value
    ensures f.payload.None? ==> Join(f) == f.cmd + " " + f.path
  {
  }

  /** `strtok` at the start of a word followed by a delimiter returns that
      word and resumes after the delimiter. */
  lemma WordThenDelim(s: string, i: nat, w: string)
    requires i + |w| < |s| && IsWord(w) && s[i..i + |w|] == w && s[i + |w|] == Delim
    ensures StrTok(s, i) == Token(i, i + |w|)
    ensures Resume(s, StrTok(s, i)) == i + |w| + 1
  {
    assert s[i] == w[0];
    assert forall k :: i <= k < i + |w| ==> s[k] == w[k - i];
  }

  /** `strtok` at the start of a word that ends the line returns that word. */
  lemma WordAtEnd(s: string, i: nat, w: string)
    requires i + |w| == |s| && IsWord(w) && s[i..] == w
    ensures StrTok(s, i) == Token(i, |s|)
  {
    assert s[i] == w[0];
    assert forall k :: i <= k < |s| ==> s[k] == w[k - i];
  }

  /** The pieces of `a + " " + b + " " + c` at their offsets. */
  lemma PiecesOfLine(a: string, b: string, c: string)
    ensures var line := a + " " + b + " " + c;
      && |line| == |a| + |b| + |c| + 2
      && line[0..|a|] == a && line[|a|] == Delim
      && line[|a| + 1..|a| + 1 + |b|] == b && line[|a| + 1 + |b|] == Delim
      && line[|a| + |b| + 2..] == c
  {
  }

  /** Round trip with free text: `<cmd> <path> <text>` splits into exactly
      those three, whatever spaces the text holds. */
  lemma SplitWithPayload(cmd: string, path: string, text: string)
    requires IsWord(cmd) && IsWord(path) && |text| > 0
    ensures Split(cmd + " " + path + " " + text) == Some(Fields(cmd, path, Some(text)))
  {
    var line := cmd + " " + path + " " + text;
    var n := |cmd|;
    var m := |path|;
    PiecesOfLine(cmd, path, text);
    WordThenDelim(line, 0, cmd);
    WordThenDelim(line, n + 1, path);
    var first := StrTok(line, 0);
    var second := StrTok(line, Resume(line, first));
    assert first == Token(0, n) && second == Token(n + 1, n + 1 + m);
    assert line[first.start..first.end] == cmd;
    assert line[second.start..second.end] == path;
    assert |line| > n + m + 2;
  }

  /** Round trip without free text: `<cmd> <path>` splits into those two. */
  lemma SplitWithoutPayload(cmd: string, path: string)
    requires IsWord(cmd) && IsWord(path)
    ensures Split(cmd + " " + path) == Some(Fields(cmd, path, None))
  {
    var line := cmd + " " + path;
    var n := |cmd|;
    assert line[0..n] == cmd && line[n] == Delim;
    WordThenDelim(line, 0, cmd);
    assert line[n + 1..] == path;
    WordAtEnd(line, n + 1, path);
    assert line[n + 1..|line|] == path;
  }

  /** Parsing round trip: a line built from an operation word, a path word
      and free text (which may contain spaces) splits back into exactly
      those three; without free text it splits into the two words. */
  lemma SplitJoin(f: Fields)
    requires IsWord(f.cmd) && IsWord(f.path)
    requires f.payload.Some? ==> |f.payload.value| > 0
    ensures Split(Join(f)) == Some(f)
  {
    JoinShapes(f);
    if f.payload.Some? {
      SplitWithPayload(f.cmd, f.path, f.payload.value);
    } else {
      SplitWithoutPayload(f.cmd, f.path);
    }
  }

  /** The reasons the worker rejects a request (each returns -1). */
  datatype Rejection = MissingPath | UnknownOperation | UnexpectedPayload | PayloadTooLong

  /** A validated request. */
  datatype Request = Request(kind: Kind, path: string, payload: Option<string>)

  datatype Parsed = Accepted(req: Request) | Rejected(why: Rejection)

  /** Parsing and validation of `worker_thread`, in the order the code
      checks: a missing path, an unknown operation, free text on a
      non-write request, free text longer than 50 characters. */
  function Parse(line: string): (p: Parsed)
    ensures p == Rejected(MissingPath) <==> Split(line).None?
    ensures p == Rejected(UnknownOperation) <==>
      Split(line).Some? && DetermineRequest(Split(line).value.cmd) == Invalid
    ensures p == Rejected(UnexpectedPayload) <==>
      Split(line).Some? && DetermineRequest(Split(line).value.cmd) !in {Invalid, Write}
      && Split(line).value.payload.Some?
    ensures p == Rejected(PayloadTooLong) <==>
      Split(line).Some? && DetermineRequest(Split(line).value.cmd) == Write
      && Split(line).value.payload.Some? && |Split(line).value.payload.value| > MaxPayload
    ensures p.Accepted? ==>
      && p.req.kind != Invalid
      && p.req.kind == DetermineRequest(Split(line).value.cmd)
      && p.req.path == Split(line).value.path
      && p.req.payload == Split(line).value.payload
      && (p.req.payload.Some? ==> p.req.kind == Write && 0 < |p.req.payload.value| <= MaxPayload)
  {
    match Split(line)
    case None => Rejected(MissingPath)
    case Some(f) =>
      var kind := DetermineRequest(f.cmd);
      if kind == Invalid then Rejected(UnknownOperation)
      else if f.payload.Some? && kind != Write then Rejected(UnexpectedPayload)
      else if f.payload.Some? && |f.payload.value| > MaxPayload then Rejected(PayloadTooLong)
      else Accepted(Request(kind, f.path, f.payload))
  }

  /** An accepted payload fits the worker's `text[51]` buffer together with
      its terminating NUL. */
  lemma AcceptedPayloadFits(line: string)
    requires Parse(line).Accepted? && Parse(line).req.payload.Some?
    ensures |Parse(line).req.payload.value| + 1 <= MaxPayload + 1
  {
  }

  /** Round trip through validation: a well-formed request line is accepted
      as exactly the request it spells, free text is accepted only on a
      write of at most 50 characters, and otherwise it is rejected for the
      reason the code checks first. */
  lemma ParseRoundTrip(k: Kind, path: string, text: string)
    requires k != Invalid && IsWord(path) && |text| > 0
    ensures Parse(Name(k) + " " + path) == Accepted(Request(k, path, None))
    ensures Parse(Name(k) + " " + path + " " + text) ==
      if k != Write then Rejected(UnexpectedPayload)
      else if |text| > MaxPayload then Rejected(PayloadTooLong)
      else Accepted(Request(Write, path, Some(text)))
  {
    var name := Name(k);
    NameIsWord(k);
    DetermineRequestInverse(k, name);
    SplitWithoutPayload(name, path);
    SplitWithPayload(name, path, text);
  }

  /** The free text is taken at a fixed offset rather than after the
      second space: a leading space shifts it by one character, so the
      text of " write a hi" is " hi". */
  lemma LeadingSpaceShiftsPayload()
    ensures Parse(" write a hi") == Accepted(Request(Write, "a", Some(" hi")))
  {
    var line := " write a hi";
    assert StrTok(line, 0) == Token(1, 6);
    assert StrTok(line, 7) == Token(7, 8);
    assert line[1..6] == "write" && line[7..8] == "a" && line[8..] == " hi";
  }
}
