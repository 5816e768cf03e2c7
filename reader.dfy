/** The command-line front end of src/dmcc/readline/reader.cpp: splitting a
    line into a command and its arguments, the completion callback handed
    to GNU readline, reading a line with the history rule, the main loop
    that emits the commands' signals, and command registration. The line
    editor and the terminal are not modelled: the lines it delivers are
    parameters, None standing for end of input. */
module Reader {
  import opened Wrappers
  import opened LineSyntax
  import opened CommandTable

  // ---------------------------------------------------------------------
  // parse_command

  /** The command name once the non-empty tokens `ws` were read, starting
      from the caller's `name`. */
  function NameOut(ws: seq<string>, name: string): string
  {
    if ws == [] then name else ws[0]
  }

  /** The argument list once the non-empty tokens `ws` were read, starting
      from the caller's `args`. */
  function ArgsOut(ws: seq<string>, args: seq<string>): seq<string>
  {
    if ws == [] then args else args + ws[1..]
  }

  /** Reading one more token `tok` after the tokens `done`. */
  lemma OutputsSnoc(done: seq<string>, tok: string, nameIn: string, argsIn: seq<string>)
    ensures NameOut(Words(done + [tok]), nameIn)
      == if tok != [] && Words(done) == [] then tok else NameOut(Words(done), nameIn)
    ensures ArgsOut(Words(done + [tok]), argsIn)
      == if tok != [] && Words(done) != [] then ArgsOut(Words(done), argsIn) + [tok] else ArgsOut(Words(done), argsIn)
    ensures (Words(done + [tok]) != []) == (Words(done) != [] || tok != [])
  {
    WordsSnoc(done, tok);
    var before := Words(done);
    if tok != [] && before != [] {
      assert (before + [tok])[1..] == before[1..] + [tok];
    }
  }

  /** `parse_command(raw, name, args)`: every token of the line in turn;
      empty ones are skipped, the first other one becomes the name and the
      later ones are appended to the arguments. A tokenizer exception ends
      it with the outputs as far as they got. */
  method ParseCommand(raw: string, nameIn: string, argsIn: seq<string>)
      returns (error: Option<TokenError>, name: string, args: seq<string>)
    ensures error == Tokenize(raw).error
    ensures name == NameOut(Words(Tokenize(raw).tokens), nameIn)
    ensures args == ArgsOut(Words(Tokenize(raw).tokens), argsIn)
  {
    name, args := nameIn, argsIn;
    var foundCmd := false;
    var rest := raw;
    var last := false;
    ghost var done: seq<string> := [];
    assert done + Tokenize(raw).tokens == Tokenize(raw).tokens;
    while rest != [] || last
      invariant Tokenize(raw).tokens == done + TokensFrom(rest, last).tokens
      invariant Tokenize(raw).error == TokensFrom(rest, last).error
      invariant foundCmd == (Words(done) != [])
      invariant name == NameOut(Words(done), nameIn)
      invariant args == ArgsOut(Words(done), argsIn)
      decreases |rest|, last
    {
      TokensStep(rest, last);
      ghost var more := TokensFrom(rest, last).tokens;
      var tok;
      if rest == [] {
        // the empty token after a trailing separator
        tok, last := [], false;
      } else {
        var scanned := ScanToken(rest, [], false);
        if scanned.Failed? {
          assert done + more == done;
          return Some(scanned.error), name, args;
        }
        tok, rest, last := scanned.tok, scanned.rest, scanned.bySeparator;
      }
      TokensStep(rest, last);
      assert more == [tok] + TokensFrom(rest, last).tokens;
      assert done + more == (done + [tok]) + TokensFrom(rest, last).tokens;
      OutputsSnoc(done, tok, nameIn, argsIn);
      done := done + [tok];
      if tok != [] {
        if !foundCmd {
          name := tok;
          foundCmd := true;
        } else {
          args := args + [tok];
        }
      }
    }
    TokensStep(rest, last);
    assert done + TokensFrom(rest, last).tokens == done;
    return None, name, args;
  }

  /** Words(ts) is ts when no token is empty. */
  lemma {:induction false} WordsOfNonEmpty(ts: seq<string>)
    requires forall k :: 0 <= k < |ts| ==> ts[k] != []
    ensures Words(ts) == ts
  {
    if ts != [] {
      WordsOfNonEmpty(ts[1..]);
      assert ts == [ts[0]] + ts[1..];
    }
  }

  /** A line written as escaped words separated by single spaces gives back
      the first word as the name and the others, in order, appended to the
      arguments. */
  lemma ParseOfJoin(ws: seq<string>, nameIn: string, argsIn: seq<string>)
    requires ws != [] && forall k :: 0 <= k < |ws| ==> ws[k] != []
    ensures Tokenize(JoinWords(ws)).error == None
    ensures NameOut(Words(Tokenize(JoinWords(ws)).tokens), nameIn) == ws[0]
    ensures ArgsOut(Words(Tokenize(JoinWords(ws)).tokens), argsIn) == argsIn + ws[1..]
  {
    var single: seq<string> := [[]];
    assert ws[0] != [] && single[0] == [];
    TokenizeJoin(ws);
    WordsOfNonEmpty(ws);
  }

  /** Only empty tokens leave no words. */
  lemma {:induction false} WordsOfEmpty(ts: seq<string>)
    ensures Words(ts) == [] <==> forall k :: 0 <= k < |ts| ==> ts[k] == []
  {
    if ts != [] {
      WordsOfEmpty(ts[1..]);
      if ts[0] == [] {
        assert forall k :: 1 <= k < |ts| ==> ts[k] == ts[1..][k - 1];
      }
    }
  }

  /** A line without any non-empty token leaves the caller's name and
      arguments as they were; any other line sets the name. */
  lemma BlankLineKeepsOutputs(raw: string, nameIn: string, argsIn: seq<string>)
    ensures (forall k :: 0 <= k < |Tokenize(raw).tokens| ==> Tokenize(raw).tokens[k] == [])
      <==> (NameOut(Words(Tokenize(raw).tokens), nameIn) == nameIn
            && ArgsOut(Words(Tokenize(raw).tokens), argsIn) == argsIn
            && Words(Tokenize(raw).tokens) == [])
  {
    WordsOfEmpty(Tokenize(raw).tokens);
  }

  /** A segment in quotes, `"` or `'`, is one argument, spaces and all. */
  lemma QuotedArgument(q: char, cmd: string, w: string, nameIn: string, argsIn: seq<string>)
    requires IsQuote(q) && cmd != [] && forall k :: 0 <= k < |cmd| ==> !IsSpecial(cmd[k])
    requires Plain(w) && w != []
    ensures var raw := cmd + [Separator, q] + w + [q];
      Tokenize(raw).error == None
      && NameOut(Words(Tokenize(raw).tokens), nameIn) == cmd
      && ArgsOut(Words(Tokenize(raw).tokens), argsIn) == argsIn + [w]
  {
    var quoted := [q] + w + [q];
    var raw := cmd + [Separator] + quoted;
    assert raw == cmd + [Separator, q] + w + [q];
    PlainEscape(cmd);
    assert raw == EscapeWord(cmd) + ([Separator] + quoted);
    ScanEscaped(cmd, [Separator] + quoted, []);
    assert [] + cmd == cmd;
    assert ScanToken([Separator] + quoted, cmd, false) == Token(cmd, quoted, true);
    QuotedStaysOne(q, w);
    assert TokensFrom(quoted, true) == TokensFrom(quoted, false);
    assert Tokenize(raw).tokens == [cmd] + [w];
    assert Words([cmd, w]) == [cmd, w];
  }

  // ---------------------------------------------------------------------
  // compl_proxy

  /** `strncmp(text, name, strlen(text)) == 0`: `text` begins `name`. */
  predicate IsPrefix(text: string, name: string)
  {
    |text| <= |name| && name[..|text|] == text
  }

  /** Where the search for a matching command from position `from` stops:
      the first matching position, or past the end. */
  function NextMatch(es: seq<Entry>, from: nat, text: string): (j: nat)
    decreases |es| - from
    ensures from <= j && (j < |es| ==> IsPrefix(text, es[j].name))
    ensures |es| <= j ==> j == from || j == |es|
    ensures forall k :: from <= k < j && k < |es| ==> !IsPrefix(text, es[k].name)
  {
    if from >= |es| || IsPrefix(text, es[from].name) then from else NextMatch(es, from + 1, text)
  }

  /** The names at or after position `from` that begin with `text`, in
      key order. */
  function Matching(es: seq<Entry>, from: nat, text: string): seq<string>
    decreases |es| - from
  {
    if from >= |es| then []
    else (if IsPrefix(text, es[from].name) then [es[from].name] else []) + Matching(es, from + 1, text)
  }

  /** `Matching` holds exactly the names from `from` on with the prefix. */
  lemma {:induction false} MatchingComplete(es: seq<Entry>, from: nat, text: string)
    decreases |es| - from
    ensures forall n :: n in Matching(es, from, text) <==>
      (IsPrefix(text, n) && exists k :: from <= k < |es| && es[k].name == n)
  {
    if from < |es| {
      MatchingComplete(es, from + 1, text);
      forall n | IsPrefix(text, n) && (exists k :: from <= k < |es| && es[k].name == n)
        ensures n in Matching(es, from, text)
      {
        var k :| from <= k < |es| && es[k].name == n;
        if k > from {
          assert n in Matching(es, from + 1, text);
        }
      }
    }
  }

  /** In a map the names a completion yields come out strictly increasing. */
  lemma {:induction false} MatchingSorted(es: seq<Entry>, from: nat, text: string)
    requires Sorted(es)
    decreases |es| - from
    ensures forall i, j :: 0 <= i < j < |Matching(es, from, text)| ==>
      Less(Matching(es, from, text)[i], Matching(es, from, text)[j])
  {
    if from < |es| {
      MatchingSorted(es, from + 1, text);
      MatchingComplete(es, from + 1, text);
      var m := Matching(es, from, text);
      var tail := Matching(es, from + 1, text);
      if IsPrefix(text, es[from].name) {
        assert m == [es[from].name] + tail;
        forall i, j | 0 <= i < j < |m| ensures Less(m[i], m[j]) {
          assert m[j] == tail[j - 1];
          if i == 0 {
            assert tail[j - 1] in tail;
          } else {
            assert m[i] == tail[i - 1];
          }
        }
      } else {
        assert m == tail;
      }
    }
  }

  /** The search from `from` finds the head of the names left to yield,
      and the names after it are the rest; it runs past the end exactly
      when none is left. */
  lemma {:induction false} NextMatchIsHead(es: seq<Entry>, from: nat, text: string)
    decreases |es| - from
    ensures NextMatch(es, from, text) < |es| <==> Matching(es, from, text) != []
    ensures NextMatch(es, from, text) < |es| ==>
      Matching(es, from, text) == [es[NextMatch(es, from, text)].name]
        + Matching(es, NextMatch(es, from, text) + 1, text)
  {
    if from < |es| && !IsPrefix(text, es[from].name) {
      NextMatchIsHead(es, from + 1, text);
      assert Matching(es, from, text) == [] + Matching(es, from + 1, text);
    }
  }

  /** The statics of compl_proxy: whether command names are completed, the
      command whose argument is completed, and the iterator into the map as
      a position in key order. */
  datatype ComplState = ComplState(cmdCompl: bool, cmdName: string, cursor: nat)

  /** One answer of the callback and the statics it leaves. */
  datatype ComplStep = ComplStep(state: ComplState, result: Option<string>)

  /** The statics after a `state == 0` call looked at the line: argument
      completion for the captured command when the line is a command word
      followed by blanks, command completion otherwise (keeping the old
      command name); the iterator goes back to the first command. */
  function Restart(st: ComplState, line: string): (s: ComplState)
    ensures s.cursor == 0 && (s.cmdCompl <==> ArgLineCommand(line).None?)
    ensures ArgLineCommand(line).Some? ==> s.cmdName == ArgLineCommand(line).value
    ensures ArgLineCommand(line).None? ==> s.cmdName == st.cmdName
  {
    match ArgLineCommand(line)
    case Some(w) => ComplState(false, w, 0)
    case None => ComplState(true, st.cmdName, 0)
  }

  /** The answer for a name found by command completion: the empty string
      reads as "no more candidates". */
  function Answer(name: string): Option<string>
  {
    if name == [] then None else Some(name)
  }

  /** Argument completion for `cmd`: the command's completion callback, or
      readline's filename completion `files` when it has none; null when
      the command is unknown or only `operator[]` put it in the map. */
  function ArgCompletion(es: seq<Entry>, cmd: string, text: string, state: int, files: Completion): Option<string>
  {
    match Find(es, cmd)
    case None => None
    case Some(p) =>
      if p == null then None
      else if p.compl.Some? then p.compl.value(text, state)
      else files(text, state)
  }

  /** What an argument completion does as the source is written: a null
      pointer under the name is dereferenced. */
  datatype Reply = Returns(result: Option<string>) | NullDeref

  function ArgCompletionAsWritten(es: seq<Entry>, cmd: string, text: string, state: int, files: Completion): Reply
  {
    match Find(es, cmd)
    case None => Returns(None)
    case Some(p) =>
      if p == null then NullDeref
      else if p.compl.Some? then Returns(p.compl.value(text, state))
      else Returns(files(text, state))
  }

  /** The corrected completion answers as written whenever the written one
      does not dereference null, and null where it would; it calls into the
      command only when a registered pair is stored under the name. */
  lemma ArgCompletionCorrects(es: seq<Entry>, cmd: string, text: string, state: int, files: Completion)
    ensures ArgCompletionAsWritten(es, cmd, text, state, files).Returns? ==>
      ArgCompletion(es, cmd, text, state, files) == ArgCompletionAsWritten(es, cmd, text, state, files).result
    ensures ArgCompletionAsWritten(es, cmd, text, state, files).NullDeref? <==> Find(es, cmd) == Some(null)
    ensures Pointer(es, cmd) == null ==> ArgCompletion(es, cmd, text, state, files).None?
    ensures Pointer(es, cmd) != null && Pointer(es, cmd).compl.None? ==>
      ArgCompletion(es, cmd, text, state, files) == files(text, state)
  {
  }

  /** One call of the callback from statics `st`, with readline's line
      buffer `line`, the word `text` and the call counter `state`. */
  function Step(st: ComplState, es: seq<Entry>, line: string, text: string, state: int, files: Completion): ComplStep
  {
    var s := if state == 0 then Restart(st, line) else st;
    if !s.cmdCompl then ComplStep(s, ArgCompletion(es, s.cmdName, text, state, files))
    else
      var j := NextMatch(es, s.cursor, text);
      if j < |es| then ComplStep(s.(cursor := j + 1), Answer(es[j].name))
      else ComplStep(s.(cursor := j), None)
  }

  /** The answers to `n` calls with counters `state`, `state + 1`, ... */
  function Session(es: seq<Entry>, st: ComplState, line: string, text: string, files: Completion, state: nat, n: nat): (r: seq<Option<string>>)
    decreases n
    ensures |r| == n
  {
    if n == 0 then []
    else
      var step := Step(st, es, line, text, state, files);
      [step.result] + Session(es, step.state, line, text, files, state + 1, n - 1)
  }

  /** The names `ms` one per answer, then null. */
  function Yield(ms: seq<string>, n: nat): (r: seq<Option<string>>)
    ensures |r| == n
  {
    if n == 0 then []
    else if ms == [] then [None] + Yield([], n - 1)
    else [Some(ms[0])] + Yield(ms[1..], n - 1)
  }

  lemma {:induction false} SessionFromCursor(es: seq<Entry>, name: string, cursor: nat, line: string, text: string, files: Completion, state: nat, n: nat)
    requires 0 < state && forall k :: 0 <= k < |es| ==> es[k].name != []
    decreases n
    ensures Session(es, ComplState(true, name, cursor), line, text, files, state, n) == Yield(Matching(es, cursor, text), n)
  {
    if n > 0 {
      var j := NextMatch(es, cursor, text);
      NextMatchIsHead(es, cursor, text);
      if j < |es| {
        SessionFromCursor(es, name, j + 1, line, text, files, state + 1, n - 1);
      } else {
        assert Matching(es, j, text) == [];
        SessionFromCursor(es, name, j, line, text, files, state + 1, n - 1);
      }
    }
  }

  /** Command completion: a session started with `state == 0` on a line
      that is not a command word followed by blanks answers with the
      command names that begin with `text`, in key order, one per call,
      and null once none is left. */
  lemma CommandCompletionEnumerates(es: seq<Entry>, st: ComplState, line: string, text: string, files: Completion, n: nat)
    requires ArgLineCommand(line).None? && forall k :: 0 <= k < |es| ==> es[k].name != []
    ensures Session(es, st, line, text, files, 0, n) == Yield(Matching(es, 0, text), n)
  {
    if n > 0 {
      var s := Restart(st, line);
      var j := NextMatch(es, 0, text);
      NextMatchIsHead(es, 0, text);
      if j < |es| {
        SessionFromCursor(es, s.cmdName, j + 1, line, text, files, 1, n - 1);
      } else {
        assert Matching(es, j, text) == [];
        SessionFromCursor(es, s.cmdName, j, line, text, files, 1, n - 1);
      }
    }
  }

  /** Argument completion: on a line that is a command word followed by
      blanks every call of the session hands the call counter to the
      completion of that command. */
  lemma {:induction false} ArgumentCompletionDelegates(es: seq<Entry>, st: ComplState, line: string, text: string, files: Completion, state: nat, n: nat)
    requires ArgLineCommand(line).Some?
    requires state == 0 || (!st.cmdCompl && st.cmdName == ArgLineCommand(line).value)
    decreases n
    ensures forall k :: 0 <= k < n ==>
      Session(es, st, line, text, files, state, n)[k]
        == ArgCompletion(es, ArgLineCommand(line).value, text, state + k, files)
  {
    if n > 0 {
      var step := Step(st, es, line, text, state, files);
      ArgumentCompletionDelegates(es, step.state, line, text, files, state + 1, n - 1);
      var tail := Session(es, step.state, line, text, files, state + 1, n - 1);
      assert Session(es, st, line, text, files, state, n) == [step.result] + tail;
      forall k | 1 <= k < n
        ensures Session(es, st, line, text, files, state, n)[k]
          == ArgCompletion(es, ArgLineCommand(line).value, text, state + k, files)
      {
        assert Session(es, st, line, text, files, state, n)[k] == tail[k - 1];
      }
    }
  }

  /** compl_proxy's statics and the callback itself. */
  class Completer {
    var cmdCompl: bool
    var cmdName: string
    var cursor: nat

    constructor ()
      ensures !cmdCompl && cmdName == [] && cursor == 0
    {
      cmdCompl, cmdName, cursor := false, [], 0;
    }

    /** `compl_proxy(text, state)` with readline's line buffer `line` and
        its filename completion `files`. Where a null pointer is stored
        under the command it answers null instead of dereferencing it. */
    method Complete(table: Commands, line: string, text: string, state: int, files: Completion) returns (r: Option<string>)
      modifies this
      ensures var step := Step(ComplState(old(cmdCompl), old(cmdName), old(cursor)), table.entries, line, text, state, files);
        cmdCompl == step.state.cmdCompl && cmdName == step.state.cmdName && cursor == step.state.cursor
        && r == step.result
    {
      if state == 0 {
        match ArgLineCommand(line) {
          case Some(w) =>
            cmdCompl := false;
            cmdName := w;
          case None =>
            cmdCompl := true;
        }
        cursor := 0;
      }
      var ret: string := [];
      if !cmdCompl {
        var found := Find(table.entries, cmdName);
        if found.Some? && found.value != null {
          var f := found.value.compl;
          if f.Some? {
            return f.value(text, state);
          } else {
            return files(text, state);
          }
        }
      } else {
        ghost var target := NextMatch(table.entries, cursor, text);
        while cursor < |table.entries|
          modifies this`cursor
          invariant NextMatch(table.entries, cursor, text) == target
          decreases |table.entries| - cursor
        {
          if IsPrefix(text, table.entries[cursor].name) {
            ret := table.entries[cursor].name;
            cursor := cursor + 1;
            break;
          }
          cursor := cursor + 1;
        }
      }
      if ret == [] {
        return None;
      }
      return Some(ret);
    }
  }

  // ---------------------------------------------------------------------
  // reader::readline and the history

  /** What readline() returns for the editor's answer: the trimmed line, or
      the empty string at end of input. */
  function LineOf(input: Option<string>): string
  {
    if input.None? then [] else Trim(input.value)
  }

  /** The history after a line was read: the line is added unless it is
      empty or repeats the most recent entry. */
  function Remember(history: seq<string>, line: string): seq<string>
  {
    if line != [] && (history == [] || line != history[|history| - 1]) then history + [line] else history
  }

  /** No entry is empty and no two neighbours are equal. */
  predicate Deduplicated(history: seq<string>)
  {
    (forall k :: 0 <= k < |history| ==> history[k] != [])
    && (forall k :: 0 < k < |history| ==> history[k - 1] != history[k])
  }

  /** Remembering keeps the history free of empty entries and of adjacent
      repeats, grows it by at most the line, and leaves every non-empty
      line as the most recent entry. */
  lemma RememberKeepsDeduplicated(history: seq<string>, line: string)
    requires Deduplicated(history)
    ensures Deduplicated(Remember(history, line))
    ensures Remember(history, line) == history || Remember(history, line) == history + [line]
    ensures line != [] ==> Remember(history, line)[|Remember(history, line)| - 1] == line
    ensures line == [] ==> Remember(history, line) == history
  {
    var h := Remember(history, line);
    if h != history {
      forall k | 0 < k < |h| ensures h[k - 1] != h[k] {
        if k < |history| {
          assert h[k - 1] == history[k - 1] && h[k] == history[k];
        }
      }
    }
  }

  // ---------------------------------------------------------------------
  // reader::run_mainloop

  /** How a run of the main loop ends: `exit` or `quit` typed, a handler
      (or end of input) set the exit flag, the given lines ran out, the
      tokenizer threw, or a signal without slots was emitted. */
  datatype LoopEnd = Quit | Exited | Exhausted | BadLine(error: TokenError) | NoSlots

  /** One pass of the loop body: whether it leaves the loop, and how, and
      the exit flag, history and table it leaves. */
  datatype Pass = Pass(stop: Option<LoopEnd>, exit: bool, history: seq<string>, entries: seq<Entry>)

  /** The loop body on the editor's answer `input`, the signals' slots
      being as `connected` records: read and parse the line, leave on `exit`
      or `quit`, skip an empty command, otherwise look the command up with
      `operator[]` and, when a pair is stored, emit its signal and take the
      result as the exit flag. */
  function Body(history: seq<string>, es: seq<Entry>, input: Option<string>, connected: Connections): Pass
  {
    var line := LineOf(input);
    var eof := input.None?;
    var h := Remember(history, line);
    var split := Tokenize(line);
    var cmd := NameOut(Words(split.tokens), []);
    if split.error.Some? then Pass(Some(BadLine(split.error.value)), eof, h, es)
    else if cmd == "exit" || cmd == "quit" then Pass(Some(Quit), eof, h, es)
    else if cmd == [] then Pass(None, eof, h, es)
    else
      var p := Pointer(es, cmd);
      if p == null then Pass(None, eof, h, Touch(es, cmd))
      else match Fire(SlotsOf(connected, p.sig), cmd, ArgsOut(Words(split.tokens), []))
        case None => Pass(Some(NoSlots), eof, h, Touch(es, cmd))
        case Some(v) => Pass(None, v, h, Touch(es, cmd))
  }

  /** A run of the main loop: how it ended, how many lines it read, and the
      exit flag, history and table it left. */
  datatype LoopRun = LoopRun(end: LoopEnd, consumed: nat, exit: bool, history: seq<string>, entries: seq<Entry>)

  /** The main loop from exit flag `exit`, history and table, the editor
      delivering `lines`. */
  function RunLoop(exit: bool, history: seq<string>, es: seq<Entry>, lines: seq<Option<string>>, connected: Connections): LoopRun
    decreases |lines|
  {
    if exit then LoopRun(Exited, 0, exit, history, es)
    else if lines == [] then LoopRun(Exhausted, 0, exit, history, es)
    else
      var pass := Body(history, es, lines[0], connected);
      if pass.stop.Some? then LoopRun(pass.stop.value, 1, pass.exit, pass.history, pass.entries)
      else
        var r := RunLoop(pass.exit, pass.history, pass.entries, lines[1..], connected);
        r.(consumed := r.consumed + 1)
  }

  /** `run` is what is left of `whole` after `c` lines. */
  predicate Continues(whole: LoopRun, c: nat, run: LoopRun)
  {
    whole.end == run.end && whole.consumed == c + run.consumed && whole.exit == run.exit
    && whole.history == run.history && whole.entries == run.entries
  }

  /** The reader object. The command map is global in the source; here it
      is the object `table` every reader shares. */
  class Reader {
    const prompt: string
    const table: Commands
    var exit: bool
    /** GNU readline's history list. */
    var history: seq<string>

    constructor (table: Commands, prompt: string)
      ensures this.table == table && this.prompt == prompt && !exit && history == []
    {
      this.table := table;
      this.prompt := prompt;
      exit := false;
      history := [];
    }

    /** `reader::readline()` with the editor's answer `input`. */
    method ReadLine(input: Option<string>) returns (line: string)
      modifies this`exit, this`history
      ensures exit == input.None? && line == LineOf(input)
      ensures history == Remember(old(history), line)
    {
      exit := true;
      if input.None? {
        return [];
      }
      exit := false;
      line := Trim(input.value);
      if line != [] {
        if |history| == 0 || line != history[|history| - 1] {
          history := history + [line];
        }
      }
    }

    /** One pass of run_mainloop's body on the editor's answer `input`;
        `stop` says whether, and how, it leaves the loop. `connected`
        records the slots of the table's signals. */
    method HandleLine(input: Option<string>, ghost connected: Connections) returns (stop: Option<LoopEnd>)
      requires table.Valid() && Agrees(connected, table.entries)
      modifies this`exit, this`history, table
      ensures table.Valid() && Agrees(connected, table.entries)
      ensures var pass := Body(old(history), old(table.entries), input, connected);
        stop == pass.stop && exit == pass.exit && history == pass.history && table.entries == pass.entries
    {
      ghost var es := table.entries;
      var args: seq<string> := [];
      var cmd: string := [];
      var line := ReadLine(input);
      var error;
      error, cmd, args := ParseCommand(line, cmd, args);
      if error.Some? {
        return Some(BadLine(error.value));
      }
      if cmd == "exit" || cmd == "quit" {
        return Some(Quit);
      } else if cmd != [] {
        AgreesPointer(connected, es, cmd);
        AgreesAssignNull(connected, es, cmd);
        assert Agrees(connected, Touch(es, cmd));
        ghost var p0 := Pointer(es, cmd);
        assert p0 != null ==> SlotsOf(connected, p0.sig) == p0.sig.slots;
        var pair := table.Index(cmd);
        assert pair == p0;
        assert Agrees(connected, table.entries);
        if pair != null {
          assert SlotsOf(connected, pair.sig) == pair.sig.slots;
          var fired := Fire(pair.sig.slots, cmd, args);
          if fired.None? {
            return Some(NoSlots);
          }
          exit := fired.value;
        }
      }
      return None;
    }

    /** `reader::run_mainloop()` while the editor delivers `lines`;
        `connected` records the slots of the table's signals, which no
        handler changes. */
    method RunMainloop(lines: seq<Option<string>>, ghost connected: Connections) returns (end: LoopEnd, consumed: nat)
      requires table.Valid() && Agrees(connected, table.entries)
      modifies this`exit, this`history, table
      ensures table.Valid() && Agrees(connected, table.entries)
      ensures Continues(RunLoop(old(exit), old(history), old(table.entries), lines, connected), 0,
        LoopRun(end, consumed, exit, history, table.entries))
    {
      ghost var whole := RunLoop(exit, history, table.entries, lines, connected);
      var c := 0;
      assert lines[c..] == lines;
      while !exit && c < |lines|
        invariant c <= |lines| && table.Valid() && Agrees(connected, table.entries)
        invariant Continues(whole, c, RunLoop(exit, history, table.entries, lines[c..], connected))
        decreases |lines| - c
      {
        ghost var rest := lines[c..];
        assert rest[0] == lines[c] && rest[1..] == lines[c + 1..];
        var stop := HandleLine(lines[c], connected);
        c := c + 1;
        if stop.Some? {
          return stop.value, c;
        }
      }
      end, consumed := if exit then Exited else Exhausted, c;
    }

    /** `reader << make_tuple(name, handler)`: a new signal with the handler
        connected, stored without a completion function under the name,
        replacing what was there. */
    method RegisterSimple(name: string, handler: Handler) returns (pair: CmdPair)
      requires table.Valid()
      modifies table
      ensures table.Valid() && fresh(pair) && fresh(pair.sig)
      ensures pair.sig.slots == [handler] && pair.compl.None?
      ensures table.entries == Assign(old(table.entries), name, pair)
    {
      var sig := new Signal();
      sig.Connect(handler);
      pair := new CmdPair(sig, None);
      table.Put(name, pair);
    }

    /** `reader << make_tuple(name, handler, completion)`. */
    method Register(name: string, handler: Handler, compl: Option<Completion>) returns (pair: CmdPair)
      requires table.Valid()
      modifies table
      ensures table.Valid() && fresh(pair) && fresh(pair.sig)
      ensures pair.sig.slots == [handler] && pair.compl == compl
      ensures table.entries == Assign(old(table.entries), name, pair)
    {
      var sig := new Signal();
      sig.Connect(handler);
      pair := new CmdPair(sig, compl);
      table.Put(name, pair);
    }

    /** `reader::add(name, completion)`: stores a new signal without slots
        under the name and hands it to the caller to connect to. */
    method Add(name: string, compl: Option<Completion>) returns (sig: Signal)
      requires table.Valid()
      modifies table
      ensures table.Valid() && fresh(sig) && sig.slots == []
      ensures var p := Pointer(table.entries, name);
        p != null && fresh(p) && p.sig == sig && p.compl == compl
        && table.entries == Assign(old(table.entries), name, p)
    {
      sig := new Signal();
      var pair := new CmdPair(sig, compl);
      table.Put(name, pair);
      FindAssign(old(table.entries), name, pair, name);
    }
  }

  // ---------------------------------------------------------------------
  // Properties of the main loop

  /** A line of one plain word is that command with no arguments. */
  lemma SingleWord(w: string)
    requires w != [] && forall k :: 0 <= k < |w| ==> !IsSpecial(w[k]) && !IsSpace(w[k])
    ensures Trim(w) == w && Tokenize(w).error == None && Words(Tokenize(w).tokens) == [w]
  {
    assert SpacesFrom(w, 0) == 0 && SpacesBefore(w, |w|) == 0;
    assert w[0..|w|] == w;
    PlainEscape(w);
    assert JoinWords([w]) == w;
    TokenizeJoin([w]);
    assert Words([w]) == [w];
  }

  /** `exit` and `quit` leave the loop without emitting: the exit flag is
      only what end of input set, and the table is as it was. */
  lemma QuitLeaves(history: seq<string>, es: seq<Entry>, input: Option<string>, connected: Connections)
    requires Tokenize(LineOf(input)).error == None
    requires NameOut(Words(Tokenize(LineOf(input)).tokens), []) == "exit"
      || NameOut(Words(Tokenize(LineOf(input)).tokens), []) == "quit"
    ensures Body(history, es, input, connected).stop.Some?
    ensures Body(history, es, input, connected).stop.value == Quit
    ensures Body(history, es, input, connected).entries == es
    ensures Body(history, es, input, connected).exit == input.None?
  {
  }

  /** A line without a command goes on to the next line with nothing
      emitted and the table unchanged. */
  lemma BlankLineSkipped(history: seq<string>, es: seq<Entry>, line: string, connected: Connections)
    requires Tokenize(Trim(line)).error == None
    requires forall k :: 0 <= k < |Tokenize(Trim(line)).tokens| ==> Tokenize(Trim(line)).tokens[k] == []
    ensures Body(history, es, Some(line), connected).stop.None?
    ensures !Body(history, es, Some(line), connected).exit
    ensures Body(history, es, Some(line), connected).entries == es
  {
    WordsOfEmpty(Tokenize(Trim(line)).tokens);
  }

  /** A command nobody registered is not emitted; the loop goes on with a
      null element added under its name. */
  lemma UnknownCommandInserted(history: seq<string>, es: seq<Entry>, input: Option<string>, connected: Connections)
    requires Tokenize(LineOf(input)).error == None
    requires var cmd := NameOut(Words(Tokenize(LineOf(input)).tokens), []);
      cmd != [] && cmd != "exit" && cmd != "quit" && Find(es, cmd).None?
    ensures Body(history, es, input, connected).stop.None?
    ensures Body(history, es, input, connected).exit == input.None?
    ensures var cmd := NameOut(Words(Tokenize(LineOf(input)).tokens), []);
      Body(history, es, input, connected).entries == Assign(es, cmd, null)
      && Find(Body(history, es, input, connected).entries, cmd) == Some(null)
  {
    var cmd := NameOut(Words(Tokenize(LineOf(input)).tokens), []);
    TouchFacts(es, cmd, cmd);
  }

  /** A registered command emits its signal: with no slot the loop fails,
      otherwise the last slot's answer becomes the exit flag. */
  lemma HandlerDecidesExit(history: seq<string>, es: seq<Entry>, input: Option<string>, connected: Connections)
    requires Tokenize(LineOf(input)).error == None
    requires var cmd := NameOut(Words(Tokenize(LineOf(input)).tokens), []);
      cmd != [] && cmd != "exit" && cmd != "quit" && Pointer(es, cmd) != null
    ensures Body(history, es, input, connected).entries == es
    ensures var split := Tokenize(LineOf(input));
      var cmd := NameOut(Words(split.tokens), []);
      var slots := SlotsOf(connected, Pointer(es, cmd).sig);
      var pass := Body(history, es, input, connected);
      (slots == [] ==> pass.stop == Some(NoSlots))
      && (slots != [] ==>
            pass.stop.None? && pass.exit == slots[|slots| - 1](cmd, ArgsOut(Words(split.tokens), [])))
  {
  }

  /** The end of input leaves the loop after that line, with the exit flag
      set and the history and table as they were. */
  lemma EndOfInputExits(history: seq<string>, es: seq<Entry>, more: seq<Option<string>>, connected: Connections)
    ensures var r := RunLoop(false, history, es, [None] + more, connected);
      r.end == Exited && r.consumed == 1 && r.exit && r.history == history && r.entries == es
  {
    assert Tokenize([]).tokens == [];
  }

  /** The loop reads lines until one leaves it or sets the exit flag: a
      pass that does neither is followed by the loop on the rest. */
  lemma LoopGoesOn(history: seq<string>, es: seq<Entry>, input: Option<string>, more: seq<Option<string>>, connected: Connections)
    requires Body(history, es, input, connected).stop.None?
    ensures var pass := Body(history, es, input, connected);
      Continues(RunLoop(false, history, es, [input] + more, connected), 1,
        RunLoop(pass.exit, pass.history, pass.entries, more, connected))
  {
    assert ([input] + more)[1..] == more;
  }

  /** One pass keeps every stored pointer and can only add a null one. */
  lemma BodyOnlyTouches(history: seq<string>, es: seq<Entry>, input: Option<string>, connected: Connections, name: string)
    ensures Find(es, name).Some? ==> Find(Body(history, es, input, connected).entries, name) == Find(es, name)
    ensures Find(es, name).None? ==>
      Find(Body(history, es, input, connected).entries, name).None?
      || Find(Body(history, es, input, connected).entries, name) == Some(null)
  {
    var cmd := NameOut(Words(Tokenize(LineOf(input)).tokens), []);
    BodyEntries(history, es, input, connected);
    TouchFacts(es, cmd, name);
  }

  lemma BodyEntries(history: seq<string>, es: seq<Entry>, input: Option<string>, connected: Connections)
    ensures Body(history, es, input, connected).entries == es
      || Body(history, es, input, connected).entries == Touch(es, NameOut(Words(Tokenize(LineOf(input)).tokens), []))
  {
  }

  /** The main loop only adds null elements to the table: every name keeps
      its pointer and each new name holds null. */
  lemma {:induction false} LoopOnlyTouches(exit: bool, history: seq<string>, es: seq<Entry>, lines: seq<Option<string>>, connected: Connections, name: string)
    decreases |lines|
    ensures Find(es, name).Some? ==> Find(RunLoop(exit, history, es, lines, connected).entries, name) == Find(es, name)
    ensures Find(es, name).None? ==>
      Find(RunLoop(exit, history, es, lines, connected).entries, name).None?
      || Find(RunLoop(exit, history, es, lines, connected).entries, name) == Some(null)
  {
    if !exit && lines != [] {
      BodyOnlyTouches(history, es, lines[0], connected, name);
      var pass := Body(history, es, lines[0], connected);
      if pass.stop.None? {
        LoopOnlyTouches(pass.exit, pass.history, pass.entries, lines[1..], connected, name);
      }
    }
  }

  // ---------------------------------------------------------------------
  // The null dereference in argument completion

  /** Typing an unknown command `foo` and then asking for completion on the
      line `foo ` dereferences the null element the main loop left under
      `foo`; the corrected completion answers null. */
  lemma UnknownCommandBreaksCompletion(files: Completion)
    ensures var r := RunLoop(false, [], [], [Some("foo")], map[]);
      r.end == Exhausted && Find(r.entries, "foo") == Some(null)
      && ArgLineCommand("foo ") == Some("foo")
      && ArgCompletionAsWritten(r.entries, "foo", [], 0, files).NullDeref?
      && ArgCompletion(r.entries, "foo", [], 0, files).None?
  {
    SingleWord("foo");
    assert NameOut(["foo"], []) == "foo";
    UnknownCommandInserted([], [], Some("foo"), map[]);
    assert Assign([], "foo", null) == [Entry("foo", null)];
    LoopGoesOn([], [], Some("foo"), [], map[]);
    ArgLineMatches("foo ");
    assert ArgLineAt("foo ", 0, 3);
    assert "foo "[0..3] == "foo";
  }

}
