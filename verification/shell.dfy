/** The shell: registered commands, and the command line run from a private buffer. */
module Shell {
  import opened CString
  import opened Memory
  import opened Strtok
  import opened CommandLine

  const MAX_ARGS: nat := 10
  const CMD_BUF: nat := 40
  /** A registered command: its name and what it returns for its arguments. */
  datatype ShellCmd = ShellCmd(name: string, func: seq<string> -> int)

  /** What running a line comes to. In the last two cases the source does not get to a result: it
      compares a NULL pointer with the names of the commands, or its assert fails. */
  datatype Code = ShellOk | CmdTooLong | CmdIsNull | NoSuchCmd | NullCompared | TooManyArgs

  /** `m` is a buffer with the line at its start. */
  ghost predicate Buffered(line: string, m: seq<char>)
    requires NUL !in line
  {
    |line| < |m| && m[..|line| + 1] == line + [NUL]
  }

  /** A word already cut out of the buffer can be read in place. */
  lemma WordAt(line: string, m: seq<char>, m': seq<char>, n: nat, i: nat)
    requires NUL !in line && Buffered(line, m)
    requires CutBehind(m, m', LineTokens(line), n) && i < n <= |LineTokens(line)|
    ensures Terminated(m', LineTokens(line)[i].start)
    ensures StringAt(m', LineTokens(line)[i].start) == Words(line)[i]
  {
    var ts := LineTokens(line);
    BufferAgrees(line, m);
    AgreeEnd(line + [NUL], m, 0);
    TokensInOrder(line + [NUL], DELIMITERS, true, 0);
    CutReadable(m, m', ts, n, i, 0);
    WordBounds(line);
    SliceOfTake(m, |line| + 1, ts[i].start, ts[i].end);
  }

  /** The buffer holds the line up to its terminator. */
  lemma BufferAgrees(line: string, m: seq<char>)
    requires NUL !in line && Buffered(line, m)
    ensures Agree(line + [NUL], m, 0) && StringEnd(line + [NUL], 0) == |line|
    ensures Terminated(m, 0)
  {
    LineEnds(line);
    forall i | 0 <= i <= |line| ensures m[i] == (line + [NUL])[i] {
      assert m[i] == m[..|line| + 1][i];
    }
    AgreeEnd(line + [NUL], m, 0);
  }

  lemma SliceOfTake(m: seq<char>, n: nat, i: nat, j: nat)
    requires i <= j <= n <= |m|
    ensures m[..n][i..j] == m[i..j]
  {
  }

  lemma DropNext<T>(s: seq<T>, n: nat)
    requires n < |s|
    ensures s[n..] != [] && s[n..][0] == s[n] && s[n..][1..] == s[n + 1..]
  {
  }

  /** The first command of that name. */
  function Find(cmds: seq<ShellCmd>, name: string): (k: nat)
    ensures k <= |cmds|
    ensures k < |cmds| ==> cmds[k].name == name
    ensures forall i :: 0 <= i < k ==> cmds[i].name != name
  {
    if cmds == [] || cmds[0].name == name then 0 else 1 + Find(cmds[1..], name)
  }

  /** Command `k` is the first of that name. */
  ghost predicate FirstOfName(cmds: seq<ShellCmd>, k: nat, name: string) {
    k < |cmds| && cmds[k].name == name && forall i :: 0 <= i < k ==> cmds[i].name != name
  }

  class ShellWorld {
    var initialized: bool
    var cmds: seq<ShellCmd>
    const cmdBuf: array<char>
    const help: ShellCmd
    ghost var calls: seq<(nat, seq<string>)>   // which command was called with what

    ghost predicate Valid()
      reads this
    {
      cmdBuf.Length == CMD_BUF
    }

    constructor (help: seq<string> -> int)
      ensures Valid() && !initialized && cmds == [] && calls == [] && this.help == ShellCmd("help", help)
      ensures fresh(cmdBuf)
    {
      initialized, cmds, calls := false, [], [];
      cmdBuf := new char[CMD_BUF];
      this.help := ShellCmd("help", help);
    }

    /** The first call also registers the help command, in front. */
    method AddCmd(cmd: ShellCmd)
      requires Valid()
      modifies this`initialized, this`cmds
      ensures Valid() && initialized
      ensures cmds == (if old(initialized) then old(cmds) else [help]) + [cmd]
    {
      if !initialized {
        initialized := true;
        cmds := [];
        cmds := cmds + [help];
      }
      cmds := cmds + [cmd];
    }

    /** Copy the line with its terminator. */
    method CopyLine(line: string)
      requires Valid() && |line| < CMD_BUF
      modifies cmdBuf
      ensures cmdBuf[..|line| + 1] == line + [NUL]
    {
      var i := 0;
      while i < |line|
        invariant i <= |line| && cmdBuf[..i] == line[..i]
      {
        cmdBuf[i] := line[i];
        i := i + 1;
      }
      cmdBuf[i] := NUL;
    }

    /** Collect the arguments that follow the command in the buffer. `m` is the buffer
        before anything was cut. The assert in the loop fails exactly if there are too many. */
    method CollectArgs(argv: array<nat>, first: nat, position: Option<nat>, line: string, ghost m: seq<char>)
      returns (argc: nat, failed: bool)
      requires Valid() && argv.Length == MAX_ARGS && NUL !in line && 0 < |LineTokens(line)|
      requires Left(line, position, 1) && first == LineTokens(line)[0].start
      requires CutBehind(m, cmdBuf[..], LineTokens(line), 1)
      modifies argv, cmdBuf
      ensures failed <==> MAX_ARGS < |LineTokens(line)|
      ensures !failed ==> argc == |LineTokens(line)| && CutBehind(m, cmdBuf[..], LineTokens(line), argc)
      ensures !failed ==> forall i :: 0 <= i < argc ==> argv[i] == LineTokens(line)[i].start
    {
      ghost var ts := LineTokens(line);
      argv[0] := first;
      argc, failed := 1, false;
      var token_r := position;
      while true
        invariant 1 <= argc <= |ts| && argc <= MAX_ARGS && !failed && Left(line, token_r, argc)
        invariant CutBehind(m, cmdBuf[..], ts, argc)
        invariant forall i :: 0 <= i < argc ==> argv[i] == ts[i].start
        decreases |ts| - argc
      {
        var arg;
        arg, token_r := NextArg(line, token_r, argc, m);
        if arg.None? {
          return;
        }
        if MAX_ARGS <= argc {
          return argc, true;
        }
        StoreArg(argv, argc, arg.value, ts);
        argc := argc + 1;
      }
    }

    method StoreArg(argv: array<nat>, argc: nat, arg: nat, ghost ts: seq<Span>)
      requires argc < argv.Length && argc < |ts| && arg == ts[argc].start
      requires forall i :: 0 <= i < argc ==> argv[i] == ts[i].start
      modifies argv
      ensures forall i :: 0 <= i < argc + 1 ==> argv[i] == ts[i].start
    {
      argv[argc] := arg;
    }

    /** All but the first `n` tokens of the line are still to come. */
    ghost predicate Left(line: string, position: Option<nat>, n: nat)
      requires NUL !in line && n <= |LineTokens(line)|
      reads this, cmdBuf
    {
      && AgreeFrom(line + [NUL], cmdBuf[..], position)
      && TokensLeft(line + [NUL], DELIMITERS, true, position) == LineTokens(line)[n..]
    }

    /** The next token of the line, if there is one. */
    method NextArg(line: string, position: Option<nat>, ghost n: nat, ghost m: seq<char>)
      returns (arg: Option<nat>, token_r: Option<nat>)
      requires NUL !in line && n <= |LineTokens(line)| && Left(line, position, n)
      requires CutBehind(m, cmdBuf[..], LineTokens(line), n)
      modifies cmdBuf
      ensures arg.None? ==> n == |LineTokens(line)| && CutBehind(m, cmdBuf[..], LineTokens(line), n)
      ensures arg.Some? ==>
        && n < |LineTokens(line)| && arg.value == LineTokens(line)[n].start
        && Left(line, token_r, n + 1) && CutBehind(m, cmdBuf[..], LineTokens(line), n + 1)
    {
      ghost var ts := LineTokens(line);
      CallTakesToken(line + [NUL], cmdBuf[..], DELIMITERS, true, position);
      if n < |ts| {
        DropNext(ts, n);
        CutMore(m, cmdBuf[..], ts, n);
      }
      arg, token_r := StrtokR(cmdBuf, None, DELIMITERS, position);
    }

    /** Copy the line into the buffer and cut its first word, if it has one. `m` is the buffer
        before the cut. */
    method FirstWord(line: string) returns (cmdStr: Option<nat>, token_r: Option<nat>, ghost m: seq<char>)
      requires Valid() && NUL !in line && |line| < CMD_BUF
      modifies cmdBuf
      ensures cmdStr.None? <==> Words(line) == []
      ensures cmdStr.Some? ==>
        && Buffered(line, m) && CutBehind(m, cmdBuf[..], LineTokens(line), 1)
        && cmdStr.value == LineTokens(line)[0].start && Left(line, token_r, 1)
    {
      CopyLine(line);
      m := cmdBuf[..];
      BufferAgrees(line, m);
      ghost var ts := LineTokens(line);
      CallTakesToken(line + [NUL], m, DELIMITERS, true, Some(0));
      if ts != [] {
        assert CutBehind(m, m, ts, 0);
        CutMore(m, m, ts, 0);
      }
      cmdStr, token_r := StrtokR(cmdBuf, Some(0), DELIMITERS, None);
    }

    /** Call command `k` with the words of the line, unless there are too many. */
    method Invoke(k: nat, line: string, cmdStr: nat, token_r: Option<nat>, ghost m: seq<char>)
      returns (failed: bool, rv: int)
      requires Valid() && NUL !in line && Buffered(line, m) && 0 < |Words(line)| && k < |cmds|
      requires CutBehind(m, cmdBuf[..], LineTokens(line), 1) && cmdStr == LineTokens(line)[0].start
      requires Left(line, token_r, 1)
      modifies cmdBuf, this`calls
      ensures failed <==> MAX_ARGS < |Words(line)|
      ensures if failed then calls == old(calls)
              else rv == cmds[k].func(Words(line)) && calls == old(calls) + [(k, Words(line))]
    {
      var argv := new nat[MAX_ARGS];
      var argc;
      argc, failed := CollectArgs(argv, cmdStr, token_r, line, m);
      if failed {
        return failed, 1;
      }
      forall i | 0 <= i < argc
        ensures Terminated(cmdBuf[..], argv[i]) && StringAt(cmdBuf[..], argv[i]) == Words(line)[i]
      {
        WordAt(line, m, cmdBuf[..], argc, i);
      }
      var args := Arguments(argv, argc);
      assert args == Words(line);
      rv := cmds[k].func(args);
      calls := calls + [(k, args)];
    }

    /** What running a line of at most 39 characters comes to. */
    ghost predicate RunsAs(line: string, code: Code, cmdRv: int, before: seq<(nat, seq<string>)>)
      requires NUL !in line
      reads this
    {
      var ws := Words(line);
      if ws == [] then code == NullCompared && calls == before
      else
        var k := Find(cmds, ws[0]);
        if k == |cmds| then code == NoSuchCmd && cmdRv == 1 && calls == before
        else if 10 < |ws| then code == TooManyArgs && calls == before
        else code == ShellOk && calls == before + [(k, ws)] && cmdRv == cmds[k].func(ws)
    }

    /** If the line is put together from up to ten words, and the first is the name of a command,
        the first command of that name has been called with just these words. */
    ghost predicate CallsNamed(line: string, code: Code, cmdRv: int, before: seq<(nat, seq<string>)>)
      reads this
    {
      forall words, gaps, k: nat :: Spells(line, words, gaps) && 0 < |words| <= 10 && FirstOfName(cmds, k, words[0])
        ==> code == ShellOk && calls == before + [(k, words)] && cmdRv == cmds[k].func(words)
    }

    lemma RunsNamed(line: string, code: Code, cmdRv: int, before: seq<(nat, seq<string>)>)
      requires NUL !in line && RunsAs(line, code, cmdRv, before)
      ensures CallsNamed(line, code, cmdRv, before)
    {
      forall words, gaps, k: nat | Spells(line, words, gaps) && 0 < |words| <= 10 && FirstOfName(cmds, k, words[0])
        ensures code == ShellOk && calls == before + [(k, words)] && cmdRv == cmds[k].func(words)
      {
        SpelledWords(line, words, gaps);
        assert Find(cmds, words[0]) == k;
      }
    }

    /** Run a command line. */
    method RunCmd(cmdArgs: Option<string>) returns (code: Code, cmdRv: int)
      requires Valid()
      requires cmdArgs.Some? ==> NUL !in cmdArgs.value
      modifies cmdBuf, this`calls
      ensures cmdArgs.None? ==> code == CmdIsNull && cmdRv == 1 && calls == old(calls)
      ensures cmdArgs.Some? && 40 <= |cmdArgs.value| ==> code == CmdTooLong && cmdRv == 1 && calls == old(calls)
      ensures cmdArgs.Some? && |cmdArgs.value| < 40 ==>
        RunsAs(cmdArgs.value, code, cmdRv, old(calls)) && CallsNamed(cmdArgs.value, code, cmdRv, old(calls))
    {
      code, cmdRv := RunLine(cmdArgs);
      if cmdArgs.Some? && |cmdArgs.value| < 40 {
        RunsNamed(cmdArgs.value, code, cmdRv, old(calls));
      }
    }

    method RunLine(cmdArgs: Option<string>) returns (code: Code, cmdRv: int)
      requires Valid()
      requires cmdArgs.Some? ==> NUL !in cmdArgs.value
      modifies cmdBuf, this`calls
      ensures cmdArgs.None? ==> code == CmdIsNull && cmdRv == 1 && calls == old(calls)
      ensures cmdArgs.Some? && 40 <= |cmdArgs.value| ==> code == CmdTooLong && cmdRv == 1 && calls == old(calls)
      ensures cmdArgs.Some? && |cmdArgs.value| < 40 ==> RunsAs(cmdArgs.value, code, cmdRv, old(calls))
    {
      cmdRv := 1;
      if cmdArgs.None? {
        return CmdIsNull, cmdRv;
      }
      var line := cmdArgs.value;
      if CMD_BUF < |line| + 1 {
        return CmdTooLong, cmdRv;
      }
      var cmdStr, token_r;
      ghost var m;
      cmdStr, token_r, m := FirstWord(line);
      if cmdStr.None? {
        return NullCompared, cmdRv;
      }
      code, cmdRv := RunFirst(line, cmdStr.value, token_r, m);
    }

    /** Search for the command and call it. */
    method RunFirst(line: string, cmdStr: nat, token_r: Option<nat>, ghost m: seq<char>) returns (code: Code, cmdRv: int)
      requires Valid() && NUL !in line && Buffered(line, m) && 0 < |Words(line)|
      requires CutBehind(m, cmdBuf[..], LineTokens(line), 1) && cmdStr == LineTokens(line)[0].start
      requires Left(line, token_r, 1)
      modifies cmdBuf, this`calls
      ensures var ws := Words(line);
              var k := Find(cmds, ws[0]);
              if k == |cmds| then code == NoSuchCmd && cmdRv == 1 && calls == old(calls)
              else if MAX_ARGS < |ws| then code == TooManyArgs && calls == old(calls)
              else code == ShellOk && calls == old(calls) + [(k, ws)] && cmdRv == cmds[k].func(ws)
    {
      WordAt(line, m, cmdBuf[..], 1, 0);
      var k := Search(StringAt(cmdBuf[..], cmdStr));
      if k == |cmds| {
        return NoSuchCmd, 1;
      }
      var failed;
      failed, cmdRv := Invoke(k, line, cmdStr, token_r, m);
      code := if failed then TooManyArgs else ShellOk;
    }

    /** The strings `argv` points to. */
    function Arguments(argv: array<nat>, argc: nat): (r: seq<string>)
      requires argc <= argv.Length
      requires forall i :: 0 <= i < argc ==> Terminated(cmdBuf[..], argv[i])
      reads this, cmdBuf, argv
      ensures |r| == argc && forall i :: 0 <= i < argc ==> r[i] == StringAt(cmdBuf[..], argv[i])
    {
      if argc == 0 then [] else Arguments(argv, argc - 1) + [StringAt(cmdBuf[..], argv[argc - 1])]
    }

    /** The first registered command of that name, or the number of commands. */
    method Search(name: string) returns (k: nat)
      ensures k == Find(cmds, name)
    {
      k := 0;
      while k < |cmds|
        invariant k <= |cmds|
        invariant Find(cmds, name) == k + Find(cmds[k..], name)
      {
        if cmds[k].name == name {
          return;
        }
        DropNext(cmds, k);
        k := k + 1;
      }
    }
  }
}
