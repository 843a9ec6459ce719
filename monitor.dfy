/**
 * The kernel monitor's command interpreter (runcmd in kern/monitor.c): it
 * splits a NUL-terminated command buffer into whitespace-separated arguments in
 * place, writing NULs over the separators it passes, accepts at most
 * MAXARGS - 1 arguments, and runs the first command of a fixed table whose name
 * is the first argument.  The monitor loop feeds it lines until a command
 * returns a negative value.
 */
module Monitor {
  import opened Wrappers

  const MAXARGS: int := 16
  const NUL: char := '\0'

  /** The separators: the characters of "\t\r\n ". */
  predicate IsSpace(c: char) { c == '\t' || c == '\r' || c == '\n' || c == ' ' }

  /** The C string at the start of s: everything before its first NUL. */
  function Line(s: seq<char>): seq<char> {
    if s == [] || s[0] == NUL then [] else [s[0]] + Line(s[1..])
  }

  /**
   * The C string is a NUL-free prefix of s, followed by a NUL unless it is all
   * of s; a buffer that holds a NUL holds it after its C string.
   */
  lemma {:induction false} LineShape(s: seq<char>)
    ensures |Line(s)| <= |s| && Line(s) == s[..|Line(s)|]
    ensures NUL !in Line(s)
    ensures |Line(s)| < |s| ==> s[|Line(s)|] == NUL
    ensures NUL in s ==> |Line(s)| < |s|
  {
    if s != [] && s[0] != NUL {
      LineShape(s[1..]);
      assert s == [s[0]] + s[1..];
    }
  }

  /** A NUL-free prefix followed by a NUL is the C string there. */
  lemma {:induction false} LineOf(s: seq<char>, n: nat)
    requires n < |s| && NUL !in s[..n] && s[n] == NUL
    ensures Line(s) == s[..n]
  {
    if n > 0 {
      assert s[1..][..n - 1] == s[1..n];
      assert NUL !in s[1..][..n - 1] by {
        assert forall c | c in s[1..n] :: c in s[..n];
      }
      LineOf(s[1..], n - 1);
      assert s[..n] == [s[0]] + s[1..n];
    }
  }

  /** The end of the run of non-separators that starts at i: the first separator at or after i, or |s|. */
  function RunEnd(s: seq<char>, i: nat): (j: nat)
    requires i <= |s|
    ensures i <= j <= |s|
    decreases |s| - i
  {
    if i == |s| || IsSpace(s[i]) then i else RunEnd(s, i + 1)
  }

  /** RunEnd finds exactly the end of a run of non-separators ended by a separator or the end of s. */
  lemma {:induction false} RunEndIs(s: seq<char>, i: nat, j: nat)
    requires i <= j <= |s|
    requires forall k | i <= k < j :: !IsSpace(s[k])
    requires j == |s| || IsSpace(s[j])
    ensures RunEnd(s, i) == j
    decreases j - i
  {
    if i < j {
      RunEndIs(s, i + 1, j);
    }
  }

  /** The run RunEnd measures is free of separators and ends at a separator or the end of s. */
  lemma {:induction false} RunEndShape(s: seq<char>, i: nat)
    requires i <= |s|
    ensures forall k | i <= k < RunEnd(s, i) :: !IsSpace(s[k])
    ensures RunEnd(s, i) == |s| || IsSpace(s[RunEnd(s, i)])
    decreases |s| - i
  {
    if i < |s| && !IsSpace(s[i]) {
      RunEndShape(s, i + 1);
    }
  }

  /** The arguments of s from position i on: its maximal runs of non-separators there, left to right. */
  function WordsFrom(s: seq<char>, i: nat): seq<seq<char>>
    requires i <= |s|
    decreases |s| - i
  {
    if i == |s| then []
    else if IsSpace(s[i]) then WordsFrom(s, i + 1)
    else
      var j := RunEnd(s, i);
      [s[i..j]] + WordsFrom(s, j)
  }

  /** The arguments of a line. */
  function Words(s: seq<char>): seq<seq<char>> {
    WordsFrom(s, 0)
  }

  /** A run of separators in front of the rest of a line adds no argument. */
  lemma {:induction false} SkipRun(line: seq<char>, p: nat, q: nat)
    requires p <= q <= |line|
    requires forall i | p <= i < q :: IsSpace(line[i])
    ensures WordsFrom(line, p) == WordsFrom(line, q)
    decreases q - p
  {
    if p < q {
      SkipRun(line, p + 1, q);
    }
  }

  /** A maximal run of non-separators at p is the next argument of the rest of the line. */
  lemma TakeWord(line: seq<char>, p: nat, q: nat)
    requires p < q <= |line|
    requires forall i | p <= i < q :: !IsSpace(line[i])
    requires q == |line| || IsSpace(line[q])
    ensures WordsFrom(line, p) == [line[p..q]] + WordsFrom(line, q)
  {
    RunEndIs(line, p, q);
  }

  /** Every argument is nonempty and free of separators. */
  lemma {:induction false} WordsAreRuns(s: seq<char>, i: nat)
    requires i <= |s|
    ensures forall k | 0 <= k < |WordsFrom(s, i)| :: WordsFrom(s, i)[k] != []
    ensures forall k, n | 0 <= k < |WordsFrom(s, i)| && 0 <= n < |WordsFrom(s, i)[k]| :: !IsSpace(WordsFrom(s, i)[k][n])
    decreases |s| - i
  {
    if i == |s| {
    } else if IsSpace(s[i]) {
      WordsAreRuns(s, i + 1);
    } else {
      RunEndShape(s, i);
      WordsAreRuns(s, RunEnd(s, i));
    }
  }

  /** A run of non-separators ends at the same place after a prefix a is put in front. */
  lemma {:induction false} RunEndShift(a: seq<char>, b: seq<char>, i: nat)
    requires i <= |b|
    ensures RunEnd(a + b, |a| + i) == |a| + RunEnd(b, i)
    decreases |b| - i
  {
    if i < |b| {
      assert (a + b)[|a| + i] == b[i];
      if !IsSpace(b[i]) {
        RunEndShift(a, b, i + 1);
      }
    }
  }

  /** A slice of b read inside a + b, shifted by |a|, is the same slice of b. */
  lemma SliceShift(a: seq<char>, b: seq<char>, i: nat, j: nat)
    requires i <= j <= |b|
    ensures (a + b)[|a| + i..|a| + j] == b[i..j]
  {
  }

  /** The arguments after a prefix a are those of what follows it. */
  lemma {:induction false} WordsShift(a: seq<char>, b: seq<char>, i: nat)
    requires i <= |b|
    ensures WordsFrom(a + b, |a| + i) == WordsFrom(b, i)
    decreases |b| - i
  {
    if i < |b| {
      if IsSpace(b[i]) {
        WordsShift(a, b, i + 1);
        ShiftSeparator(a, b, i);
      } else {
        RunEndShape(b, i);
        WordsShift(a, b, RunEnd(b, i));
        ShiftWord(a, b, i);
      }
    }
  }

  /** The step of WordsShift over a separator of b. */
  lemma ShiftSeparator(a: seq<char>, b: seq<char>, i: nat)
    requires i < |b| && IsSpace(b[i])
    requires WordsFrom(a + b, |a| + i + 1) == WordsFrom(b, i + 1)
    ensures WordsFrom(a + b, |a| + i) == WordsFrom(b, i)
  {
    assert (a + b)[|a| + i] == b[i];
  }

  /** The step of WordsShift over a run of non-separators of b. */
  lemma ShiftWord(a: seq<char>, b: seq<char>, i: nat)
    requires i < |b| && !IsSpace(b[i])
    requires WordsFrom(a + b, |a| + RunEnd(b, i)) == WordsFrom(b, RunEnd(b, i))
    ensures WordsFrom(a + b, |a| + i) == WordsFrom(b, i)
  {
    var j := RunEnd(b, i);
    assert (a + b)[|a| + i] == b[i];
    RunEndShift(a, b, i);
    SliceShift(a, b, i, j);
  }

  /** The line made of the given words separated by single blanks. */
  function Unwords(ws: seq<seq<char>>): seq<char> {
    if ws == [] then []
    else if |ws| == 1 then ws[0]
    else ws[0] + [' '] + Unwords(ws[1..])
  }

  /** Splitting words that were joined with blanks gives back the words. */
  lemma {:induction false} WordsUnwords(ws: seq<seq<char>>)
    requires forall k | 0 <= k < |ws| :: ws[k] != []
    requires forall k, i | 0 <= k < |ws| && 0 <= i < |ws[k]| :: !IsSpace(ws[k][i])
    ensures Words(Unwords(ws)) == ws
  {
    if ws != [] {
      var w := ws[0];
      var s := Unwords(ws);
      if |ws| == 1 {
        assert s == w && !IsSpace(w[0]);
        RunEndIs(s, 0, |w|);
        assert s[0..|w|] == w;
        assert WordsFrom(s, 0) == [s[0..|w|]] + WordsFrom(s, |w|);
      } else {
        var rest := Unwords(ws[1..]);
        assert s == w + [' '] + rest;
        RunEndIs(s, 0, |w|);
        assert s[0..|w|] == w;
        assert s == (w + [' ']) + rest;
        WordsShift(w + [' '], rest, 0);
        WordsUnwords(ws[1..]);
      }
    }
  }

  /** A line of separators only has no arguments. */
  lemma {:induction false} BlankLine(s: seq<char>, i: nat)
    requires i <= |s|
    requires forall k | i <= k < |s| :: IsSpace(s[k])
    ensures WordsFrom(s, i) == []
    decreases |s| - i
  {
    if i < |s| {
      BlankLine(s, i + 1);
    }
  }

  // -------------------------------------------------------------------
  // Commands
  // -------------------------------------------------------------------

  /** The command functions of the table; only their return values are modelled. */
  datatype Handler = Help | KernInfo | Backtrace | Exit

  datatype Command = Command(name: string, desc: string, func: Handler)

  const COMMANDS: seq<Command> := [
    Command("help", "Display this list of commands", Help),
    Command("kerninfo", "Display information about the kernel", KernInfo),
    Command("backtrace", "Display a stack backtrace", Backtrace),
    Command("exit", "Exit the kernel monitor", Exit)
  ]

  /**
   * What a command function returns: mon_help, mon_kerninfo and mon_backtrace
   * return 0, and mon_exit returns -1 to make the monitor stop.
   */
  function Invoke(h: Handler): (r: int)
    ensures r < 0 <==> h == Exit
  {
    match h
    case Exit => -1
    case _ => 0
  }

  /** The index of the first command called name, if there is one. */
  function FirstCommand(cmds: seq<Command>, name: string): (r: Option<nat>)
    ensures r.Some? ==> r.value < |cmds| && cmds[r.value].name == name
    ensures r.Some? ==> forall j | 0 <= j < r.value :: cmds[j].name != name
    ensures r.None? ==> forall j | 0 <= j < |cmds| :: cmds[j].name != name
  {
    if cmds == [] then None
    else if cmds[0].name == name then Some(0)
    else match FirstCommand(cmds[1..], name)
      case None => None
      case Some(i) => Some(i + 1)
  }

  /**
   * What runcmd returns for a command line: 0 for a line without arguments,
   * for one with too many and for an unknown command, and otherwise the
   * result of the first command named by the first argument.
   */
  function CmdResult(line: seq<char>): int {
    var ws := Words(line);
    if |ws| == 0 || |ws| > MAXARGS - 1 then 0
    else match FirstCommand(COMMANDS, ws[0])
      case None => 0
      case Some(i) => Invoke(COMMANDS[i].func)
  }

  /** runcmd asks the monitor to stop exactly for an accepted line whose first argument is "exit". */
  lemma ExitStops(line: seq<char>)
    ensures CmdResult(line) < 0 <==>
              var ws := Words(line); 1 <= |ws| <= MAXARGS - 1 && ws[0] == "exit"
  {
    var ws := Words(line);
    if 1 <= |ws| <= MAXARGS - 1 {
      var r := FirstCommand(COMMANDS, ws[0]);
      if ws[0] == "exit" {
        assert COMMANDS[3].name == ws[0];
        assert r == Some(3) by {
          assert "help" != "exit" && "kerninfo" != "exit" && "backtrace" != "exit";
        }
      }
    }
  }

  // -------------------------------------------------------------------
  // runcmd
  // -------------------------------------------------------------------

  /** A pointer into the command buffer, or NULL. */
  datatype Ptr = Null | At(index: nat)

  /** before with the separators among its first p characters overwritten by NUL. */
  function Blank(before: seq<char>, p: int): (a: seq<char>)
    ensures |a| == |before|
    ensures forall i | 0 <= i < |a| :: a[i] == if i < p && IsSpace(before[i]) then NUL else before[i]
  {
    seq(|before|, i requires 0 <= i < |before| => if i < p && IsSpace(before[i]) then NUL else before[i])
  }

  /**
   * The arguments found so far: the line holds found[k] at starts[k], followed
   * by a separator or the line's end, all before p.
   */
  ghost predicate Scanned(line: seq<char>, found: seq<seq<char>>, starts: seq<nat>, p: int)
  {
    && |found| == |starts|
    && forall k | 0 <= k < |found| ::
         && starts[k] + |found[k]| <= p <= |line|
         && line[starts[k]..starts[k] + |found[k]|] == found[k]
         && (starts[k] + |found[k]| == |line| || IsSpace(line[starts[k] + |found[k]|]))
  }

  /** argv[k] points at starts[k] for every argument found so far. */
  ghost predicate PointsAt(argv: seq<Ptr>, starts: seq<nat>)
  {
    |starts| <= |argv| && forall k | 0 <= k < |starts| :: argv[k] == At(starts[k])
  }

  /** An argument found from start up to its end p is recorded with its start. */
  lemma ScannedAdd(line: seq<char>, found: seq<seq<char>>, starts: seq<nat>, start: nat, p: nat)
    requires Scanned(line, found, starts, start)
    requires start < p <= |line| && (p == |line| || IsSpace(line[p]))
    ensures Scanned(line, found + [line[start..p]], starts + [start], p)
  {
  }

  /**
   * line is the C string at the start of before, spelled out: a NUL-free
   * prefix of before that is followed by a NUL.
   */
  ghost predicate CString(before: seq<char>, line: seq<char>)
  {
    |line| < |before| && before[..|line|] == line && NUL !in line && before[|line|] == NUL
  }

  /** The C string spelled out is the one Line finds. */
  lemma CStringIsLine(s: seq<char>, w: seq<char>)
    requires CString(s, w)
    ensures Line(s) == w
  {
    LineOf(s, |w|);
  }

  /** The C string of a buffer that holds a NUL is its Line. */
  lemma CStringLine(before: seq<char>)
    requires NUL in before
    ensures CString(before, Line(before))
  {
    LineShape(before);
  }

  /** Once the scan has reached the end of the line, every argument found is a C string of the buffer. */
  lemma Terminated(buf: seq<char>, before: seq<char>, line: seq<char>, argv: seq<Ptr>, found: seq<seq<char>>, starts: seq<nat>)
    requires CString(before, line)
    requires buf == Blank(before, |line|)
    requires Scanned(line, found, starts, |line|) && PointsAt(argv, starts)
    requires found == Words(line)
    ensures forall k | 0 <= k < |found| ::
              argv[k].At? && argv[k].index < |buf| && CString(buf[argv[k].index..], found[k])
  {
    WordsAreRuns(line, 0);
    forall k | 0 <= k < |found|
      ensures argv[k].At? && argv[k].index < |buf| && CString(buf[argv[k].index..], found[k])
    {
      var st, n := starts[k], |found[k]|;
      assert forall i | st <= i < st + n :: buf[i] == line[i] by {
        forall i | st <= i < st + n
          ensures buf[i] == line[i]
        {
          assert line[i] == found[k][i - st];
          assert before[i] == line[i];
        }
      }
      assert buf[st..][..n] == found[k];
      assert buf[st..][n] == NUL;
      assert NUL !in found[k] by {
        forall i | 0 <= i < n
          ensures found[k][i] != NUL
        {
          assert found[k][i] == line[st + i] && line[st + i] in line;
        }
      }
    }
  }

  /**
   * The separator-gobbling loop of runcmd: from p on, overwrite separators
   * with NUL up to the next argument or the end of the line.  The arguments of
   * the rest of the line are not changed by this.
   */
  method SkipSeparators(buf: array<char>, p: nat, ghost before: seq<char>, ghost line: seq<char>) returns (q: nat)
    requires CString(before, line) && p <= |line|
    requires buf[..] == Blank(before, p)
    modifies buf
    ensures p <= q <= |line| < buf.Length
    ensures buf[..] == Blank(before, q)
    ensures buf[q] == NUL <==> q == |line|
    ensures forall i | p <= i < q :: IsSpace(line[i])
    ensures q == |line| || !IsSpace(line[q])
  {
    q := p;
    while buf[q] != NUL && IsSpace(buf[q])
      invariant p <= q <= |line|
      invariant buf[..] == Blank(before, q)
      invariant forall i | p <= i < q :: IsSpace(line[i])
      decreases |line| - q
    {
      assert before[q] == line[q];
      buf[q] := NUL;
      q := q + 1;
    }
    if q < |line| {
      assert before[q] == line[q];
    }
  }

  /**
   * The argument-scanning loop of runcmd: the end of the argument that starts
   * at p, which is the first separator after p or the line's terminating NUL.
   * The run from p to there is the next argument of the rest of the line.
   */
  method ScanArgument(buf: array<char>, p: nat, ghost before: seq<char>, ghost line: seq<char>) returns (q: nat)
    requires CString(before, line) && p < |line| && !IsSpace(line[p])
    requires buf[..] == Blank(before, p)
    ensures p < q <= |line|
    ensures forall i | p <= i < q :: !IsSpace(line[i])
    ensures q == |line| || IsSpace(line[q])
    ensures buf[..] == Blank(before, q)
  {
    q := p;
    while buf[q] != NUL && !IsSpace(buf[q])
      invariant p <= q <= |line|
      invariant forall i | p <= i < q :: !IsSpace(line[i])
      decreases |line| - q
    {
      assert before[q] == line[q];
      q := q + 1;
    }
    if q < |line| {
      assert before[q] == line[q];
    }
    BlankRun(before, p, q);
  }

  /** Blanking stops making a difference across a run of non-separators. */
  lemma BlankRun(before: seq<char>, p: nat, q: nat)
    requires p <= q <= |before|
    requires forall i | p <= i < q :: !IsSpace(before[i])
    ensures Blank(before, p) == Blank(before, q)
  {
  }

  /**
   * The state of runcmd's scan when it is about to skip separators at p: b is
   * the buffer, with the separators before p blanked; found are the arguments
   * before p, the rest of the line holds the others, and av[k] points at the
   * start of found[k].
   */
  ghost predicate Progress(before: seq<char>, line: seq<char>, b: seq<char>, av: seq<Ptr>,
                           found: seq<seq<char>>, starts: seq<nat>, p: nat)
  {
    && CString(before, line) && p <= |line|
    && b == Blank(before, p)
    && |found| < MAXARGS && |av| == MAXARGS
    && Words(line) == found + WordsFrom(line, p)
    && Scanned(line, found, starts, p)
    && PointsAt(av, starts)
  }

  /** Before the scan nothing is found and nothing blanked. */
  lemma ProgressStart(before: seq<char>, line: seq<char>, av: seq<Ptr>)
    requires CString(before, line) && |av| == MAXARGS
    ensures Progress(before, line, before, av, [], [], 0)
  {
    assert Blank(before, 0) == before;
  }

  /** Gobbling separators, and blanking them, keeps the scan's progress. */
  lemma ProgressSkip(before: seq<char>, line: seq<char>, b: seq<char>, b': seq<char>, av: seq<Ptr>,
                     found: seq<seq<char>>, starts: seq<nat>, p: nat, q: nat)
    requires Progress(before, line, b, av, found, starts, p)
    requires p <= q <= |line| && b' == Blank(before, q)
    requires forall i | p <= i < q :: IsSpace(line[i])
    ensures Progress(before, line, b', av, found, starts, q)
  {
    SkipRun(line, p, q);
  }

  /** Saving a pointer to the argument that runs from start to p advances the scan's progress past it. */
  lemma ProgressTake(before: seq<char>, line: seq<char>, b: seq<char>, av: seq<Ptr>,
                     found: seq<seq<char>>, starts: seq<nat>, start: nat, p: nat)
    requires Progress(before, line, b, av, found, starts, start)
    requires |found| < MAXARGS - 1
    requires start < p <= |line| && (p == |line| || IsSpace(line[p]))
    requires forall i | start <= i < p :: !IsSpace(line[i])
    requires b == Blank(before, p)
    ensures Progress(before, line, b, av[|found| := At(start)], found + [line[start..p]], starts + [start], p)
  {
    TakeWord(line, start, p);
    ScannedAdd(line, found, starts, start, p);
    PointsAtAdd(av, starts, start);
    assert Words(line) == (found + [line[start..p]]) + WordsFrom(line, p);
  }

  /** Saving a pointer to the next argument's start extends the saved pointers. */
  lemma PointsAtAdd(av: seq<Ptr>, starts: seq<nat>, start: nat)
    requires PointsAt(av, starts) && |starts| < |av|
    ensures PointsAt(av[|starts| := At(start)], starts + [start])
  {
  }

  /** Writing NULL past the arguments found so far keeps the scan's progress. */
  lemma ProgressNull(before: seq<char>, line: seq<char>, b: seq<char>, av: seq<Ptr>,
                     found: seq<seq<char>>, starts: seq<nat>, p: nat)
    requires Progress(before, line, b, av, found, starts, p)
    ensures Progress(before, line, b, av[|found| := Null], found, starts, p)
  {
  }

  /** The scan reached the end of the line: it found all the arguments, each now a C string of the buffer. */
  lemma ProgressDone(before: seq<char>, line: seq<char>, b: seq<char>, av: seq<Ptr>,
                     found: seq<seq<char>>, starts: seq<nat>)
    requires Progress(before, line, b, av, found, starts, |line|)
    ensures found == Words(line)
    ensures forall k | 0 <= k < |found| ::
              av[k].At? && av[k].index < |b| && CString(b[av[k].index..], found[k])
  {
    Terminated(b, before, line, av, found, starts);
  }

  /** The scan met argument MAXARGS at p: the line has too many, and those from p on are the excess. */
  lemma ProgressFull(before: seq<char>, line: seq<char>, b: seq<char>, av: seq<Ptr>,
                     found: seq<seq<char>>, starts: seq<nat>, p: nat)
    requires Progress(before, line, b, av, found, starts, p)
    requires |found| == MAXARGS - 1 && p < |line| && !IsSpace(line[p])
    ensures |Words(line)| > MAXARGS - 1
    ensures WordsFrom(line, p) == Words(line)[MAXARGS - 1..]
  {
    assert WordsFrom(line, p) != [];
  }

  /**
   * The parsing half of runcmd.  Without too many arguments, argv[0..argc)
   * point at NUL-terminated copies of the line's arguments in the buffer and
   * argv[argc] is NULL; every separator of the line is now a NUL.  With too
   * many, the scan stops at the start of argument MAXARGS, having blanked the
   * separators before it.
   */
  method Parse(buf: array<char>) returns (argv: array<Ptr>, argc: nat, tooMany: bool, ghost stop: nat)
    requires NUL in buf[..]
    modifies buf
    ensures fresh(argv) && argv.Length == MAXARGS
    ensures var line := Line(old(buf[..]));
      && stop <= |line|
      && buf[..] == Blank(old(buf[..]), stop)
      && (tooMany <==> |Words(line)| > MAXARGS - 1)
      && (!tooMany ==>
            && stop == |line|
            && argc == |Words(line)| < MAXARGS
            && argv[argc] == Null
            && forall k | 0 <= k < argc ::
                 argv[k].At? && argv[k].index < buf.Length && CString(buf[argv[k].index..], Words(line)[k]))
      && (tooMany ==>
            && argc == MAXARGS - 1
            && stop < |line| && !IsSpace(line[stop])
            && WordsFrom(line, stop) == Words(line)[MAXARGS - 1..])
  {
    ghost var before := buf[..];
    ghost var line := Line(before);
    CStringLine(before);
    argv := new Ptr[MAXARGS](_ => Null);
    argc := 0;
    tooMany := false;
    ghost var found: seq<seq<char>> := [];
    ghost var starts: seq<nat> := [];
    var p := 0;
    ProgressStart(before, line, argv[..]);
    while true
      invariant Progress(before, line, buf[..], argv[..], found, starts, p)
      invariant argc == |found|
      decreases |line| - p
    {
      // gobble separators
      ghost var b := buf[..];
      var q := SkipSeparators(buf, p, before, line);
      ProgressSkip(before, line, b, buf[..], argv[..], found, starts, p, q);
      p := q;
      if buf[p] == NUL {
        break;
      }
      // save and scan past the next argument
      if argc == MAXARGS - 1 {
        tooMany := true;
        stop := p;
        ProgressFull(before, line, buf[..], argv[..], found, starts, p);
        return;
      }
      q := ScanArgument(buf, p, before, line);
      ProgressTake(before, line, buf[..], argv[..], found, starts, p, q);
      argv[argc] := At(p);
      found := found + [line[p..q]];
      starts := starts + [p];
      argc := argc + 1;
      p := q;
    }
    stop := p;
    ghost var av := argv[..];
    argv[argc] := Null;
    ProgressNull(before, line, buf[..], av, found, starts, p);
    ProgressDone(before, line, buf[..], argv[..], found, starts);
  }

  /**
   * runcmd: parse the buffer into arguments, then run the first command of the
   * table named by the first argument and return what it returns.  A line
   * without arguments, one with too many and an unknown command give 0.
   * invoked is the index of the command that ran, if any.
   */
  method RunCmd(buf: array<char>) returns (r: int, ghost invoked: Option<nat>)
    requires NUL in buf[..]
    modifies buf
    ensures var ws := Words(Line(old(buf[..])));
      && r == CmdResult(Line(old(buf[..])))
      && invoked == (if 1 <= |ws| < MAXARGS then FirstCommand(COMMANDS, ws[0]) else None)
      && (invoked.Some? ==> r == Invoke(COMMANDS[invoked.value].func))
      && (|ws| < MAXARGS ==> buf[..] == Blank(old(buf[..]), |Line(old(buf[..]))|))
    ensures forall i | 0 <= i < buf.Length :: buf[i] == old(buf[i]) || (IsSpace(old(buf[i])) && buf[i] == NUL)
  {
    ghost var line := Line(buf[..]);
    var argv, argc, tooMany, stop := Parse(buf);
    if tooMany {
      // "Too many arguments"
      return 0, None;
    }
    if argc == 0 {
      return 0, None;
    }
    ghost var ws := Words(line);
    var c := FindCommand(buf, argv[0].index, ws[0]);
    if c.None? {
      // "Unknown command"
      return 0, None;
    }
    return Invoke(COMMANDS[c.value].func), c;
  }

  /**
   * The command lookup of runcmd: the index of the first command of the table
   * whose name equals the C string at buf[at..], which is name.
   */
  method FindCommand(buf: array<char>, at: nat, ghost name: string) returns (c: Option<nat>)
    requires at < buf.Length && CString(buf[at..], name)
    ensures c == FirstCommand(COMMANDS, name)
  {
    CStringIsLine(buf[at..], name);
    var i := 0;
    while i < |COMMANDS|
      invariant 0 <= i <= |COMMANDS|
      invariant forall j | 0 <= j < i :: COMMANDS[j].name != name
    {
      if Line(buf[at..]) == COMMANDS[i].name {
        return Some(i);
      }
      i := i + 1;
    }
    return None;
  }

  /** Whether the monitor stops after a readline result: a line (not NULL) on which runcmd returns a negative value. */
  predicate Stops(input: Option<string>) {
    input.Some? && CmdResult(Line(input.value + [NUL])) < 0
  }

  /** readline returns a line without its terminator; the C string of the line and its NUL is the line. */
  lemma LineTerminated(s: string)
    requires NUL !in s
    ensures Line(s + [NUL]) == s
  {
    LineOf(s + [NUL], |s|);
    assert (s + [NUL])[..|s|] == s;
  }

  /** The monitor stops on a line exactly when it has 1 to MAXARGS - 1 arguments, the first being "exit". */
  lemma StopsOnExit(s: string)
    requires NUL !in s
    ensures Stops(Some(s)) <==> 1 <= |Words(s)| < MAXARGS && Words(s)[0] == "exit"
  {
    LineTerminated(s);
    ExitStops(s);
  }

  /** One pass of the monitor loop: copy the line read into a NUL-terminated buffer and run it. */
  method RunLine(s: string) returns (r: int)
    ensures r == CmdResult(Line(s + [NUL]))
  {
    var buf := new char[|s| + 1](i => if 0 <= i < |s| then s[i] else NUL);
    assert buf[..] == s + [NUL];
    ghost var invoked;
    r, invoked := RunCmd(buf);
  }

  /**
   * The monitor loop over the results of successive readline calls: it runs
   * every line that is not NULL and stops at the first one whose command
   * returns a negative value, giving its position; with no such line it
   * consumes the whole input.
   */
  method RunMonitor(input: seq<Option<string>>) returns (stopped: Option<nat>)
    ensures stopped.Some? ==>
              && stopped.value < |input| && Stops(input[stopped.value])
              && forall i | 0 <= i < stopped.value :: !Stops(input[i])
    ensures stopped.None? ==> forall i | 0 <= i < |input| :: !Stops(input[i])
  {
    var k := 0;
    while k < |input|
      invariant 0 <= k <= |input|
      invariant forall i | 0 <= i < k :: !Stops(input[i])
    {
      if input[k].Some? {
        var r := RunLine(input[k].value);
        if r < 0 {
          return Some(k);
        }
      }
      k := k + 1;
    }
    return None;
  }
}
