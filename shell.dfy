/** The command-line splitter of the shell (get_args, HW2/main.c:52-84).
    `strtok` cuts the line into words at spaces, tabs and newlines; each
    word is stored in the `argv` of the current command, a ";" word ends the
    command and a "&" word marks it to run in the background.  The commands
    go into the caller's array `commands`, which is updated in place. */
module Shell {
  import opened Options

  /** MAX_ARGS: the number of `argv` slots of a command. */
  const MAX_ARGS: nat := 20

  // ---------------------------------------------------------------------
  // strtok(line, "\n\t ")

  /** The separators given to `strtok`. */
  predicate IsDelim(c: char)
  {
    c == '\n' || c == '\t' || c == ' '
  }

  /** What `strtok` can return: a non-empty run of non-separators. */
  predicate IsWord(w: string)
  {
    |w| > 0 && forall c :: c in w ==> !IsDelim(c)
  }

  /** The length of the word at the front of `s`. */
  function WordLength(s: string): (n: nat)
    requires |s| > 0 && !IsDelim(s[0])
    ensures 1 <= n <= |s| && IsWord(s[..n]) && (n < |s| ==> IsDelim(s[n]))
  {
    if |s| == 1 || IsDelim(s[1]) then 1
    else
      var n := 1 + WordLength(s[1..]);
      assert s[..n] == [s[0]] + s[1..][..n - 1];
      n
  }

  /** The words the successive `strtok` calls return, in order. */
  function Tokens(s: string): (ts: seq<string>)
    ensures forall k :: 0 <= k < |ts| ==> IsWord(ts[k])
    decreases |s|
  {
    if |s| == 0 then []
    else if IsDelim(s[0]) then Tokens(s[1..])
    else
      var n := WordLength(s);
      [s[..n]] + Tokens(s[n..])
  }

  /** Words written out with a space after each. */
  function Unwords(ws: seq<string>): string
  {
    if ws == [] then "" else ws[0] + " " + Unwords(ws[1..])
  }

  /** A word followed by a separator is read whole. */
  lemma {:induction false} WordLengthOf(w: string, rest: string)
    requires IsWord(w) && |rest| > 0 && IsDelim(rest[0])
    ensures WordLength(w + rest) == |w|
  {
    if |w| > 1 {
      assert w[1] in w;
      assert (w + rest)[1..] == w[1..] + rest;
      assert w[1..] == w[1..];
      WordLengthOf(w[1..], rest);
    } else {
      assert (w + rest)[1] == rest[0];
    }
  }

  /** Splitting a line made of words loses nothing: `strtok` gives back
      exactly the words. */
  lemma {:induction false} TokensOfUnwords(ws: seq<string>)
    requires forall k :: 0 <= k < |ws| ==> IsWord(ws[k])
    ensures Tokens(Unwords(ws)) == ws
  {
    if ws != [] {
      var w := ws[0];
      var rest := " " + Unwords(ws[1..]);
      assert Unwords(ws) == w + rest;
      assert w[0] in w;
      WordLengthOf(w, rest);
      assert (w + rest)[..|w|] == w;
      assert (w + rest)[|w|..] == rest;
      assert rest[1..] == Unwords(ws[1..]);
      TokensOfUnwords(ws[1..]);
      assert ws == [w] + ws[1..];
    }
  }

  // ---------------------------------------------------------------------
  // The commands

  /** One entry of `commands` (CMD): `argv` with its MAX_ARGS slots (None
      is NULL), `nargs` and `async`. */
  datatype Cmd = Cmd(argv: seq<Option<string>>, nargs: int, async: int)

  /** Every command of the array has its MAX_ARGS slots. */
  predicate Slots(cmds: seq<Cmd>)
  {
    forall k :: 0 <= k < |cmds| ==> |cmds[k].argv| == MAX_ARGS
  }

  /** The number of ";" words. */
  function Semicolons(ts: seq<string>): nat
  {
    multiset(ts)[";"]
  }

  /** The loop's variables between two `strtok` calls: `i` the slot last
      written in command `j`, `count` the commands so far (programCount),
      and the array. */
  datatype Scan = Scan(i: int, j: nat, count: nat, cmds: seq<Cmd>)

  /** The array has room for the command being filled and for one more
      command per ";" still to come. */
  predicate Room(st: Scan, ts: seq<string>)
  {
    Slots(st.cmds) && -1 <= st.i < MAX_ARGS && st.j + Semicolons(ts) < |st.cmds|
  }

  /** `argv[i]` of command `j` set to `x`. */
  function Put(cmds: seq<Cmd>, j: nat, i: nat, x: Option<string>): (r: seq<Cmd>)
    requires j < |cmds| && i < |cmds[j].argv|
    ensures |r| == |cmds| && r[j].argv == cmds[j].argv[i := x]
    ensures r[j].nargs == cmds[j].nargs && r[j].async == cmds[j].async
    ensures forall k :: 0 <= k < |cmds| && k != j ==> r[k] == cmds[k]
  {
    cmds[j := cmds[j].(argv := cmds[j].argv[i := x])]
  }

  /** One turn of the loop for the word `t` (HW2/main.c:64-81): None when
      the word would go past the last `argv` slot (exit(1)).  A "&" or ";"
      word is replaced by NULL; "&" sets `async`, ";" closes the command
      and starts the next at slot 0. */
  function Step(st: Scan, t: string): (r: Option<Scan>)
    requires Room(st, [t])
    ensures r.None? <==> st.i + 1 >= MAX_ARGS
    ensures r.Some? ==> |r.value.cmds| == |st.cmds| && Slots(r.value.cmds)
    ensures r.Some? ==>
      r.value.count == st.count + (if t == ";" then 1 else 0)
      && (r.value.i, r.value.j) == (if t == ";" then (-1, st.j + 1) else (st.i + 1, st.j))
  {
    var i := st.i + 1;
    if i >= MAX_ARGS then None
    else
      var c := st.cmds[st.j];
      if t == "&" then
        Some(st.(i := i, cmds := st.cmds[st.j := Cmd(c.argv[i := None], i, 1)]))
      else if t == ";" then
        Some(Scan(-1, st.j + 1, st.count + 1, st.cmds[st.j := c.(argv := c.argv[i := None], nargs := i)]))
      else
        Some(st.(i := i, cmds := st.cmds[st.j := c.(argv := c.argv[i := Some(t)], nargs := i + 1)]))
  }

  /** What one turn stores: the word, or NULL in place of "&" and ";", in
      the next slot of the current command, with `nargs` the slots up to the
      word, or up to before a "&" or ";"; only "&" changes `async`, and no
      other command changes. */
  lemma StepEffect(st: Scan, t: string)
    requires Room(st, [t]) && st.i + 1 < MAX_ARGS
    ensures var r := Step(st, t).value; var i := st.i + 1; var c := r.cmds[st.j];
      (forall k :: 0 <= k < |st.cmds| && k != st.j ==> r.cmds[k] == st.cmds[k])
      && c.argv == st.cmds[st.j].argv[i := if t == "&" || t == ";" then None else Some(t)]
      && c.nargs == (if t == "&" || t == ";" then i else i + 1)
      && c.async == (if t == "&" then 1 else st.cmds[st.j].async)
  {
  }

  /** The loop over the remaining words: the state after the last one, or
      None if the program exits on the way. */
  function Drive(st: Scan, ts: seq<string>): (r: Option<Scan>)
    requires Room(st, ts)
    ensures r.Some? ==> Room(r.value, []) && |r.value.cmds| == |st.cmds|
    ensures r.Some? ==> r.value.j == st.j + Semicolons(ts) && r.value.count == st.count + Semicolons(ts)
    decreases |ts|
  {
    if ts == [] then Some(st)
    else
      assert ts == [ts[0]] + ts[1..];
      match Step(st, ts[0])
      case None => None
      case Some(st') => Drive(st', ts[1..])
  }

  /** What get_args leaves: the number of commands and the array, or the
      exit(1) for too many arguments. */
  datatype Outcome = Parsed(count: nat, cmds: seq<Cmd>) | TooManyArguments

  /** The last `strtok` call returns NULL, which is stored in the next slot;
      a command whose words fill every slot leaves no slot for it, and the
      program exits. */
  function End(st: Scan): (r: Outcome)
    requires Room(st, [])
    ensures r.TooManyArguments? <==> st.i + 1 >= MAX_ARGS
    ensures r.Parsed? ==> r.count == st.count && r.cmds == Put(st.cmds, st.j, st.i + 1, None)
  {
    if st.i + 1 >= MAX_ARGS then TooManyArguments
    else Parsed(st.count, Put(st.cmds, st.j, st.i + 1, None))
  }

  /** The array's room get_args needs: one command per ";" after the first
      word, plus one. */
  predicate Fits(ts: seq<string>, cmds: seq<Cmd>)
  {
    Slots(cmds) && |cmds| > (if ts == [] then 0 else Semicolons(ts[1..]))
  }

  /** The state after the first word (HW2/main.c:58-62): it is stored in
      slot 0 of command 0 without being checked for "&" or ";", and command
      0 has one argument and runs in the foreground. */
  function First(ts: seq<string>, cmds: seq<Cmd>): (st: Scan)
    requires ts != [] && Fits(ts, cmds)
    ensures Room(st, ts[1..]) && st.i == 0 && st.j == 0 && st.count == 1
    ensures |st.cmds| == |cmds| && st.cmds[1..] == cmds[1..]
    ensures st.cmds[0].argv[0] == Some(ts[0]) && st.cmds[0].argv[1..] == cmds[0].argv[1..]
    ensures st.cmds[0].nargs == 1 && st.cmds[0].async == 0
  {
    Scan(0, 0, 1, cmds[0 := Cmd(cmds[0].argv[0 := Some(ts[0])], 1, 0)])
  }

  /** get_args over the words of the line, with the slot check made before
      each store. */
  function Parse(ts: seq<string>, cmds: seq<Cmd>): (r: Outcome)
    requires Fits(ts, cmds)
    ensures ts == [] ==> r == Parsed(0, Put(cmds, 0, 0, None))
  {
    if ts == [] then Parsed(0, Put(cmds, 0, 0, None))
    else
      match Drive(First(ts, cmds), ts[1..])
      case None => TooManyArguments
      case Some(st) => End(st)
  }

  // ---------------------------------------------------------------------
  // As written: the slot is stored before it is checked

  /** What get_args as written leaves: it stores each `strtok` result in
      `argv[++i]` before comparing `i` with MAX_ARGS, and compares only when
      the result is a word.  So the final NULL of a command of MAX_ARGS words
      goes into `argv[MAX_ARGS]`, one past the array. */
  datatype OutcomeAsWritten = ParsedAsWritten(count: nat, cmds: seq<Cmd>) | ExitsAsWritten | NullPastArgv

  /** The final `strtok` call as written: its NULL is stored in `argv[++i]`
      with no check, past the array when the command filled every slot. */
  function EndAsWritten(st: Scan): OutcomeAsWritten
    requires Room(st, [])
  {
    if st.i + 1 >= MAX_ARGS then NullPastArgv
    else ParsedAsWritten(st.count, Put(st.cmds, st.j, st.i + 1, None))
  }

  /** get_args as written (HW2/main.c:52-84). */
  function ParseAsWritten(ts: seq<string>, cmds: seq<Cmd>): OutcomeAsWritten
    requires Fits(ts, cmds)
  {
    if ts == [] then ParsedAsWritten(0, Put(cmds, 0, 0, None))
    else
      match Drive(First(ts, cmds), ts[1..])
      case None => ExitsAsWritten
      case Some(st) => EndAsWritten(st)
  }

  /** A line of exactly MAX_ARGS plain words: as written, get_args does not
      exit but stores the final NULL past `argv`; with the check before the
      store it exits. */
  lemma FullCommandAsWritten(ws: seq<string>, cmds: seq<Cmd>)
    requires |ws| == MAX_ARGS && forall k :: 0 <= k < |ws| ==> ws[k] != "&" && ws[k] != ";"
    requires Slots(cmds) && |cmds| > 0
    ensures Fits(ws, cmds)
    ensures ParseAsWritten(ws, cmds) == NullPastArgv
    ensures Parse(ws, cmds) == TooManyArguments
  {
    assert ";" !in ws[1..];
    var st := First(ws, cmds);
    PlainWords(st, ws[1..]);
  }

  /** Both agree on every line that does not end with a command filling
      all MAX_ARGS slots. */
  lemma ParseAgreesAsWritten(ts: seq<string>, cmds: seq<Cmd>)
    requires Fits(ts, cmds) && ParseAsWritten(ts, cmds) != NullPastArgv
    ensures ParseAsWritten(ts, cmds) == match Parse(ts, cmds)
      case Parsed(n, cs) => ParsedAsWritten(n, cs)
      case TooManyArguments => ExitsAsWritten
  {
  }

  // ---------------------------------------------------------------------
  // What the loop computes

  /** Plain words (neither "&" nor ";") go into the next slots of the
      current command one by one, `nargs` counting the slots filled; the
      program exits when they do not fit. */
  lemma {:induction false} PlainWords(st: Scan, ws: seq<string>)
    requires Room(st, ws) && forall k :: 0 <= k < |ws| ==> ws[k] != "&" && ws[k] != ";"
    ensures Drive(st, ws).None? <==> st.i + |ws| >= MAX_ARGS
    ensures Drive(st, ws).Some? ==> var r := Drive(st, ws).value; var c := r.cmds[st.j];
      r.i == st.i + |ws| && r.j == st.j && r.count == st.count
      && (forall k :: 0 <= k < |st.cmds| && k != st.j ==> r.cmds[k] == st.cmds[k])
      && (forall m :: 0 <= m < MAX_ARGS ==>
            c.argv[m] == if st.i < m <= r.i then Some(ws[m - st.i - 1]) else st.cmds[st.j].argv[m])
      && c.nargs == (if ws == [] then st.cmds[st.j].nargs else r.i + 1)
      && c.async == st.cmds[st.j].async
    decreases |ws|
  {
    if ws != [] {
      if st.i + 1 < MAX_ARGS {
        var st' := Step(st, ws[0]).value;
        StepEffect(st, ws[0]);
        PlainWords(st', ws[1..]);
        if Drive(st', ws[1..]).Some? {
          var r := Drive(st', ws[1..]).value;
          forall m | 0 <= m < MAX_ARGS
            ensures r.cmds[st.j].argv[m] == if st.i < m <= r.i then Some(ws[m - st.i - 1]) else st.cmds[st.j].argv[m]
          {
            if st'.i < m <= r.i {
              assert ws[1..][m - st'.i - 1] == ws[m - st.i - 1];
            }
          }
        }
      }
    }
  }

  /** A ";" after plain words closes the command, `nargs` counting those
      words, and the next command starts at slot 0. */
  lemma SemicolonClosesCommand(st: Scan, ws: seq<string>, rest: seq<string>)
    requires Room(st, ws + [";"] + rest) && forall k :: 0 <= k < |ws| ==> ws[k] != "&" && ws[k] != ";"
    requires st.i + |ws| + 1 < MAX_ARGS
    ensures Drive(st, ws).Some? && Drive(st, ws).value.i == st.i + |ws|
    ensures var r := Drive(st, ws).value; var s := Step(r, ";").value;
      s.i == -1 && s.j == st.j + 1 && s.count == st.count + 1
      && s.cmds[st.j].nargs == st.i + 1 + |ws| && s.cmds[st.j].argv[st.i + 1 + |ws|] == None
      && Drive(st, ws + [";"] + rest) == Drive(s, rest)
  {
    assert ws + [";"] + rest == ws + ([";"] + rest);
    assert ([";"] + rest)[1..] == rest;
    DriveAppend(st, ws, [";"] + rest);
    PlainWords(st, ws);
    StepEffect(Drive(st, ws).value, ";");
  }

  /** The loop over `a + b` is the loop over `a` followed by the loop
      over `b`. */
  lemma {:induction false} DriveAppend(st: Scan, a: seq<string>, b: seq<string>)
    requires Room(st, a + b)
    ensures Drive(st, a + b) == if Drive(st, a).None? then None else Drive(Drive(st, a).value, b)
    decreases |a|
  {
    if a != [] {
      assert (a + b)[1..] == a[1..] + b;
      assert a + b == [a[0]] + (a[1..] + b);
      assert a == [a[0]] + a[1..];
      if Step(st, a[0]).Some? {
        DriveAppend(Step(st, a[0]).value, a[1..], b);
      }
    } else {
      assert a + b == b;
    }
  }

  /** Every ";" on the line after the first word adds one command: when
      get_args returns, its count is one more than those ";" words. */
  lemma ParseCountsCommands(ts: seq<string>, cmds: seq<Cmd>)
    requires ts != [] && Fits(ts, cmds) && Parse(ts, cmds).Parsed?
    ensures Parse(ts, cmds).count == 1 + Semicolons(ts[1..])
  {
  }

  /** A line of plain words is one foreground command holding the words
      followed by NULL, with `nargs` the number of words; the program exits
      when they do not leave a slot for the NULL. */
  lemma SingleCommand(ws: seq<string>, cmds: seq<Cmd>)
    requires ws != [] && forall k :: 0 <= k < |ws| ==> ws[k] != "&" && ws[k] != ";"
    requires Slots(cmds) && |cmds| > 0
    ensures Fits(ws, cmds)
    ensures Parse(ws, cmds).TooManyArguments? <==> |ws| >= MAX_ARGS
    ensures Parse(ws, cmds).Parsed? ==> var r := Parse(ws, cmds); var c := r.cmds[0];
      r.count == 1 && |r.cmds| == |cmds| && (forall k :: 1 <= k < |cmds| ==> r.cmds[k] == cmds[k])
      && c.nargs == |ws| && c.async == 0
      && (forall m :: 0 <= m < |ws| ==> c.argv[m] == Some(ws[m])) && c.argv[|ws|] == None
      && (forall m :: |ws| < m < MAX_ARGS ==> c.argv[m] == cmds[0].argv[m])
  {
    assert ";" !in ws[1..];
    var st := First(ws, cmds);
    PlainWords(st, ws[1..]);
    if Parse(ws, cmds).Parsed? {
      var c := Parse(ws, cmds).cmds[0];
      forall m | 0 <= m < |ws|
        ensures c.argv[m] == Some(ws[m])
      {
        if m > 0 {
          assert ws[1..][m - 1] == ws[m];
        }
      }
    }
  }

  // ---------------------------------------------------------------------
  // get_args on the caller's array

  /** get_args (HW2/main.c:52-84) over the words of `line`: `exits` is the
      exit(1) for too many arguments; otherwise `count` commands are in
      `commands`. */
  method GetArgs(line: string, commands: array<Cmd>) returns (count: int, exits: bool)
    requires Fits(Tokens(line), commands[..])
    modifies commands
    ensures var r := Parse(Tokens(line), old(commands[..]));
      exits <==> r.TooManyArguments?
    ensures var r := Parse(Tokens(line), old(commands[..]));
      r.Parsed? ==> count == r.count && commands[..] == r.cmds
  {
    var tokens := Tokens(line);
    var i := 0;
    var j: nat := 0;
    var programCount: nat := 0;
    if |tokens| == 0 {
      commands[j] := commands[j].(argv := commands[j].argv[i := None]);
      return 0, false;
    }
    commands[j] := commands[j].(argv := commands[j].argv[i := Some(tokens[0])]);
    programCount := 1;
    commands[j] := commands[j].(nargs := 1);
    commands[j] := commands[j].(async := 0);
    assert commands[..] == First(tokens, old(commands[..])).cmds;
    count, exits := StoreWords(commands, tokens[1..], i, j, programCount);
  }

  /** get_args's loop over the words after the first (HW2/main.c:64-83),
      from slot `i0` of command `j0` with `count0` commands so far, and
      the final NULL. */
  method StoreWords(commands: array<Cmd>, ts: seq<string>, i0: int, j0: nat, count0: nat)
    returns (count: int, exits: bool)
    requires Room(Scan(i0, j0, count0, commands[..]), ts)
    modifies commands
    ensures var r := Drive(Scan(i0, j0, count0, old(commands[..])), ts);
      exits <==> r.None? || End(r.value).TooManyArguments?
    ensures var r := Drive(Scan(i0, j0, count0, old(commands[..])), ts);
      r.Some? && End(r.value).Parsed? ==> count == End(r.value).count && commands[..] == End(r.value).cmds
  {
    ghost var st0 := Scan(i0, j0, count0, commands[..]);
    var i, j, programCount := i0, j0, count0;
    var k := 0;
    while k < |ts|
      invariant 0 <= k <= |ts|
      invariant Room(Scan(i, j, programCount, commands[..]), ts[k..])
      invariant Drive(st0, ts) == Drive(Scan(i, j, programCount, commands[..]), ts[k..])
    {
      var t := ts[k];
      assert ts[k..] == [t] + ts[k + 1..];
      k := k + 1;
      if i + 1 >= MAX_ARGS {
        return 0, true;
      }
      i, j, programCount := StoreWord(commands, i, j, programCount, t);
    }
    assert ts[k..] == [];
    i := i + 1;
    if i >= MAX_ARGS {
      return 0, true;
    }
    commands[j] := commands[j].(argv := commands[j].argv[i := None]);
    return programCount, false;
  }

  /** One turn of get_args's loop for the word `t` (HW2/main.c:64-81),
      once it is known to fit: the word goes into `argv[++i]`, then "&" and
      ";" are replaced by NULL and handled. */
  method StoreWord(commands: array<Cmd>, i: int, j: nat, programCount: nat, t: string)
    returns (i': int, j': nat, programCount': nat)
    requires Room(Scan(i, j, programCount, commands[..]), [t]) && i + 1 < MAX_ARGS
    modifies commands
    ensures Step(Scan(i, j, programCount, old(commands[..])), t) == Some(Scan(i', j', programCount', commands[..]))
  {
    ghost var st := Scan(i, j, programCount, commands[..]);
    i', j', programCount' := i + 1, j, programCount;
    commands[j] := commands[j].(argv := commands[j].argv[i' := Some(t)]);
    commands[j] := commands[j].(nargs := i' + 1);
    if t == "&" {
      commands[j] := commands[j].(argv := commands[j].argv[i' := None]);
      assert commands[j].argv == st.cmds[j].argv[i' := None];
      commands[j] := commands[j].(nargs := i');
      commands[j] := commands[j].(async := 1);
      assert commands[..] == st.cmds[j := Cmd(st.cmds[j].argv[i' := None], i', 1)];
    } else if t == ";" {
      commands[j] := commands[j].(argv := commands[j].argv[i' := None]);
      assert commands[j].argv == st.cmds[j].argv[i' := None];
      commands[j] := commands[j].(nargs := i');
      assert commands[..] == st.cmds[j := st.cmds[j].(argv := st.cmds[j].argv[i' := None], nargs := i')];
      programCount' := programCount' + 1;
      j' := j' + 1;
      i' := -1;
    } else {
      assert commands[..] == st.cmds[j := st.cmds[j].(argv := st.cmds[j].argv[i' := Some(t)], nargs := i' + 1)];
    }
  }
}
