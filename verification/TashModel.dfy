/** The TASH command line on values: what `tash_execute_cmdline` makes of a line, and
    which argument lists survive being printed as one. */
module TashModel {
  const MAX_ARGS: nat := 31  // TASH_TOKEN_MAX - 1
  const QUOTE: char := '"'
  const BACKSLASH: char := '\\'

  datatype Mode = InVoid | InWord | InQuote

  /** One command: its argument vector (empty if nothing is to be executed), the text
      after it, and whether another command follows. */
  datatype Cmd = Cmd(argv: seq<string>, rest: string, next: bool)

  /** The character before the parse position: the last one of the argument, or the
      opening quote of an argument that is still empty. */
  function Previous(cur: string): char {
    if cur == [] then QUOTE else cur[|cur| - 1]
  }

  /** An escaped quote takes the place of its backslash. */
  function Unescape(cur: string): string
    requires cur != []
  {
    cur[..|cur| - 1] + [QUOTE]
  }

  predicate EndsCommand(c: char) {
    c == '\n' || c == ';'
  }

  /** The argument vector when the loop ends: an unclosed quotation voids the command. */
  function Finish(mode: Mode, args: seq<string>, cur: string, rest: string): seq<string> {
    match mode
    case InVoid => args
    case InQuote => []
    case InWord => args + [cur + rest]
  }

  function Argc(mode: Mode, args: seq<string>): nat {
    if mode.InVoid? then |args| else |args| + 1
  }

  /** The scanning loop, from a state with `args` complete and `cur` under way. */
  function Parse(mode: Mode, args: seq<string>, cur: string, rest: string): (r: Cmd)
    ensures r.next ==> |r.rest| < |rest|
    decreases |rest|
  {
    if rest == [] || Argc(mode, args) >= MAX_ARGS then Cmd(Finish(mode, args, cur, rest), rest, false)
    else
      var c, t := rest[0], rest[1..];
      match mode
      case InVoid =>
        if c == ' ' then Parse(InVoid, args, [], t)
        else if c == '#' then Parse(InVoid, args, [], [])
        else if c == QUOTE then Parse(InQuote, args, [], t)
        else if EndsCommand(c) then Cmd(args, t, true)
        else Parse(InWord, args, [c], t)
      case InQuote =>
        if c != QUOTE then Parse(InQuote, args, cur + [c], t)
        else if Previous(cur) == BACKSLASH then Parse(InQuote, args, Unescape(cur), t)
        else Parse(InWord, args, cur, t)
      case InWord =>
        if c == ' ' then Parse(InVoid, args + [cur], [], t)
        else if c == QUOTE then
          if Previous(cur) == BACKSLASH then Parse(InWord, args, Unescape(cur), t)
          else Parse(InQuote, args, cur, t)
        else if EndsCommand(c) then Cmd(args + [cur], t, true)
        else Parse(InWord, args, cur + [c], t)
  }

  /** `tash_execute_cmdline`: the argument vectors handed to `tash_execute_cmd`. */
  function Execute(line: string): seq<seq<string>>
    decreases |line|
  {
    var c := Parse(InVoid, [], [], line);
    (if c.argv == [] then [] else [c.argv]) + (if c.next then Execute(c.rest) else [])
  }

  // ----- Printing argument vectors as a line

  function Escape(arg: string): string {
    if arg == [] then []
    else (if arg[0] == '"' then ['\\', '"'] else [arg[0]]) + Escape(arg[1..])
  }

  function PrintArg(arg: string): string {
    ['"'] + Escape(arg) + ['"']
  }

  function PrintArgs(argv: seq<string>): string {
    if argv == [] then []
    else if |argv| == 1 then PrintArg(argv[0])
    else PrintArg(argv[0]) + [' '] + PrintArgs(argv[1..])
  }

  function PrintLine(cmds: seq<seq<string>>): string {
    if cmds == [] then []
    else if |cmds| == 1 then PrintArgs(cmds[0])
    else PrintArgs(cmds[0]) + [';'] + PrintLine(cmds[1..])
  }

  predicate PlainArg(arg: string) {
    arg == [] || arg[|arg| - 1] != '\\'
  }

  /** One to thirty arguments, none ending in a backslash. */
  predicate Printable(argv: seq<string>) {
    1 <= |argv| <= 30 && forall i :: 0 <= i < |argv| ==> PlainArg(argv[i])
  }

  // ----- Printable lines come back

  /** Inside quotes the escaped text of `x` extends the argument by `x`. */
  lemma {:induction false} ReadEscaped(args: seq<string>, cur: string, x: string, tail: string)
    requires |args| + 1 < MAX_ARGS
    ensures Parse(InQuote, args, cur, Escape(x) + tail) == Parse(InQuote, args, cur + x, tail)
    decreases |x|
  {
    if x == [] {
      assert Escape(x) + tail == tail && cur + x == cur;
    } else {
      var y := x[1..];
      var s := Escape(y) + tail;
      assert cur + x == (cur + [x[0]]) + y;
      if x[0] == QUOTE {
        assert Escape(x) + tail == [BACKSLASH] + ([QUOTE] + s);
        QuotedBackslash(args, cur, [QUOTE] + s);
        QuotedQuote(args, cur, s);
      } else {
        assert Escape(x) + tail == [x[0]] + s;
        QuotedChar(args, cur, x[0], s);
      }
      ReadEscaped(args, cur + [x[0]], y, tail);
    }
  }

  lemma QuotedChar(args: seq<string>, cur: string, c: char, s: string)
    requires |args| + 1 < MAX_ARGS && c != QUOTE
    ensures Parse(InQuote, args, cur, [c] + s) == Parse(InQuote, args, cur + [c], s)
  {
    assert ([c] + s)[1..] == s;
  }

  lemma QuotedBackslash(args: seq<string>, cur: string, s: string)
    requires |args| + 1 < MAX_ARGS
    ensures Parse(InQuote, args, cur, [BACKSLASH] + s) == Parse(InQuote, args, cur + [BACKSLASH], s)
  {
    QuotedChar(args, cur, BACKSLASH, s);
  }

  lemma QuotedQuote(args: seq<string>, cur: string, s: string)
    requires |args| + 1 < MAX_ARGS
    ensures Parse(InQuote, args, cur + [BACKSLASH], [QUOTE] + s) == Parse(InQuote, args, cur + [QUOTE], s)
  {
    assert ([QUOTE] + s)[1..] == s;
    assert Unescape(cur + [BACKSLASH]) == cur + [QUOTE];
  }

  /** A printed argument up to its closing quote, and that quote. */
  lemma ReadArg(args: seq<string>, arg: string, tail: string)
    requires |args| + 1 < MAX_ARGS
    ensures Parse(InVoid, args, [], PrintArg(arg) + tail)
         == if PlainArg(arg) then Parse(InWord, args, arg, tail)
            else Parse(InQuote, args, Unescape(arg), tail)
  {
    var s := Escape(arg) + ([QUOTE] + tail);
    assert PrintArg(arg) + tail == [QUOTE] + s;
    assert ([QUOTE] + s)[1..] == s;
    ReadEscaped(args, [], arg, [QUOTE] + tail);
    assert [] + arg == arg;
    assert ([QUOTE] + tail)[1..] == tail;
  }

  /** The arguments of a printable command, whatever ends it. */
  lemma {:induction false} ReadArgs(args: seq<string>, argv: seq<string>, tail: string)
    requires 1 <= |argv| && |args| + |argv| < MAX_ARGS
    requires forall i :: 0 <= i < |argv| ==> PlainArg(argv[i])
    ensures Parse(InVoid, args, [], PrintArgs(argv) + tail)
         == Parse(InWord, args + argv[..|argv| - 1], argv[|argv| - 1], tail)
    decreases |argv|
  {
    if |argv| == 1 {
      ReadArg(args, argv[0], tail);
      assert args + argv[..0] == args;
    } else {
      var rest := PrintArgs(argv[1..]) + tail;
      assert PrintArgs(argv) + tail == PrintArg(argv[0]) + ([' '] + rest);
      ReadArg(args, argv[0], [' '] + rest);
      assert ([' '] + rest)[1..] == rest;
      ReadArgs(args + [argv[0]], argv[1..], tail);
      assert (args + [argv[0]]) + argv[1..][..|argv| - 2] == args + argv[..|argv| - 1];
    }
  }

  lemma LastArg(argv: seq<string>)
    requires argv != []
    ensures [] + argv[..|argv| - 1] + [argv[|argv| - 1]] == argv
  {
  }

  /** A printable command alone on the line, or before a semicolon. */
  lemma ReadCommand(argv: seq<string>, tail: string)
    requires Printable(argv) && (tail == [] || tail[0] == ';')
    ensures Parse(InVoid, [], [], PrintArgs(argv) + tail)
         == Cmd(argv, if tail == [] then [] else tail[1..], tail != [])
  {
    ReadArgs([], argv, tail);
    LastArg(argv);
    if tail == [] {
      assert argv[|argv| - 1] + tail == argv[|argv| - 1];
    }
  }

  lemma LineHead(cmds: seq<seq<string>>)
    requires cmds != []
    ensures PrintLine(cmds)
         == PrintArgs(cmds[0]) + (if |cmds| == 1 then [] else [';'] + PrintLine(cmds[1..]))
  {
  }

  /** A printable first command is executed first, then the rest of the line. */
  lemma ExecuteHead(cmds: seq<seq<string>>)
    requires cmds != [] && Printable(cmds[0])
    ensures Execute(PrintLine(cmds)) == [cmds[0]] + (if |cmds| == 1 then [] else Execute(PrintLine(cmds[1..])))
  {
    LineHead(cmds);
    var tail := if |cmds| == 1 then [] else [';'] + PrintLine(cmds[1..]);
    ReadCommand(cmds[0], tail);
    if tail != [] {
      assert tail[1..] == PrintLine(cmds[1..]);
    }
  }

  // ----- Other lines do not

  /** Complete arguments stay, and the part of the current one that does not end in a
      backslash stays too, if the command is executed at all. */
  lemma {:induction false} Stable(mode: Mode, args: seq<string>, cur: string, rest: string, s: string)
    requires !mode.InVoid? && s <= cur && s != [] && s[|s| - 1] != BACKSLASH
    ensures var r := Parse(mode, args, cur, rest);
            (r.argv == [] && !r.next) || (|r.argv| > |args| && s <= r.argv[|args|])
    decreases |rest|
  {
    if rest != [] && Argc(mode, args) < MAX_ARGS {
      var c, t := rest[0], rest[1..];
      if c == QUOTE && Previous(cur) == BACKSLASH {
        assert s <= Unescape(cur);
        Stable(mode, args, Unescape(cur), t, s);
      } else if mode.InQuote? {
        Stable(if c == QUOTE then InWord else InQuote, args, if c == QUOTE then cur else cur + [c], t, s);
      } else if c == ' ' {
        Kept(args + [cur], [], InVoid, t);
      } else if c == QUOTE {
        Stable(InQuote, args, cur, t, s);
      } else if !EndsCommand(c) {
        Stable(InWord, args, cur + [c], t, s);
      }
    }
  }

  /** Complete arguments stay in front, unless an unclosed quotation voids the command
      and ends the line. */
  lemma {:induction false} Kept(args: seq<string>, cur: string, mode: Mode, rest: string)
    ensures var r := Parse(mode, args, cur, rest);
            (r.argv == [] && !r.next) || args <= r.argv
    decreases |rest|
  {
    if rest != [] && Argc(mode, args) < MAX_ARGS {
      var c, t := rest[0], rest[1..];
      match mode
      case InVoid =>
        if c == ' ' {
          Kept(args, [], InVoid, t);
        } else if c == '#' {
          Kept(args, [], InVoid, []);
        } else if c == QUOTE {
          Kept(args, [], InQuote, t);
        } else if !EndsCommand(c) {
          Kept(args, [c], InWord, t);
        }
      case InQuote =>
        if c != QUOTE {
          Kept(args, cur + [c], InQuote, t);
        } else if Previous(cur) == BACKSLASH {
          Kept(args, Unescape(cur), InQuote, t);
        } else {
          Kept(args, cur, InWord, t);
        }
      case InWord =>
        if c == ' ' {
          Kept(args + [cur], [], InVoid, t);
        } else if c == QUOTE {
          if Previous(cur) == BACKSLASH {
            Kept(args, Unescape(cur), InWord, t);
          } else {
            Kept(args, cur, InQuote, t);
          }
        } else if !EndsCommand(c) {
          Kept(args, cur + [c], InWord, t);
        }
    }
  }

  /** The first argument that ends in a backslash, if it comes in time, swallows its
      closing quote. */
  lemma BackslashBreaks(argv: seq<string>, j: nat, tail: string)
    requires j < |argv| && j + 1 < MAX_ARGS && !PlainArg(argv[j])
    requires forall i :: 0 <= i < j ==> PlainArg(argv[i])
    ensures var r := Parse(InVoid, [], [], PrintArgs(argv) + tail);
            (r.argv == [] && !r.next) || (r.argv != [] && r.argv != argv)
  {
    hide Parse, PrintArgs, PrintArg;
    var x := argv[j];
    var after := SplitLine(argv, j, tail);
    Skipped(argv, j, tail, PrintArg(x) + after);
    ReadArg(argv[..j], x, after);
    Stable(InQuote, argv[..j], Unescape(x), after, Unescape(x));
    assert Unescape(x)[|x| - 1] == QUOTE && x[|x| - 1] == BACKSLASH;
  }

  /** Printing as the arguments before `j`, the argument `j`, the arguments after. */
  lemma {:induction false} SplitArgs(argv: seq<string>, j: nat)
    requires j < |argv|
    ensures PrintArgs(argv)
         == (if j == 0 then [] else PrintArgs(argv[..j]) + [' '])
            + (PrintArg(argv[j]) + (if j + 1 == |argv| then [] else [' '] + PrintArgs(argv[j + 1..])))
    decreases |argv|
  {
    if j == 0 {
      if |argv| == 1 {
        assert PrintArg(argv[0]) + [] == PrintArg(argv[0]);
      }
    } else {
      var more := argv[1..];
      SplitArgs(more, j - 1);
      assert more[j..] == argv[j + 1..];
      PrintHead(argv);
      hide PrintArg, PrintArgs;
      var mid := PrintArg(argv[j]) + (if j + 1 == |argv| then [] else [' '] + PrintArgs(argv[j + 1..]));
      if j == 1 {
        assert argv[..1] == [argv[0]];
        PrintOne(argv[0]);
        assert [] + mid == mid;
      } else {
        assert argv[..j][1..] == more[..j - 1];
        PrintHead(argv[..j]);
        HeadFirst(PrintArg(argv[0]) + [' '], PrintArgs(more[..j - 1]), mid);
      }
    }
  }

  lemma {:induction false} PrintHead(argv: seq<string>)
    requires |argv| > 1
    ensures PrintArgs(argv) == (PrintArg(argv[0]) + [' ']) + PrintArgs(argv[1..])
  {
  }

  lemma PrintOne(arg: string)
    ensures PrintArgs([arg]) == PrintArg(arg)
  {
  }

  lemma HeadFirst(head: string, args: string, tail: string)
    ensures head + ((args + [' ']) + tail) == ((head + args) + [' ']) + tail
  {
  }

  lemma SplitLine(argv: seq<string>, j: nat, tail: string) returns (after: string)
    requires j < |argv|
    ensures PrintArgs(argv) + tail
         == (if j == 0 then [] else PrintArgs(argv[..j]) + [' ']) + (PrintArg(argv[j]) + after)
  {
    SplitArgs(argv, j);
    var later := if j + 1 == |argv| then [] else [' '] + PrintArgs(argv[j + 1..]);
    after := later + tail;
    Regroup(if j == 0 then [] else PrintArgs(argv[..j]) + [' '], PrintArg(argv[j]), later, tail);
  }

  lemma Regroup(a: string, b: string, c: string, d: string)
    ensures (a + (b + c)) + d == a + (b + (c + d))
  {
  }

  /** The parse gets to argument `j` with the plain arguments before it complete. */
  lemma Skipped(argv: seq<string>, j: nat, tail: string, broken: string)
    requires j < |argv| && j + 1 < MAX_ARGS + 1
    requires forall i :: 0 <= i < j ==> PlainArg(argv[i])
    requires PrintArgs(argv) + tail == (if j == 0 then [] else PrintArgs(argv[..j]) + [' ']) + broken
    ensures Parse(InVoid, [], [], PrintArgs(argv) + tail) == Parse(InVoid, argv[..j], [], broken)
  {
    if j == 0 {
      assert [] + broken == broken;
    } else {
      assert PrintArgs(argv) + tail == PrintArgs(argv[..j]) + ([' '] + broken);
      ReadArgs([], argv[..j], [' '] + broken);
      LastArg(argv[..j]);
      assert ([' '] + broken)[1..] == broken;
    }
  }

  /** With thirty arguments complete, one more quoted argument voids the command. */
  lemma TooManyBreaks(argv: seq<string>, tail: string)
    requires |argv| >= MAX_ARGS
    requires forall i :: 0 <= i < MAX_ARGS - 1 ==> PlainArg(argv[i])
    ensures var r := Parse(InVoid, [], [], PrintArgs(argv) + tail);
            r.argv == [] && !r.next
  {
    var j := MAX_ARGS - 1;
    var after := SplitLine(argv, j, tail);
    var broken := PrintArg(argv[j]) + after;
    Skipped(argv, j, tail, broken);
    assert broken[0] == QUOTE;
  }

  /** A first command that is not printable is not what gets executed first. */
  lemma FirstBreaks(argv: seq<string>, tail: string)
    requires !Printable(argv)
    ensures var r := Parse(InVoid, [], [], PrintArgs(argv) + tail);
            r.argv != argv || (r.argv == [] && argv == [])
    ensures argv != [] ==> var r := Parse(InVoid, [], [], PrintArgs(argv) + tail);
            (r.argv == [] && !r.next) || (r.argv != [] && r.argv != argv)
  {
    if argv != [] {
      if exists j :: 0 <= j < |argv| && j + 1 < MAX_ARGS && !PlainArg(argv[j]) {
        var j := FirstBad(argv, 0);
        BackslashBreaks(argv, j, tail);
      } else {
        TooManyBreaks(argv, tail);
      }
    }
  }

  lemma FirstBad(argv: seq<string>, from: nat) returns (j: nat)
    requires exists j :: from <= j < |argv| && j + 1 < MAX_ARGS && !PlainArg(argv[j])
    requires forall i :: 0 <= i < from && i < |argv| ==> PlainArg(argv[i])
    ensures j < |argv| && j + 1 < MAX_ARGS && !PlainArg(argv[j])
    ensures forall i :: 0 <= i < j ==> PlainArg(argv[i])
    decreases |argv| - from
  {
    if PlainArg(argv[from]) {
      j := FirstBad(argv, from + 1);
    } else {
      j := from;
    }
  }

  /** Only commands with arguments are executed. */
  lemma {:induction false} NoEmptyCommand(line: string, i: nat)
    requires i < |Execute(line)|
    ensures Execute(line)[i] != []
    decreases |line|
  {
    var c := Parse(InVoid, [], [], line);
    var k := if c.argv == [] then 0 else 1;
    if i >= k {
      NoEmptyCommand(c.rest, i - k);
    }
  }

  /** A list of commands comes back from its printed line if and only if every command
      has one to thirty arguments and none of them ends in a backslash. */
  lemma {:induction false} RoundTripExact(cmds: seq<seq<string>>)
    ensures Execute(PrintLine(cmds)) == cmds <==> forall i :: 0 <= i < |cmds| ==> Printable(cmds[i])
    decreases |cmds|
  {
    if cmds == [] {
      assert Parse(InVoid, [], [], []) == Cmd([], [], false);
    } else if Printable(cmds[0]) {
      ExecuteHead(cmds);
      assert cmds == [cmds[0]] + cmds[1..];
      if |cmds| == 1 {
        assert cmds[1..] == [];
      } else {
        RoundTripExact(cmds[1..]);
        assert forall i :: 1 <= i < |cmds| ==> cmds[i] == cmds[1..][i - 1];
        HeadEqual(cmds[0], Execute(PrintLine(cmds[1..])), cmds[1..]);
      }
    } else {
      HeadDiffers(cmds);
    }
  }

  lemma HeadEqual(c: seq<string>, x: seq<seq<string>>, y: seq<seq<string>>)
    ensures [c] + x == [c] + y <==> x == y
  {
    if [c] + x == [c] + y {
      assert ([c] + x)[1..] == x && ([c] + y)[1..] == y;
    }
  }

  lemma HeadDiffers(cmds: seq<seq<string>>)
    requires cmds != [] && !Printable(cmds[0])
    ensures Execute(PrintLine(cmds)) != cmds
  {
    LineHead(cmds);
    var tail := if |cmds| == 1 then [] else [';'] + PrintLine(cmds[1..]);
    FirstBreaks(cmds[0], tail);
    var out := Execute(PrintLine(cmds));
    if cmds[0] == [] {
      if out != [] {
        NoEmptyCommand(PrintLine(cmds), 0);
      }
    } else {
      var r := Parse(InVoid, [], [], PrintLine(cmds));
      assert r.argv != [] ==> out[0] == r.argv;
    }
  }
}
