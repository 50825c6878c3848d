/** `tash_execute_cmdline` on its NUL-terminated line buffer: arguments are cut out in
    place by writing NULs and by moving the rest of the text one cell down over each
    removed quote or backslash. `argv` holds the indices where arguments start. */
module TashParser {
  import opened TashModel
  import opened TashSyntax
  import Words

  const NUL: char := '\0'

  /** The C string at index `a`: the characters up to the next NUL. */
  function CString(b: seq<char>, a: nat): string
    requires a <= |b|
    decreases |b| - a
  {
    if a == |b| || b[a] == NUL then [] else [b[a]] + CString(b, a + 1)
  }

  lemma {:induction false} ReadsString(b: seq<char>, a: nat, s: string)
    requires a + |s| < |b| && b[a + |s|] == NUL
    requires forall i :: 0 <= i < |s| ==> b[a + i] == s[i] && s[i] != NUL
    ensures CString(b, a) == s
    decreases |s|
  {
    if s != [] {
      assert b[a + 0] == s[0];
      forall i | 0 <= i < |s[1..]|
        ensures b[a + 1 + i] == s[1..][i] && s[1..][i] != NUL
      {
        assert b[a + (i + 1)] == s[i + 1];
      }
      ReadsString(b, a + 1, s[1..]);
    }
  }

  /** One character outside any argument. */
  lemma {:induction false} VoidStep(args: seq<string>, cur: string, rest: string)
    requires rest != [] && |args| < MAX_ARGS
    ensures var c, t := rest[0], rest[1..];
            Parse(InVoid, args, cur, rest) ==
            if c == ' ' then Parse(InVoid, args, [], t)
            else if c == '#' then Parse(InVoid, args, [], [])
            else if c == QUOTE then Parse(InQuote, args, [], t)
            else if EndsCommand(c) then Cmd(args, t, true)
            else Parse(InWord, args, [c], t)
  {
  }

  /** One character inside an unquoted stretch of an argument. */
  lemma {:induction false} WordStep(args: seq<string>, cur: string, rest: string)
    requires rest != [] && |args| + 1 < MAX_ARGS
    ensures var c, t := rest[0], rest[1..];
            Parse(InWord, args, cur, rest) ==
            if c == ' ' then Parse(InVoid, args + [cur], [], t)
            else if c == QUOTE && Previous(cur) == BACKSLASH then Parse(InWord, args, Unescape(cur), t)
            else if c == QUOTE then Parse(InQuote, args, cur, t)
            else if EndsCommand(c) then Cmd(args + [cur], t, true)
            else Parse(InWord, args, cur + [c], t)
  {
  }

  /** One command of a line, executed unless it has no arguments. */
  lemma {:induction false} OneCommand(ran: seq<seq<string>>, line: string)
    ensures var c := Parse(InVoid, [], [], line);
            var now := if c.argv == [] then ran else ran + [c.argv];
            ran + Execute(line) == if c.next then now + Execute(c.rest) else now
  {
    hide Parse;
    var c := Parse(InVoid, [], [], line);
    var first: seq<seq<string>> := if c.argv == [] then [] else [c.argv];
    var later: seq<seq<string>> := if c.next then Execute(c.rest) else [];
    assert Execute(line) == first + later;
    Words.Assoc(ran, first, later);
  }

  /** The characters of `s` lie from index `a` on. */
  ghost predicate Lies(b: seq<char>, a: nat, s: string) {
    a + |s| <= |b| && forall i :: 0 <= i < |s| ==> b[a + i] == s[i] && s[i] != NUL
  }

  /** These arguments lie below `floor`, each with its NUL. */
  ghost predicate Complete(b: seq<char>, argv: seq<nat>, done: seq<string>, floor: nat) {
    && |done| <= |argv|
    && forall i :: 0 <= i < |done| ==> Lies(b, argv[i], done[i]) && Ends(b, argv[i] + |done[i]|, floor)
  }

  ghost predicate Ends(b: seq<char>, i: nat, floor: nat) {
    i < floor && i < |b| && b[i] == NUL
  }

  /** Writing at or above the floor leaves complete arguments alone. */
  lemma StaysComplete(b: seq<char>, argv: seq<nat>, done: seq<string>, floor: nat,
                      b': seq<char>, argv': seq<nat>, floor': nat)
    requires Complete(b, argv, done, floor) && floor <= floor' && argv <= argv' && |b'| == |b|
    requires forall i :: 0 <= i < floor && i < |b| ==> b'[i] == b[i]
    ensures Complete(b', argv', done, floor')
  {
  }

  lemma OneMore(b: seq<char>, argv: seq<nat>, done: seq<string>, x: string, floor: nat)
    requires Complete(b, argv, done, floor) && |done| < |argv|
    requires Lies(b, argv[|done|], x) && Ends(b, argv[|done|] + |x|, floor)
    ensures Complete(b, argv, done + [x], floor)
  {
  }

  class Tokenizer {
    const buf: array<char>
    var pos: nat
    var state: Mode
    var argv: seq<nat>
    var isNext: bool
    ghost var end: nat           // the terminating NUL
    ghost var args: seq<string>  // complete arguments of the current command
    ghost var cur: string        // the argument under way

    /** Cells from this index on may still be written. */
    ghost function Floor(): nat
      reads this
    {
      if state.InVoid? || argv == [] then pos else argv[|argv| - 1]
    }

    ghost predicate Valid()
      reads this, buf
    {
      // the text ahead, up to its NUL
      && pos <= end < buf.Length && buf[end] == NUL
      && (forall i :: pos <= i < end ==> buf[i] != NUL)
      // complete arguments, each with its NUL
      && |argv| == Argc(state, args)
      && Complete(buf[..], argv, args, Floor())
      // the argument under way
      && (if state.InVoid? then cur == []
          else Lies(buf[..], argv[|argv| - 1], cur) && argv[|argv| - 1] + |cur| == pos)
      && (!state.InVoid? && cur == [] ==> 0 < pos && buf[pos - 1] == QUOTE)
    }

    ghost function Rest(): string
      requires pos <= end <= buf.Length
      reads this, buf
    {
      buf[pos..end]
    }

    constructor (line: string)
      requires NUL !in line
      ensures fresh(buf) && Valid() && Rest() == line
      ensures state.InVoid? && args == [] && cur == []
    {
      var text := line + [NUL];
      buf := new char[|text|](i requires 0 <= i < |text| => text[i]);
      pos, state, argv, isNext, end, args, cur := 0, InVoid, [], false, |line|, [], [];
      new;
      assert buf[0..|line|] == line;
    }

    /** `tash_remove_char`: everything from `at + 1` up to the NUL moves down one cell. */
    method RemoveChar(at: nat)
      requires at < end < buf.Length && buf[end] == NUL
      requires forall i :: at < i < end ==> buf[i] != NUL
      modifies buf
      ensures forall i :: 0 <= i < buf.Length ==>
        buf[i] == if at <= i < end then old(buf[i + 1]) else old(buf[i])
    {
      var last := at + 1;
      while buf[last] != NUL
        invariant at < last <= end
        decreases end - last
      {
        last := last + 1;
      }
      forall i | at <= i < last {
        buf[i] := buf[i + 1];
      }
    }

    // ----- What one round can do

    method Skip()
      requires Valid() && state.InVoid? && pos < end
      modifies this`pos
      ensures Valid() && Rest() == old(Rest())[1..]
    {
      hide Complete;
      pos := pos + 1;
      StaysComplete(buf[..], argv, args, pos - 1, buf[..], argv, pos);
    }

    /** A NUL in place of the separator ends the argument under way, if any. */
    method Cut()
      requires Valid() && !state.InQuote? && pos < end
      modifies this`pos, this`state, this`args, this`cur, buf
      ensures Valid() && Rest() == old(Rest())[1..]
      ensures state.InVoid? && cur == []
      ensures args == if old(state).InVoid? then old(args) else old(args) + [old(cur)]
    {
      hide Complete;
      ghost var before := buf[..];
      buf[pos] := NUL;
      StaysComplete(before, argv, args, Floor(), buf[..], argv, pos + 1);
      if state.InWord? {
        OneMore(buf[..], argv, args, cur, pos + 1);
        args, cur := args + [cur], [];
        state := InVoid;
      }
      pos := pos + 1;
    }

    /** The comment sign: two NULs end the whole line here. */
    method CutLine()
      requires Valid() && state.InVoid? && pos < end
      modifies this`pos, this`end, buf
      ensures Valid() && Rest() == []
    {
      hide Complete;
      ghost var before := buf[..];
      buf[pos], buf[pos + 1] := NUL, NUL;
      StaysComplete(before, argv, args, pos, buf[..], argv, pos + 1);
      pos := pos + 1;
      end := pos;
    }

    method StartWord()
      requires Valid() && state.InVoid? && pos < end
      modifies this`pos, this`state, this`argv, this`cur
      ensures Valid() && Rest() == old(Rest())[1..]
      ensures state.InWord? && cur == [old(Rest())[0]]
    {
      hide Complete;
      StaysComplete(buf[..], argv, args, pos, buf[..], argv + [pos], pos);
      argv, state, cur := argv + [pos], InWord, [buf[pos]];
      pos := pos + 1;
    }

    method StartQuote()
      requires Valid() && state.InVoid? && pos < end && buf[pos] == QUOTE
      modifies this`pos, this`state, this`argv
      ensures Valid() && Rest() == old(Rest())[1..]
      ensures state.InQuote?
    {
      hide Complete;
      StaysComplete(buf[..], argv, args, pos, buf[..], argv + [pos + 1], pos + 1);
      argv, state := argv + [pos + 1], InQuote;
      pos := pos + 1;
    }

    method Extend()
      requires Valid() && !state.InVoid? && pos < end
      modifies this`pos, this`cur
      ensures Valid() && Rest() == old(Rest())[1..]
      ensures cur == old(cur) + [old(Rest())[0]]
    {
      hide Complete;
      cur := cur + [buf[pos]];
      pos := pos + 1;
    }

    /** Remove the quote at the current position; the text behind it moves up to it. */
    method DropQuote(then_: Mode)
      requires Valid() && !state.InVoid? && !then_.InVoid? && pos < end
      modifies this`state, this`end, buf
      ensures Valid() && Rest() == old(Rest())[1..]
      ensures state == then_
    {
      hide Complete;
      ghost var before := buf[..];
      RemoveChar(pos);
      StaysComplete(before, argv, args, Floor(), buf[..], argv, Floor());
      end := end - 1;
      state := then_;
    }

    /** Remove the backslash before the quote; the quote takes its place. */
    method DropBackslash()
      requires Valid() && !state.InVoid? && pos < end && cur != [] && buf[pos] == QUOTE
      modifies this`cur, this`end, buf
      ensures Valid() && Rest() == old(Rest())[1..]
      ensures cur == Unescape(old(cur))
    {
      hide Complete;
      ghost var before := buf[..];
      RemoveChar(pos - 1);
      StaysComplete(before, argv, args, Floor(), buf[..], argv, Floor());
      end := end - 1;
      cur := Unescape(cur);
    }

    // ----- The loops

    /** What the rest of the command amounts to, seen from the current state. */
    ghost function Meaning(): Cmd
      requires pos <= end <= buf.Length
      reads this, buf
    {
      Parse(state, args, cur, Rest())
    }

    /** One round of the scanning loop. */
    method Step()
      requires Valid() && pos < end && |argv| < MAX_ARGS && !isNext
      modifies this, buf
      ensures Valid() && |Rest()| < |old(Rest())|
      ensures isNext ==> state.InVoid? && old(Meaning()) == Cmd(args, Rest(), true)
      ensures !isNext ==> old(Meaning()) == Meaning()
    {
      match state {
        case InVoid => StepVoid();
        case InQuote => StepQuote();
        case InWord => StepWord();
      }
    }

    method StepVoid()
      requires Valid() && state.InVoid? && pos < end && |argv| < MAX_ARGS && !isNext
      modifies this, buf
      ensures Valid() && |Rest()| < |old(Rest())|
      ensures isNext ==> state.InVoid? && old(Meaning()) == Cmd(args, Rest(), true)
      ensures !isNext ==> old(Meaning()) == Meaning()
    {
      hide Parse;
      VoidStep(args, cur, Rest());
      var c := buf[pos];
      if c == ' ' {
        Skip();
      } else if c == '#' {
        CutLine();
      } else if c == QUOTE {
        StartQuote();
      } else if EndsCommand(c) {
        Cut();
        isNext := true;
      } else {
        StartWord();
      }
    }

    method StepQuote()
      requires Valid() && state.InQuote? && pos < end && |argv| < MAX_ARGS && !isNext
      modifies this, buf
      ensures Valid() && |Rest()| < |old(Rest())| && !isNext
      ensures old(Meaning()) == Meaning()
    {
      if buf[pos] == QUOTE {
        assert buf[pos - 1] == Previous(cur);
        if buf[pos - 1] == BACKSLASH {
          DropBackslash();
        } else {
          DropQuote(InWord);
        }
      } else {
        Extend();
      }
    }

    method StepWord()
      requires Valid() && state.InWord? && pos < end && |argv| < MAX_ARGS && !isNext
      modifies this, buf
      ensures Valid() && |Rest()| < |old(Rest())|
      ensures isNext ==> state.InVoid? && old(Meaning()) == Cmd(args, Rest(), true)
      ensures !isNext ==> old(Meaning()) == Meaning()
    {
      hide Parse;
      WordStep(args, cur, Rest());
      var c := buf[pos];
      if c == ' ' {
        Cut();
      } else if c == QUOTE {
        assert buf[pos - 1] == Previous(cur);
        if buf[pos - 1] == BACKSLASH {
          DropBackslash();
        } else {
          DropQuote(InQuote);
        }
      } else if EndsCommand(c) {
        Cut();
        isNext := true;
      } else {
        Extend();
      }
    }

    /** The strings that `argv` points to, as `tash_execute_cmd` reads them. */
    method Arguments() returns (strs: seq<string>)
      requires Valid() && !state.InQuote?
      ensures strs == Finish(state, args, cur, Rest())
    {
      strs := [];
      for i := 0 to |argv|
        invariant |strs| == i && forall k :: 0 <= k < i ==> strs[k] == Finish(state, args, cur, Rest())[k]
      {
        if i < |args| {
          assert Lies(buf[..], argv[i], args[i]) && Ends(buf[..], argv[i] + |args[i]|, Floor());
          ReadsString(buf[..], argv[i], args[i]);
        } else {
          ReadsString(buf[..], argv[i], cur + Rest());
        }
        strs := strs + [CString(buf[..], argv[i])];
      }
    }

    /** The body of the outer loop: one command. */
    method ParseCommand() returns (cmd: seq<string>)
      requires pos <= end < buf.Length && buf[end] == NUL && NUL !in Rest()
      modifies this, buf
      ensures pos <= end < buf.Length && buf[end] == NUL && NUL !in Rest()
      ensures var r := Parse(InVoid, [], [], old(Rest()));
              cmd == r.argv && isNext == r.next && (isNext ==> Rest() == r.rest)
    {
      hide Parse, Argc, Finish;
      argv, isNext, state := [], false, InVoid;
      args, cur := [], [];
      StartsValid();
      while buf[pos] != NUL && |argv| < MAX_ARGS && !isNext
        invariant Valid() && (isNext ==> state.InVoid?)
        invariant Parse(InVoid, [], [], old(Rest())) == if isNext then Cmd(args, Rest(), true) else Meaning()
        decreases |Rest()|
      {
        Step();
      }
      AtEnd();
      if state.InQuote? {
        cmd := [];
      } else {
        cmd := Arguments();
      }
    }

    lemma StartsValid()
      requires pos <= end < buf.Length && buf[end] == NUL && NUL !in Rest()
      requires argv == [] && state.InVoid? && args == [] && cur == []
      ensures Valid()
    {
      forall i | pos <= i < end
        ensures buf[i] != NUL
      {
        assert buf[i] == Rest()[i - pos];
      }
    }

    /** When the loop ends without a separator, the arguments are complete. */
    lemma AtEnd()
      requires Valid()
      ensures NUL !in Rest()
      ensures buf[pos] == NUL || |argv| >= MAX_ARGS ==>
        Meaning() == Cmd(Finish(state, args, cur, Rest()), Rest(), false)
      ensures state.InVoid? ==> Finish(state, args, cur, Rest()) == args
      ensures state.InQuote? ==> Finish(state, args, cur, Rest()) == []
    {
      if buf[pos] == NUL {
        assert Rest() == [];
      }
    }

    /** `tash_execute_cmdline`; `ran` lists the argument vectors executed. */
    method ExecuteCmdline() returns (ran: seq<seq<string>>)
      requires pos <= end < buf.Length && buf[end] == NUL && NUL !in Rest()
      modifies this, buf
      ensures ran == Execute(old(Rest()))
    {
      hide Parse;
      ran := [];
      var again := true;
      while again
        invariant pos <= end < buf.Length && buf[end] == NUL && NUL !in Rest()
        invariant Execute(old(Rest())) == if again then ran + Execute(Rest()) else ran
        decreases again, |Rest()|
      {
        ghost var line := Rest();
        var cmd := ParseCommand();
        OneCommand(ran, line);
        if |cmd| > 0 {
          ran := ran + [cmd];
        }
        again := isNext;
      }
    }
  }

  /** Printing a list of commands and running the printed line. */
  method RunPrinted(cmds: seq<seq<string>>) returns (ran: seq<seq<string>>)
    requires NUL !in PrintLine(cmds)
    ensures ran == cmds <==> forall i :: 0 <= i < |cmds| ==> Printable(cmds[i])
  {
    var t := new Tokenizer(PrintLine(cmds));
    ran := t.ExecuteCmdline();
    RoundTripExact(cmds);
  }

  /** Running a typed line. */
  method RunTyped(l: Line) returns (ran: seq<seq<string>>)
    requires LineOk(l) && NUL !in WriteLine(l)
    ensures ran == AllExecuted(l.commands) + Executed(l.words)
  {
    var t := new Tokenizer(WriteLine(l));
    ran := t.ExecuteCmdline();
    LineExecutes(l);
  }
}
