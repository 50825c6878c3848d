/** The table of TASH commands: installing, sorting and looking up commands in place. */
module TashTable {
  import opened TashSort

  const EXECMD_SYNC := 0
  const EXECMD_ASYNC := 1

  // ----- What a table means

  datatype Op = Install(name: Name, command: Command) | Help

  /** The commands that a history of operations leaves installed: of the installs that
      agree on the first fifteen characters, the first one counts, and none counts once
      the table is full. */
  function Installed(max: nat, history: seq<Op>): (m: map<Name, Command>)
    ensures |m| <= max
  {
    if history == [] then map[]
    else
      var m := Installed(max, history[..|history| - 1]);
      match history[|history| - 1]
      case Help => m
      case Install(name, c) => if |m| == max || Key(name) in m then m else m[Key(name) := c]
  }

  lemma InstalledAfter(max: nat, history: seq<Op>, op: Op)
    ensures var m := Installed(max, history);
            Installed(max, history + [op]) ==
            if op.Help? || |m| == max || Key(op.name) in m then m else m[Key(op.name) := op.command]
  {
    var all := history + [op];
    assert all[..|all| - 1] == history;
  }

  datatype Outcome = Called(cb: int) | Launched(cb: int) | WrongType | NotRegistered

  function Selected(m: map<Name, Command>, name: Name): Outcome {
    if Key(name) !in m then NotRegistered else Dispatch(m[Key(name)])
  }

  function Dispatch(c: Command): Outcome {
    if c.execType == EXECMD_SYNC then Called(c.cb)
    else if c.execType == EXECMD_ASYNC then Launched(c.cb)
    else WrongType
  }

  ghost predicate Distinct(s: seq<Entry>) {
    forall i, j :: 0 <= i < j < |s| ==> s[i].name != s[j].name
  }

  ghost function Names(s: seq<Entry>): set<Name> {
    set k | 0 <= k < |s| :: s[k].name
  }

  /** The table holds these commands under their keys, each once. */
  ghost predicate Represents(s: seq<Entry>, m: map<Name, Command>) {
    && Distinct(s) && |s| == |m| && Names(s) == m.Keys
    && forall k :: 0 <= k < |s| ==> Bound(s[k], m)
  }

  ghost predicate Bound(e: Entry, m: map<Name, Command>) {
    Key(e.name) == e.name && e.name in m && m[e.name] == e.command
  }

  lemma Representative(s: seq<Entry>, m: map<Name, Command>, k: nat)
    requires Represents(s, m) && k < |s|
    ensures Bound(s[k], m)
  {
  }

  lemma NotInstalled(s: seq<Entry>, m: map<Name, Command>, key: Name)
    requires Represents(s, m) && forall k :: 0 <= k < |s| ==> s[k].name != key
    ensures key !in m
  {
  }

  lemma KeyIs(a: Name, b: Name)
    requires Key(b) == b
    ensures Prefix(a, KEY_LENGTH) == Prefix(b, KEY_LENGTH) <==> Key(a) == b
  {
  }

  // ----- Sorting keeps the meaning

  lemma {:induction false} AtMostOnce(s: seq<Entry>, e: Entry)
    requires Distinct(s)
    ensures multiset(s)[e] <= 1
    decreases |s|
  {
    if s != [] {
      assert s == [s[0]] + s[1..];
      AtMostOnce(s[1..], e);
      if e == s[0] {
        assert forall k :: 0 <= k < |s[1..]| ==> s[1..][k] != e;
      }
    }
  }

  lemma TwiceAtLeast(t: seq<Entry>, i: nat, j: nat)
    requires i < j < |t| && t[i] == t[j]
    ensures multiset(t)[t[i]] >= 2
  {
    assert t == t[..j] + t[j..];
    assert t[..j][i] == t[i] && t[j..][0] == t[i];
  }

  lemma SameEntries(s: seq<Entry>, t: seq<Entry>, k: nat) returns (i: nat)
    requires multiset(s) == multiset(t) && k < |t|
    ensures i < |s| && s[i] == t[k]
  {
    assert t[k] in multiset(s);
    i :| 0 <= i < |s| && s[i] == t[k];
  }

  lemma PermutedDistinct(s: seq<Entry>, t: seq<Entry>)
    requires multiset(s) == multiset(t) && Distinct(s)
    ensures Distinct(t)
  {
    forall i, j | 0 <= i < j < |t|
      ensures t[i].name != t[j].name
    {
      var a := SameEntries(s, t, i);
      var b := SameEntries(s, t, j);
      if t[i].name == t[j].name {
        assert a == b;
        TwiceAtLeast(t, i, j);
        AtMostOnce(s, t[i]);
        assert false;
      }
    }
  }

  lemma PermutedNames(s: seq<Entry>, t: seq<Entry>)
    requires multiset(s) == multiset(t)
    ensures Names(t) <= Names(s)
  {
    forall n | n in Names(t)
      ensures n in Names(s)
    {
      var k :| 0 <= k < |t| && t[k].name == n;
      var i := SameEntries(s, t, k);
    }
  }

  /** Sorting a table does not change which command any name selects. */
  lemma SortRepresents(s: seq<Entry>, m: map<Name, Command>)
    requires Represents(s, m)
    ensures Represents(Sort(s, |s|), m)
  {
    var t := Sort(s, |s|);
    SortPermutes(s, |s|);
    PermutedDistinct(s, t);
    PermutedNames(s, t);
    PermutedNames(t, s);
    forall k | 0 <= k < |t|
      ensures Bound(t[k], m)
    {
      var i := SameEntries(s, t, k);
      Representative(s, m, i);
    }
  }

  lemma InstallRepresents(s: seq<Entry>, m: map<Name, Command>, e: Entry)
    requires Represents(s, m) && Key(e.name) == e.name && e.name !in m
    ensures Represents(s + [e], m[e.name := e.command])
  {
    hide Key, Names, Distinct;
    var t, n := s + [e], m[e.name := e.command];
    assert n.Keys == m.Keys + {e.name};
    InstallNames(s, e);
    forall k | 0 <= k < |s|
      ensures Bound(s[k], m) && s[k].name != e.name
    {
      Representative(s, m, k);
    }
    InstallDistinct(s, e);
    forall k | 0 <= k < |t|
      ensures Bound(t[k], n)
    {
      assert k < |s| ==> t[k] == s[k];
    }
  }

  lemma InstallDistinct(s: seq<Entry>, e: Entry)
    requires Distinct(s) && forall k :: 0 <= k < |s| ==> s[k].name != e.name
    ensures Distinct(s + [e])
  {
  }

  lemma InstallNames(s: seq<Entry>, e: Entry)
    ensures Names(s + [e]) == Names(s) + {e.name}
  {
    var t := s + [e];
    forall n | n in Names(s) + {e.name}
      ensures n in Names(t)
    {
      if n == e.name {
        assert t[|s|] == e;
      } else {
        var k :| 0 <= k < |s| && s[k].name == n;
        assert t[k] == s[k];
      }
    }
    forall n | n in Names(t)
      ensures n in Names(s) + {e.name}
    {
      var k :| 0 <= k < |t| && t[k].name == n;
      assert k < |s| ==> t[k] == s[k];
    }
  }

  /** The first of several installs under one key stays, whatever follows. */
  lemma {:induction false} FirstInstallStays(max: nat, history: seq<Op>, later: seq<Op>, key: Name)
    requires key in Installed(max, history)
    ensures key in Installed(max, history + later)
    ensures Installed(max, history + later)[key] == Installed(max, history)[key]
    decreases |later|
  {
    if later == [] {
      assert history + later == history;
    } else {
      var all := history + later;
      assert all[..|all| - 1] == history + later[..|later| - 1];
      FirstInstallStays(max, history, later[..|later| - 1], key);
    }
  }

  // ----- The table

  class CommandTable {
    const cmd: array<Entry>
    var count: nat
    var isSorted: bool
    ghost var history: seq<Op>

    ghost function Table(): seq<Entry>
      requires count <= cmd.Length
      reads this, cmd
    {
      cmd[..count]
    }

    ghost function Meaning(): map<Name, Command>
      reads this
    {
      Installed(cmd.Length, history)
    }

    ghost predicate Valid()
      reads this, cmd
    {
      && count <= cmd.Length
      && Represents(Table(), Meaning())
      && (isSorted && Close(Meaning().Keys) ==> Sorted(Table()))
    }

    constructor (max: nat)
      ensures fresh(cmd) && cmd.Length == max && Valid() && history == []
    {
      cmd := new Entry[max](_ => Entry([], Command(0, 0)));
      count, isSorted, history := 0, false, [];
    }

    /** The inner loop of `tash_sort_cmds`. */
    method InsertAt(i: nat, gap: nat)
      requires 0 < gap <= i < count <= cmd.Length
      modifies cmd
      ensures Table() == Insert(old(Table()), i, gap, old(Table())[i])
    {
      var temp := cmd[i];
      var j := i;
      ghost var goal := Insert(Table(), i, gap, temp);
      while j >= gap && Strcmp(temp.name, cmd[j - gap].name) < 0
        invariant 0 <= j <= i
        invariant Insert(Table(), j, gap, temp) == goal
      {
        ghost var s := Table();
        cmd[j] := cmd[j - gap];
        assert Table() == s[j := s[j - gap]];
        j := j - gap;
      }
      ghost var s := Table();
      cmd[j] := temp;
      assert Table() == s[j := temp];
    }

    /** `tash_sort_cmds`. */
    method SortCmds()
      requires count <= cmd.Length
      modifies cmd
      ensures Table() == Sort(old(Table()), count)
    {
      var gap := count;
      while gap > 1
        invariant 0 <= gap <= count
        invariant Sort(Table(), gap) == Sort(old(Table()), count)
      {
        ghost var s := Table();
        gap := if gap * 5 / 11 > 1 then gap * 5 / 11 else 1;
        for i := gap to count
          invariant Pass(Table(), i, gap) == Pass(s, gap, gap)
        {
          InsertAt(i, gap);
        }
      }
    }

    /** The table is sorted when it is listed, unless it still is. */
    method EnsureSorted()
      requires Valid()
      modifies this`isSorted, cmd
      ensures Valid() && isSorted
      ensures multiset(Table()) == multiset(old(Table()))
      ensures old(isSorted) ==> Table() == old(Table())
    {
      hide Sort, Represents, Sorted, Close, Installed;
      if !isSorted {
        SortRepresents(Table(), Meaning());
        SortPermutes(Table(), count);
        SortsClosely(Table(), Meaning());
        SortCmds();
        isSorted := true;
      }
    }

    /** `tash_help`: the names in the order in which they are listed. */
    method ListNames() returns (names: seq<Name>)
      requires Valid()
      modifies this, cmd
      ensures Valid() && history == old(history) + [Help]
      ensures multiset(Table()) == multiset(old(Table()))
      ensures |names| == count && forall k :: 0 <= k < count ==> names[k] == Table()[k].name
      ensures Close(Meaning().Keys) ==> Sorted(Table())
    {
      hide Represents, Sorted, Close;
      EnsureSorted();
      history := history + [Help];
      assert history[..|history| - 1] == old(history);
      names := [];
      for i := 0 to count
        invariant |names| == i && forall k :: 0 <= k < i ==> names[k] == Table()[k].name
      {
        names := names + [cmd[i].name];
      }
    }

    /** The index of the entry that agrees on the first fifteen characters, or `count`. */
    method Find(name: Name) returns (at: nat)
      requires Valid()
      ensures at < count ==> Table()[at].name == Key(name)
      ensures at >= count ==> at == count && Key(name) !in Meaning()
    {
      hide Represents, Key, Sorted, Close, Strncmp, Installed;
      at := 0;
      while at < count && Strncmp(name, cmd[at].name, KEY_LENGTH) != 0
        invariant at <= count
        invariant forall k :: 0 <= k < at ==> Table()[k].name != Key(name)
      {
        StrncmpZero(name, cmd[at].name, KEY_LENGTH);
        Representative(Table(), Meaning(), at);
        KeyIs(name, cmd[at].name);
        at := at + 1;
      }
      if at < count {
        StrncmpZero(name, cmd[at].name, KEY_LENGTH);
        Representative(Table(), Meaning(), at);
        KeyIs(name, cmd[at].name);
      } else {
        NotInstalled(Table(), Meaning(), Key(name));
      }
    }

    /** `tash_cmd_install`. */
    method InstallCmd(name: Name, c: Command) returns (ret: int)
      requires Valid()
      modifies this, cmd
      ensures Valid() && history == old(history) + [Install(name, c)]
      ensures ret == if old(count) == cmd.Length then -1 else if Key(name) in old(Meaning()) then -2 else 0
      ensures Table() == if ret == 0 then old(Table()) + [Entry(Key(name), c)] else old(Table())
    {
      hide Represents, Sorted, Close, Installed, Key;
      InstalledAfter(cmd.Length, history, Install(name, c));
      Sizes(Table(), Meaning());
      if count == cmd.Length {
        ret := -1;
      } else {
        var at := Find(name);
        if at < count {
          Representative(Table(), Meaning(), at);
          ret := -2;
        } else {
          KeyOfKey(name);
          InstallRepresents(Table(), Meaning(), Entry(Key(name), c));
          Append(Entry(Key(name), c));
          ret := 0;
        }
      }
      history := history + [Install(name, c)];
    }

    method Append(e: Entry)
      requires count < cmd.Length
      modifies this`count, this`isSorted, cmd
      ensures count <= cmd.Length && !isSorted && Table() == old(Table()) + [e]
    {
      cmd[count] := e;
      count := count + 1;
      isSorted := false;
    }

    /** `tash_execute_cmd`: what the first argument selects. */
    method ExecuteCmd(name: Name) returns (o: Outcome)
      requires Valid()
      ensures o == Selected(Meaning(), name)
      ensures var key := if |name| <= 15 then name else name[..15];
              if key !in Meaning() then o == NotRegistered
              else
                var c := Meaning()[key];
                o == if c.execType == 0 then Called(c.cb) else if c.execType == 1 then Launched(c.cb) else WrongType
    {
      hide Sorted, Close;
      var at := Find(name);
      if at == count {
        return NotRegistered;
      }
      Representative(Table(), Meaning(), at);
      var c := cmd[at].command;
      if c.execType == EXECMD_SYNC {
        o := Called(c.cb);
      } else if c.execType == EXECMD_ASYNC {
        o := Launched(c.cb);
      } else {
        o := WrongType;
      }
    }
  }

  lemma SortsClosely(s: seq<Entry>, m: map<Name, Command>)
    requires Represents(s, m)
    ensures Close(m.Keys) ==> Sorted(Sort(s, |s|))
  {
    if Close(m.Keys) {
      assert Within(s, m.Keys) by {
        forall k | 0 <= k < |s|
          ensures s[k].name in m.Keys
        {
          Representative(s, m, k);
        }
      }
      SortSorts(s, m.Keys);
    }
  }

  lemma Sizes(s: seq<Entry>, m: map<Name, Command>)
    requires Represents(s, m)
    ensures |s| == |m|
  {
  }

  /** Any run of operations on a new table leaves every name selecting what the history
      says. */
  method Perform(max: nat, ops: seq<Op>, name: Name) returns (o: Outcome)
    ensures o == Selected(Installed(max, ops), name)
  {
    hide Represents, Sorted, Close, Installed, Selected;
    var t := new CommandTable(max);
    for i := 0 to |ops|
      invariant t.Valid() && fresh(t) && fresh(t.cmd) && t.cmd.Length == max && t.history == ops[..i]
    {
      match ops[i] {
        case Install(n, c) => var _ := t.InstallCmd(n, c);
        case Help => var _ := t.ListNames();
      }
    }
    assert ops[..|ops|] == ops;
    o := t.ExecuteCmd(name);
  }
}
