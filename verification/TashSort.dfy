/** The command names of TASH, their comparison functions, and the gap sort of the
    command table on values. */
module TashSort {
  /** The characters of a C string. */
  type CChar = c: char | 0 < c as int < 256 witness 'a'
  type Name = seq<CChar>

  const KEY_LENGTH: nat := 15  // TASH_CMD_MAXSTRLENGTH - 1

  datatype Command = Command(cb: int, execType: int)
  datatype Entry = Entry(name: Name, command: Command)

  // ----- Comparing names

  /** The character a C string shows at its start; its NUL if it is at its end. */
  function First(s: Name): (c: int)
    ensures 0 <= c < 256 && (c == 0 <==> s == [])
  {
    if s == [] then 0 else s[0] as int
  }

  /** What is left of an `int` difference stored in a `signed char`. */
  function SignedChar(d: int): (r: int)
    requires -256 < d < 256
    ensures -128 <= r <= 127 && (d - r) % 256 == 0
  {
    if d > 127 then d - 256 else if d < -128 then d + 256 else d
  }

  function Strcmp(a: Name, b: Name): int {
    var result := SignedChar(First(a) - First(b));
    if result != 0 || a == [] then result
    else Strcmp(a[1..], b[1..])
  }

  function Strncmp(a: Name, b: Name, nb: nat): int {
    if nb == 0 then 0
    else
      var result := First(a) - First(b);
      if result != 0 || a == [] then result
      else Strncmp(a[1..], b[1..], nb - 1)
  }

  function Prefix(s: Name, n: nat): Name {
    if |s| <= n then s else s[..n]
  }

  /** The part of a name that identifies a command. */
  function Key(s: Name): (k: Name)
    ensures |k| <= KEY_LENGTH
  {
    Prefix(s, KEY_LENGTH)
  }

  lemma KeyOfKey(s: Name)
    ensures Key(Key(s)) == Key(s)
  {
  }

  lemma {:induction false} StrncmpZero(a: Name, b: Name, n: nat)
    ensures Strncmp(a, b, n) == 0 <==> Prefix(a, n) == Prefix(b, n)
    decreases n
  {
    if n > 0 && a != [] && b != [] {
      StrncmpZero(a[1..], b[1..], n - 1);
      PrefixHead(a, n);
      PrefixHead(b, n);
    }
  }

  lemma PrefixHead(s: Name, n: nat)
    requires n > 0 && s != []
    ensures Prefix(s, n) == [s[0]] + Prefix(s[1..], n - 1)
  {
  }

  /** Dictionary order. */
  predicate Less(a: Name, b: Name) {
    b != [] && (a == [] || a[0] < b[0] || (a[0] == b[0] && Less(a[1..], b[1..])))
  }

  /** The difference of the characters at the first place where two names differ. */
  function FirstDifference(a: Name, b: Name): (d: int)
    ensures -256 < d < 256
  {
    if First(a) != First(b) || a == [] || b == [] then First(a) - First(b)
    else FirstDifference(a[1..], b[1..])
  }

  /** `strcmp` reports "less" for the names in dictionary order, and for no others, if and
      only if the deciding difference fits a `signed char`. */
  lemma {:induction false} StrcmpExact(a: Name, b: Name)
    ensures (Strcmp(a, b) < 0 <==> Less(a, b)) <==> -128 <= FirstDifference(a, b) <= 127
    decreases |a|
  {
    if a != [] && b != [] && First(a) == First(b) {
      StrcmpExact(a[1..], b[1..]);
    }
  }

  lemma {:induction false} DifferenceSign(a: Name, b: Name)
    ensures Less(a, b) <==> FirstDifference(a, b) < 0
    ensures FirstDifference(a, b) == 0 <==> a == b
    ensures FirstDifference(b, a) == -FirstDifference(a, b)
    decreases |a|
  {
    if a != [] && b != [] && First(a) == First(b) {
      DifferenceSign(a[1..], b[1..]);
      assert a == [a[0]] + a[1..] && b == [b[0]] + b[1..];
    }
  }

  lemma {:induction false} NotLessTransitive(a: Name, b: Name, c: Name)
    requires !Less(b, a) && !Less(c, b)
    ensures !Less(c, a)
    decreases |a|
  {
    if a != [] && b != [] && c != [] && a[0] == b[0] == c[0] {
      NotLessTransitive(a[1..], b[1..], c[1..]);
    }
  }

  /** Any two of these names are told apart by characters at most 127 apart, as all
      names made of 7-bit characters are. */
  ghost predicate Close(ns: set<Name>) {
    forall a, b :: a in ns && b in ns ==> -127 <= FirstDifference(a, b) <= 127
  }

  lemma CloseAgrees(ns: set<Name>, a: Name, b: Name)
    requires Close(ns) && a in ns && b in ns
    ensures Strcmp(a, b) < 0 <==> Less(a, b)
    ensures Less(a, b) ==> !Less(b, a)
  {
    StrcmpExact(a, b);
    DifferenceSign(a, b);
    DifferenceSign(b, a);
  }

  // ----- The gap sort

  /** The inner loop: entries `gap` apart move up until the place of `temp` is found. */
  function Insert(s: seq<Entry>, j: nat, gap: nat, temp: Entry): (r: seq<Entry>)
    requires 0 < gap && j < |s|
    ensures |r| == |s|
    decreases j
  {
    if j >= gap && Strcmp(temp.name, s[j - gap].name) < 0
    then Insert(s[j := s[j - gap]], j - gap, gap, temp)
    else s[j := temp]
  }

  /** The middle loop, from index `i` on. */
  function Pass(s: seq<Entry>, i: nat, gap: nat): (r: seq<Entry>)
    requires 0 < gap
    ensures |r| == |s|
    decreases |s| - i
  {
    if i >= |s| then s else Pass(Insert(s, i, gap, s[i]), i + 1, gap)
  }

  function NextGap(gap: nat): (g: nat)
    ensures 0 < g && (gap > 1 ==> g < gap)
  {
    if gap * 5 / 11 > 1 then gap * 5 / 11 else 1
  }

  /** The outer loop. */
  function Sort(s: seq<Entry>, gap: nat): (r: seq<Entry>)
    ensures |r| == |s|
    decreases gap
  {
    if gap > 1 then Sort(Pass(s, NextGap(gap), NextGap(gap)), NextGap(gap)) else s
  }

  // ----- A permutation

  lemma {:induction false} InsertPermutes(s: seq<Entry>, j: nat, gap: nat, temp: Entry)
    requires 0 < gap && j < |s|
    ensures multiset(Insert(s, j, gap, temp)) == multiset(s[j := temp])
    decreases j
  {
    hide Strcmp;
    if j >= gap && Strcmp(temp.name, s[j - gap].name) < 0 {
      InsertPermutes(s[j := s[j - gap]], j - gap, gap, temp);
      MovedUp(s, j - gap, j, temp);
    }
  }

  lemma MovedUp(s: seq<Entry>, i: nat, j: nat, x: Entry)
    requires i < j < |s|
    ensures multiset(s[j := s[i]][i := x]) == multiset(s[j := x])
  {
    var m, t := multiset(s), s[j := s[i]];
    assert multiset(t) == m - multiset{s[j]} + multiset{s[i]};
    assert multiset(t[i := x]) == multiset(t) - multiset{s[i]} + multiset{x};
    assert multiset(s[j := x]) == m - multiset{s[j]} + multiset{x};
  }

  lemma {:induction false} PassPermutes(s: seq<Entry>, i: nat, gap: nat)
    requires 0 < gap
    ensures multiset(Pass(s, i, gap)) == multiset(s)
    decreases |s| - i
  {
    if i < |s| {
      InsertPermutes(s, i, gap, s[i]);
      assert s[i := s[i]] == s;
      PassPermutes(Insert(s, i, gap, s[i]), i + 1, gap);
    }
  }

  lemma {:induction false} SortPermutes(s: seq<Entry>, gap: nat)
    ensures multiset(Sort(s, gap)) == multiset(s)
    decreases gap
  {
    if gap > 1 {
      var g := NextGap(gap);
      PassPermutes(s, g, g);
      SortPermutes(Pass(s, g, g), g);
    }
  }

  // ----- In order

  ghost predicate Within(s: seq<Entry>, ns: set<Name>) {
    forall k :: 0 <= k < |s| ==> s[k].name in ns
  }

  /** Up to index `n`, entries `gap` apart are in order. */
  ghost predicate Ordered(s: seq<Entry>, gap: nat, n: nat)
    requires n <= |s|
  {
    forall k :: gap <= k < n ==> !Less(s[k].name, s[k - gap].name)
  }

  /** The same while the cell at `j` is free for `temp`, which belongs before it. */
  ghost predicate OrderedAround(s: seq<Entry>, j: nat, gap: nat, n: nat, temp: Entry)
    requires j < n <= |s|
  {
    && (forall k :: gap <= k < n && k != j && k != j + gap ==> !Less(s[k].name, s[k - gap].name))
    && (j + gap < n ==> !Less(s[j + gap].name, temp.name))
    && (j + gap < n && j >= gap ==> !Less(s[j + gap].name, s[j - gap].name))
  }

  lemma MoveKeepsOrder(s: seq<Entry>, j: nat, gap: nat, temp: Entry, n: nat)
    requires 0 < gap <= j < n <= |s| && OrderedAround(s, j, gap, n, temp)
    requires !Less(s[j - gap].name, temp.name)
    ensures OrderedAround(s[j := s[j - gap]], j - gap, gap, n, temp)
  {
    hide Less;
  }

  lemma {:induction false} InsertOrders(s: seq<Entry>, j: nat, gap: nat, temp: Entry, n: nat, ns: set<Name>)
    requires 0 < gap && j < n <= |s| && OrderedAround(s, j, gap, n, temp)
    requires Close(ns) && Within(s, ns) && temp.name in ns
    ensures Ordered(Insert(s, j, gap, temp), gap, n) && Within(Insert(s, j, gap, temp), ns)
    decreases j
  {
    hide Less, Strcmp, Close;
    if j >= gap {
      CloseAgrees(ns, temp.name, s[j - gap].name);
      if Strcmp(temp.name, s[j - gap].name) < 0 {
        MoveKeepsOrder(s, j, gap, temp, n);
        InsertOrders(s[j := s[j - gap]], j - gap, gap, temp, n, ns);
      }
    }
  }

  /** After a pass with some gap the table is ordered with respect to that gap. */
  lemma {:induction false} PassOrders(s: seq<Entry>, i: nat, gap: nat, ns: set<Name>)
    requires 0 < gap && i <= |s| && Ordered(s, gap, i) && Close(ns) && Within(s, ns)
    ensures Ordered(Pass(s, i, gap), gap, |s|) && Within(Pass(s, i, gap), ns)
    decreases |s| - i
  {
    if i < |s| {
      InsertOrders(s, i, gap, s[i], i + 1, ns);
      PassOrders(Insert(s, i, gap, s[i]), i + 1, gap, ns);
    }
  }

  lemma {:induction false} SortOrders(s: seq<Entry>, gap: nat, ns: set<Name>)
    requires 1 < gap <= |s| && Close(ns) && Within(s, ns)
    ensures Ordered(Sort(s, gap), 1, |s|)
    decreases gap
  {
    var g := NextGap(gap);
    PassOrders(s, g, g, ns);
    if g > 1 {
      SortOrders(Pass(s, g, g), g, ns);
    }
  }

  ghost predicate Sorted(s: seq<Entry>) {
    forall i, j :: 0 <= i < j < |s| ==> !Less(s[j].name, s[i].name)
  }

  lemma {:induction false} OrderedFrom(s: seq<Entry>, i: nat, j: nat)
    requires Ordered(s, 1, |s|) && i < j < |s|
    ensures !Less(s[j].name, s[i].name)
    decreases j - i
  {
    if i + 1 < j {
      OrderedFrom(s, i, j - 1);
      NotLessTransitive(s[i].name, s[j - 1].name, s[j].name);
    }
  }

  lemma SortSorts(s: seq<Entry>, ns: set<Name>)
    requires Close(ns) && Within(s, ns)
    ensures Sorted(Sort(s, |s|))
  {
    if |s| > 1 {
      SortOrders(s, |s|, ns);
      var t := Sort(s, |s|);
      forall i, j | 0 <= i < j < |t|
        ensures !Less(t[j].name, t[i].name)
      {
        OrderedFrom(t, i, j);
      }
    }
  }

  /** Two names too far apart, installed in dictionary order, come out reversed. */
  lemma FarApart(a: Name, b: Name, c: Command)
    requires FirstDifference(a, b) > 127
    ensures !Sorted(Sort([Entry(b, c), Entry(a, c)], 2))
  {
    StrcmpExact(a, b);
    DifferenceSign(a, b);
    DifferenceSign(b, a);
    var s := [Entry(b, c), Entry(a, c)];
    assert Strcmp(a, b) < 0 && Less(b, a);
    assert Insert(s, 1, 1, s[1]) == [Entry(a, c), Entry(b, c)];
    var t := Sort(s, 2);
    assert NextGap(2) == 1 && t == Pass(s, 1, 1) == Insert(s, 1, 1, s[1]);
    assert t[1].name == b && t[0].name == a;
  }

  /** The sort puts every table over a set of names in dictionary order if and only if
      those names are close. */
  lemma SortExact(ns: set<Name>)
    ensures Close(ns) <==> forall s :: Within(s, ns) ==> Sorted(Sort(s, |s|))
  {
    if Close(ns) {
      forall s | Within(s, ns)
        ensures Sorted(Sort(s, |s|))
      {
        SortSorts(s, ns);
      }
    } else {
      var a, b :| a in ns && b in ns && !(-127 <= FirstDifference(a, b) <= 127);
      DifferenceSign(a, b);
      var x, y := if FirstDifference(a, b) > 127 then a else b, if FirstDifference(a, b) > 127 then b else a;
      var c := Command(0, 0);
      FarApart(x, y, c);
      assert Within([Entry(y, c), Entry(x, c)], ns);
    }
  }
}
