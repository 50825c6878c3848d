/** Command lines as people type them, and what the shell makes of them: words of bare and
    quoted stretches, any number of spaces, commands ended by newline or semicolon, and a
    comment at the end. All characters are written out here. */
module TashSyntax {
  import opened TashModel

  /** A stretch of a word; a quote inside either kind is written with a backslash. */
  datatype Piece = Bare(text: string) | Quoted(text: string)

  datatype Word = Word(spaces: nat, pieces: seq<Piece>)

  /** A command, the spaces behind its last word, and the character that ends it. */
  datatype Command = Command(words: seq<Word>, trailing: nat, end: char)

  /** Ended commands, then perhaps one more, spaces, and a comment or nothing. */
  datatype Line = Line(commands: seq<Command>, words: seq<Word>, trailing: nat, comment: string)

  // ----- Which of them are meant

  predicate IsBare(c: char) {
    c != ' ' && c != '\n' && c != ';'
  }

  predicate PieceOk(p: Piece) {
    match p
    case Bare(s) => s != [] && forall i :: 0 <= i < |s| ==> IsBare(s[i])
    case Quoted(s) => PlainArg(s)
  }

  /** A backslash before an opening quote would escape it. */
  predicate PiecesOk(pieces: seq<Piece>) {
    && (forall i :: 0 <= i < |pieces| ==> PieceOk(pieces[i]))
    && forall i :: 0 <= i < |pieces| - 1 ==>
         pieces[i].Bare? && pieces[i + 1].Quoted? ==> PlainArg(pieces[i].text)
  }

  predicate WordOk(w: Word) {
    && w.pieces != [] && PiecesOk(w.pieces)
    && (w.pieces[0].Bare? ==> w.pieces[0].text[0] != '#')
  }

  /** At most thirty words, with spaces between them. */
  predicate WordsOk(words: seq<Word>) {
    && |words| <= 30
    && (forall i :: 0 <= i < |words| ==> WordOk(words[i]))
    && (forall i :: 1 <= i < |words| ==> words[i].spaces > 0)
  }

  predicate CommandOk(c: Command) {
    WordsOk(c.words) && (c.end == '\n' || c.end == ';')
  }

  predicate LineOk(l: Line) {
    && (forall i :: 0 <= i < |l.commands| ==> CommandOk(l.commands[i]))
    && WordsOk(l.words)
    && (l.comment != [] ==> l.comment[0] == '#' && (l.words == [] || l.trailing > 0))
  }

  // ----- How they are written

  function Spaces(n: nat): string {
    if n == 0 then [] else [' '] + Spaces(n - 1)
  }

  function WritePiece(p: Piece): string {
    match p
    case Bare(s) => Escape(s)
    case Quoted(s) => ['"'] + Escape(s) + ['"']
  }

  function WritePieces(pieces: seq<Piece>): string {
    if pieces == [] then [] else WritePiece(pieces[0]) + WritePieces(pieces[1..])
  }

  function WriteWords(words: seq<Word>): string {
    if words == [] then [] else Spaces(words[0].spaces) + WritePieces(words[0].pieces) + WriteWords(words[1..])
  }

  function WriteCommand(c: Command): string {
    WriteWords(c.words) + Spaces(c.trailing) + [c.end]
  }

  function WriteCommands(cs: seq<Command>): string {
    if cs == [] then [] else WriteCommand(cs[0]) + WriteCommands(cs[1..])
  }

  function WriteLine(l: Line): string {
    WriteCommands(l.commands) + (WriteWords(l.words) + Spaces(l.trailing) + l.comment)
  }

  // ----- What they mean

  function Text(pieces: seq<Piece>): string {
    if pieces == [] then [] else pieces[0].text + Text(pieces[1..])
  }

  function Texts(words: seq<Word>): (ts: seq<string>)
    ensures |ts| == |words| && forall i :: 0 <= i < |ts| ==> ts[i] == Text(words[i].pieces)
  {
    seq(|words|, i requires 0 <= i < |words| => Text(words[i].pieces))
  }

  /** Only commands with words are executed. */
  function Executed(words: seq<Word>): seq<seq<string>> {
    if words == [] then [] else [Texts(words)]
  }

  function AllExecuted(cs: seq<Command>): seq<seq<string>> {
    if cs == [] then [] else Executed(cs[0].words) + AllExecuted(cs[1..])
  }

  // ----- Reading words

  /** One character that stands for itself. */
  lemma {:induction false} WordChar(args: seq<string>, cur: string, c: char, s: string)
    requires |args| < 30 && IsBare(c) && c != '"'
    ensures Parse(InWord, args, cur, [c] + s) == Parse(InWord, args, cur + [c], s)
  {
    assert ([c] + s)[1..] == s;
  }

  lemma {:induction false} WordQuote(args: seq<string>, cur: string, s: string)
    requires |args| < 30
    ensures Parse(InWord, args, cur + ['\\'], ['"'] + s) == Parse(InWord, args, cur + ['"'], s)
  {
    assert (['"'] + s)[1..] == s;
    assert Unescape(cur + ['\\']) == cur + ['"'];
  }

  /** In a bare stretch the escaped text of `x` extends the argument by `x`. */
  lemma {:induction false} ReadBare(args: seq<string>, cur: string, x: string, tail: string)
    requires |args| < 30 && forall i :: 0 <= i < |x| ==> IsBare(x[i])
    ensures Parse(InWord, args, cur, Escape(x) + tail) == Parse(InWord, args, cur + x, tail)
    decreases |x|
  {
    if x == [] {
      assert Escape(x) + tail == tail && cur + x == cur;
    } else {
      hide Parse;
      var y := x[1..];
      var s := Escape(y) + tail;
      assert cur + x == (cur + [x[0]]) + y;
      if x[0] == '"' {
        assert Escape(x) + tail == ['\\'] + (['"'] + s);
        WordChar(args, cur, '\\', ['"'] + s);
        WordQuote(args, cur, s);
      } else {
        assert Escape(x) + tail == [x[0]] + s;
        WordChar(args, cur, x[0], s);
      }
      ReadBare(args, cur + [x[0]], y, tail);
    }
  }

  lemma {:induction false} OpenQuote(args: seq<string>, cur: string, s: string)
    requires |args| < 30 && PlainArg(cur)
    ensures Parse(InWord, args, cur, ['"'] + s) == Parse(InQuote, args, cur, s)
  {
    assert (['"'] + s)[1..] == s;
  }

  lemma {:induction false} CloseQuote(args: seq<string>, cur: string, s: string)
    requires |args| < 30 && PlainArg(cur)
    ensures Parse(InQuote, args, cur, ['"'] + s) == Parse(InWord, args, cur, s)
  {
    assert (['"'] + s)[1..] == s;
  }

  /** Between quotes everything but a quote stands for itself. */
  lemma {:induction false} ReadQuoted(args: seq<string>, cur: string, x: string, tail: string)
    requires |args| < 30 && PlainArg(cur) && PlainArg(x)
    ensures Parse(InWord, args, cur, ['"'] + Escape(x) + ['"'] + tail) == Parse(InWord, args, cur + x, tail)
  {
    hide Parse, Escape;
    var s := Escape(x) + (['"'] + tail);
    assert ['"'] + Escape(x) + ['"'] + tail == ['"'] + s;
    OpenQuote(args, cur, s);
    ReadEscaped(args, cur, x, ['"'] + tail);
    assert PlainArg(cur + x);
    CloseQuote(args, cur + x, tail);
  }

  lemma {:induction false} ReadPieces(args: seq<string>, cur: string, pieces: seq<Piece>, tail: string)
    requires |args| < 30 && PiecesOk(pieces) && (pieces != [] && pieces[0].Quoted? ==> PlainArg(cur))
    ensures Parse(InWord, args, cur, WritePieces(pieces) + tail) == Parse(InWord, args, cur + Text(pieces), tail)
    decreases |pieces|
  {
    hide Parse, Escape;
    if pieces == [] {
      assert WritePieces(pieces) + tail == tail && cur + Text(pieces) == cur;
    } else {
      var p, more := pieces[0], pieces[1..];
      var rest := WritePieces(more) + tail;
      assert WritePieces(pieces) + tail == WritePiece(p) + rest;
      match p {
        case Bare(s) => ReadBare(args, cur, s, rest);
        case Quoted(s) => ReadQuoted(args, cur, s, rest);
      }
      assert more != [] ==> more[0] == pieces[1];
      ReadPieces(args, cur + p.text, more, tail);
      assert cur + Text(pieces) == (cur + p.text) + Text(more);
    }
  }

  /** A bare first stretch starts a word. */
  lemma {:induction false} StartBare(args: seq<string>, x: string, tail: string)
    requires |args| < 30 && x != [] && x[0] != '#' && forall i :: 0 <= i < |x| ==> IsBare(x[i])
    ensures Parse(InVoid, args, [], Escape(x) + tail) == Parse(InWord, args, x, tail)
  {
    hide Parse;
    var y := x[1..];
    var s := Escape(y) + tail;
    if x[0] == '"' {
      assert Escape(x) + tail == ['\\'] + (['"'] + s);
      VoidChar(args, '\\', ['"'] + s);
      WordQuote(args, [], s);
      assert [] + ['\\'] == ['\\'] && [] + ['"'] == ['"'];
    } else {
      assert Escape(x) + tail == [x[0]] + s;
      VoidChar(args, x[0], s);
    }
    ReadBare(args, [x[0]], y, tail);
    assert [x[0]] + y == x;
  }

  lemma {:induction false} VoidChar(args: seq<string>, c: char, s: string)
    requires |args| < 30 && IsBare(c) && c != '#' && c != '"'
    ensures Parse(InVoid, args, [], [c] + s) == Parse(InWord, args, [c], s)
  {
    assert ([c] + s)[1..] == s;
  }

  /** One word without the spaces before it. */
  lemma {:induction false} ReadWord(args: seq<string>, w: Word, tail: string)
    requires |args| < 30 && WordOk(w)
    ensures Parse(InVoid, args, [], WritePieces(w.pieces) + tail) == Parse(InWord, args, Text(w.pieces), tail)
  {
    hide Parse, Escape;
    var p, more := w.pieces[0], w.pieces[1..];
    var rest := WritePieces(more) + tail;
    assert WritePieces(w.pieces) + tail == WritePiece(p) + rest;
    match p {
      case Bare(s) => StartBare(args, s, rest);
      case Quoted(s) => ReadArg(args, s, rest);
    }
    assert more != [] ==> more[0] == w.pieces[1];
    ReadPieces(args, p.text, more, tail);
  }

  lemma {:induction false} SkipSpaces(args: seq<string>, n: nat, tail: string)
    requires |args| <= 30
    ensures Parse(InVoid, args, [], Spaces(n) + tail) == Parse(InVoid, args, [], tail)
  {
    if n == 0 {
      assert Spaces(n) + tail == tail;
    } else {
      var s := Spaces(n - 1) + tail;
      assert Spaces(n) + tail == [' '] + s;
      assert ([' '] + s)[1..] == s;
      SkipSpaces(args, n - 1, tail);
    }
  }

  lemma {:induction false} EndWord(args: seq<string>, cur: string, s: string)
    requires |args| < 30
    ensures Parse(InWord, args, cur, [' '] + s) == Parse(InVoid, args + [cur], [], s)
  {
    assert ([' '] + s)[1..] == s;
  }

  /** Words up to the last one, whatever follows it. */
  lemma {:induction false} ReadWords(args: seq<string>, words: seq<Word>, tail: string)
    requires words != [] && |args| + |words| <= 30
    requires forall i :: 0 <= i < |words| ==> WordOk(words[i])
    requires forall i :: 1 <= i < |words| ==> words[i].spaces > 0
    ensures Parse(InVoid, args, [], WriteWords(words) + tail)
         == Parse(InWord, args + Texts(words[..|words| - 1]), Text(words[|words| - 1].pieces), tail)
    decreases |words|
  {
    hide Parse, WordOk, WritePieces, Text, WriteWords, Spaces, Texts;
    var w, more := words[0], words[1..];
    var rest := WriteWords(more) + tail;
    WriteHead(words, tail);
    SkipSpaces(args, w.spaces, WritePieces(w.pieces) + rest);
    ReadWord(args, w, rest);
    if more == [] {
      NoWords(more, tail);
      assert args + Texts(words[..0]) == args;
    } else {
      var closer := more[0 := more[0].(spaces := more[0].spaces - 1)];
      OneSpace(more, closer);
      assert rest == [' '] + (WriteWords(closer) + tail);
      EndWord(args, Text(w.pieces), WriteWords(closer) + tail);
      Closer(words, closer);
      ReadWords(args + [Text(w.pieces)], closer, tail);
      InitTexts(args, words, closer);
    }
  }

  lemma {:induction false} WriteHead(words: seq<Word>, tail: string)
    requires words != []
    ensures WriteWords(words) + tail
         == Spaces(words[0].spaces) + (WritePieces(words[0].pieces) + (WriteWords(words[1..]) + tail))
  {
  }

  lemma {:induction false} Closer(words: seq<Word>, closer: seq<Word>)
    requires |words| > 1 && (forall i :: 0 <= i < |words| ==> WordOk(words[i]))
    requires words[1].spaces > 0 && forall i :: 1 <= i < |words| ==> words[i].spaces > 0
    requires closer == words[1..][0 := words[1].(spaces := words[1].spaces - 1)]
    ensures forall i :: 0 <= i < |closer| ==> WordOk(closer[i])
    ensures forall i :: 1 <= i < |closer| ==> closer[i].spaces > 0
    ensures closer[|closer| - 1].pieces == words[|words| - 1].pieces
  {
    hide WordOk;
    SameWord(words[1], closer[0]);
    assert forall i :: 1 <= i < |closer| ==> closer[i] == words[i + 1];
  }

  lemma {:induction false} InitTexts(args: seq<string>, words: seq<Word>, closer: seq<Word>)
    requires |words| > 1 && words[1].spaces > 0
    requires closer == words[1..][0 := words[1].(spaces := words[1].spaces - 1)]
    ensures (args + [Text(words[0].pieces)]) + Texts(closer[..|closer| - 1]) == args + Texts(words[..|words| - 1])
  {
    hide Text;
    var a, b := Texts(closer[..|closer| - 1]), Texts(words[..|words| - 1]);
    assert |b| == |a| + 1 && b[0] == Text(words[0].pieces);
    assert forall i :: 0 <= i < |a| ==> closer[i].pieces == words[i + 1].pieces && b[i + 1] == a[i];
    assert b == [b[0]] + a;
  }

  lemma {:induction false} SameWord(v: Word, w: Word)
    requires WordOk(v) && w.pieces == v.pieces
    ensures WordOk(w)
  {
  }

  lemma {:induction false} OneSpace(words: seq<Word>, closer: seq<Word>)
    requires words != [] && words[0].spaces > 0
    requires closer == words[0 := words[0].(spaces := words[0].spaces - 1)]
    ensures WriteWords(words) == [' '] + WriteWords(closer)
  {
    hide WritePieces;
    var w, more := words[0], words[1..];
    assert closer[1..] == more;
    var rest := WritePieces(w.pieces) + WriteWords(more);
    assert WriteWords(closer) == Spaces(w.spaces - 1) + rest;
    assert WriteWords(words) == Spaces(w.spaces) + rest;
    assert ([' '] + Spaces(w.spaces - 1)) + rest == [' '] + (Spaces(w.spaces - 1) + rest);
  }

  // ----- Reading commands

  /** A word with spaces behind it, up to the end of its command. */
  lemma {:induction false} EndsAfter(args: seq<string>, cur: string, n: nat, end: char, s: string)
    requires |args| < 30 && (end == '\n' || end == ';')
    ensures Parse(InWord, args, cur, Spaces(n) + [end] + s) == Cmd(args + [cur], s, true)
  {
    hide Parse;
    if n == 0 {
      assert Spaces(n) + [end] + s == [end] + s;
      EndsWord(args, cur, end, s);
    } else {
      var t := Spaces(n - 1) + ([end] + s);
      assert Spaces(n) + [end] + s == [' '] + t;
      EndWord(args, cur, t);
      SkipSpaces(args + [cur], n - 1, [end] + s);
      EndsVoid(args + [cur], end, s);
    }
  }

  lemma {:induction false} EndsWord(args: seq<string>, cur: string, end: char, s: string)
    requires |args| < 30 && (end == '\n' || end == ';')
    ensures Parse(InWord, args, cur, [end] + s) == Cmd(args + [cur], s, true)
  {
    assert ([end] + s)[1..] == s;
  }

  lemma {:induction false} EndsVoid(args: seq<string>, end: char, s: string)
    requires |args| <= 30 && (end == '\n' || end == ';')
    ensures Parse(InVoid, args, [], [end] + s) == Cmd(args, s, true)
  {
    assert ([end] + s)[1..] == s;
  }

  lemma {:induction false} ReadCommandText(c: Command, s: string)
    requires CommandOk(c)
    ensures Parse(InVoid, [], [], WriteCommand(c) + s) == Cmd(Texts(c.words), s, true)
  {
    hide Parse, WriteWords, Text, WordOk;
    var tail := Spaces(c.trailing) + [c.end] + s;
    assert WriteCommand(c) + s == WriteWords(c.words) + tail;
    if c.words == [] {
      NoWords(c.words, tail);
      assert tail == Spaces(c.trailing) + ([c.end] + s);
      SkipSpaces([], c.trailing, [c.end] + s);
      EndsVoid([], c.end, s);
      assert Texts(c.words) == [];
    } else {
      ReadWords([], c.words, tail);
      var init, last := Texts(c.words[..|c.words| - 1]), Text(c.words[|c.words| - 1].pieces);
      assert [] + init == init;
      EndsAfter(init, last, c.trailing, c.end, s);
      assert init + [last] == Texts(c.words);
    }
  }

  lemma {:induction false} NoWords(words: seq<Word>, tail: string)
    requires words == []
    ensures WriteWords(words) + tail == tail
  {
  }

  /** The end of the line: spaces and a comment or nothing. */
  lemma {:induction false} ReadEnd(args: seq<string>, n: nat, comment: string)
    requires |args| <= 30 && (comment != [] ==> comment[0] == '#')
    ensures Parse(InVoid, args, [], Spaces(n) + comment).argv == args
    ensures !Parse(InVoid, args, [], Spaces(n) + comment).next
  {
    SkipSpaces(args, n, comment);
  }

  lemma {:induction false} ReadEndAfter(args: seq<string>, cur: string, n: nat, comment: string)
    requires |args| < 30 && (comment != [] ==> comment[0] == '#' && n > 0)
    ensures Parse(InWord, args, cur, Spaces(n) + comment).argv == args + [cur]
    ensures !Parse(InWord, args, cur, Spaces(n) + comment).next
  {
    hide Parse;
    if n == 0 {
      assert Spaces(n) + comment == [];
      NothingMore(args, cur);
    } else {
      assert Spaces(n) + comment == [' '] + (Spaces(n - 1) + comment);
      EndWord(args, cur, Spaces(n - 1) + comment);
      ReadEnd(args + [cur], n - 1, comment);
    }
  }

  lemma {:induction false} NothingMore(args: seq<string>, cur: string)
    ensures Parse(InWord, args, cur, []).argv == args + [cur] && !Parse(InWord, args, cur, []).next
  {
    assert cur + [] == cur;
  }

  /** The last command of a line, with the comment behind it. */
  lemma {:induction false} ReadLast(words: seq<Word>, n: nat, comment: string)
    requires WordsOk(words) && (comment != [] ==> comment[0] == '#' && (words == [] || n > 0))
    ensures var c := Parse(InVoid, [], [], WriteWords(words) + Spaces(n) + comment);
            c.argv == Texts(words) && !c.next
  {
    hide Parse, WriteWords, Text, WordOk;
    var tail := Spaces(n) + comment;
    assert WriteWords(words) + Spaces(n) + comment == WriteWords(words) + tail;
    if words == [] {
      NoWords(words, tail);
      ReadEnd([], n, comment);
      assert Texts(words) == [];
    } else {
      ReadWords([], words, tail);
      var init, last := Texts(words[..|words| - 1]), Text(words[|words| - 1].pieces);
      assert [] + init == init;
      ReadEndAfter(init, last, n, comment);
      assert init + [last] == Texts(words);
    }
  }

  lemma {:induction false} ExecuteFirst(line: string)
    ensures var c := Parse(InVoid, [], [], line);
            Execute(line) == (if c.argv == [] then [] else [c.argv]) + (if c.next then Execute(c.rest) else [])
  {
  }

  /** Any line of this syntax executes exactly its commands, in order: newlines and
      semicolons end commands, spaces separate words, quotes and backslashes are taken
      away, empty commands and comments do nothing. */
  lemma {:induction false} LineExecutes(l: Line)
    requires LineOk(l)
    ensures Execute(WriteLine(l)) == AllExecuted(l.commands) + Executed(l.words)
    decreases |l.commands|
  {
    hide Parse, Execute, WriteWords, WriteCommand, Texts, CommandOk, WordsOk;
    var text, end := WriteLine(l), WriteWords(l.words) + Spaces(l.trailing) + l.comment;
    ExecuteFirst(text);
    if l.commands == [] {
      assert text == end;
      ReadLast(l.words, l.trailing, l.comment);
      EmptyTexts(l.words);
    } else {
      var c, more := l.commands[0], l.(commands := l.commands[1..]);
      assert text == WriteCommand(c) + WriteLine(more);
      ReadCommandText(c, WriteLine(more));
      EmptyTexts(c.words);
      LineExecutes(more);
      var later := AllExecuted(more.commands);
      assert Executed(c.words) + (later + Executed(l.words)) == (Executed(c.words) + later) + Executed(l.words);
    }
  }

  lemma {:induction false} EmptyTexts(words: seq<Word>)
    ensures Texts(words) == [] <==> words == []
    ensures Executed(words) == if Texts(words) == [] then [] else [Texts(words)]
  {
  }

  /** The thirty-first word, if bare, takes the rest of the line with it. */
  lemma {:induction false} LastWordTakesRest(args: seq<string>, c: char, s: string)
    requires |args| == 30 && IsBare(c) && c != '#' && c != '"'
    ensures Parse(InVoid, args, [], [c] + s).argv == args + [[c] + s]
    ensures !Parse(InVoid, args, [], [c] + s).next
  {
    assert ([c] + s)[1..] == s;
  }
}
