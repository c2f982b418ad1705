/** The shell's command language (sh.c): tokens, grammar and printed form. */
module Shell {

  // ----- Commands -----

  /** A redirection: the file, and whether it is for output. `>` and `>>` mean the same (sh.c:389-394). */
  datatype Redirect<W> = Redirection(file: W, output: bool)

  /** A command over words of some kind: strings, or places in the line that is being read. */
  datatype Tree<W> =
    | Exec(argv: seq<W>)
    | Redir(cmd: Tree<W>, redir: Redirect<W>)
    | Pipe(left: Tree<W>, right: Tree<W>)
    | List(left: Tree<W>, right: Tree<W>)
    | Back(cmd: Tree<W>)

  type Redirection = Redirect<string>
  type Cmd = Tree<string>

  /** More arguments than this the shell does not take (sh.c:14). */
  const MAXARGS: nat := 20

  // ----- Tokens -----

  const NUL: char := '\0'

  predicate IsSpace(c: char) {
    c == ' ' || c == '\t' || c == '\r' || c == '\n' || c == (11 as char)
  }

  predicate IsSymbol(c: char) {
    c == '<' || c == '|' || c == '>' || c == '&' || c == ';' || c == '(' || c == ')'
  }

  predicate IsWordChar(c: char) {
    !IsSpace(c) && !IsSymbol(c) && c != NUL
  }

  /** What is left of `r` after its leading white space. */
  function Skip(r: string): (t: string)
    ensures |t| <= |r| && (t == "" || !IsSpace(t[0]))
  {
    if r != "" && IsSpace(r[0]) then Skip(r[1..]) else r
  }

  /** The length of the word that `r` starts with. */
  function WordLength(r: string): (n: nat)
    ensures n <= |r| && (forall k :: 0 <= k < n ==> IsWordChar(r[k]))
    ensures n < |r| ==> !IsWordChar(r[n])
  {
    if r != "" && IsWordChar(r[0]) then 1 + WordLength(r[1..]) else 0
  }

  /** A token: its kind (`a` for a word, `+` for `>>`, NUL for the end), its text and what follows. */
  datatype Token = Token(kind: char, text: string, rest: string)

  /** sh.c:267-309 */
  function NextToken(r: string): (t: Token)
    ensures |t.rest| <= |r| && (t.kind != NUL ==> |t.rest| < |r|)
  {
    var t := Skip(r);
    if t == "" || t[0] == NUL then Token(NUL, "", t)
    else if t[0] == '>' then
      if |t| > 1 && t[1] == '>' then Token('+', t[..2], Skip(t[2..])) else Token('>', t[..1], Skip(t[1..]))
    else if IsSymbol(t[0]) then Token(t[0], t[..1], Skip(t[1..]))
    else var n := WordLength(t); Token('a', t[..n], Skip(t[n..]))
  }

  /** The character that the next token starts with, NUL at the end (sh.c:312-321). */
  function Next(r: string): (c: char)
    ensures !IsSpace(c)
  {
    var t := Skip(r);
    if t == "" then NUL else t[0]
  }

  // ----- Grammar -----

  datatype Redirs = Redirs(list: seq<Redirection>, rest: string) | NoFile

  /** sh.c:376-398 */
  function ParseRedirs(r: string): (p: Redirs)
    ensures p.Redirs? ==> |p.rest| <= |r|
    decreases |r|
  {
    if Next(r) == '<' || Next(r) == '>' then
      var op := NextToken(r);
      var file := NextToken(op.rest);
      if file.kind != 'a' then NoFile
      else
        match ParseRedirs(file.rest)
        case Redirs(list, rest) => Redirs([Redirection(file.text, op.kind != '<')] + list, rest)
        case NoFile => NoFile
    else Redirs([], Skip(r))
  }

  /** A command inside redirections, the first of them innermost. */
  function Wrap<W>(c: Tree<W>, list: seq<Redirect<W>>): (d: Tree<W>)
    decreases |list|
  {
    if list == [] then c else Wrap(Redir(c, list[0]), list[1..])
  }

  datatype Parsed = Parsed(cmd: Cmd, rest: string) | Panic

  /** The words and redirections of a simple command, behind what has been read of it (sh.c:432-443). */
  function ParseWords(r: string, argv: seq<string>, redirs: seq<Redirection>): (p: Parsed)
    ensures p.Parsed? ==> |p.rest| <= |r|
    decreases |r|
  {
    if Next(r) in {'|', ')', '&', ';'} then Parsed(Wrap(Exec(argv), redirs), Skip(r))
    else
      var t := NextToken(r);
      if t.kind == NUL then Parsed(Wrap(Exec(argv), redirs), t.rest)
      else if t.kind != 'a' then Panic
      else if |argv| + 1 >= MAXARGS then Panic
      else
        match ParseRedirs(t.rest)
        case Redirs(list, rest) => ParseWords(rest, argv + [t.text], redirs + list)
        case NoFile => Panic
  }

  /** sh.c:401-414 */
  function ParseBlock(r: string): (p: Parsed)
    requires Next(r) == '('
    ensures p.Parsed? ==> |p.rest| <= |r|
    decreases |r|, 0
  {
    match ParseLine(NextToken(r).rest)
    case Panic => Panic
    case Parsed(cmd, rest) =>
      if Next(rest) != ')' then Panic
      else
        match ParseRedirs(NextToken(rest).rest)
        case NoFile => Panic
        case Redirs(list, end) => Parsed(Wrap(cmd, list), end)
  }

  /** sh.c:417-447 */
  function ParseExec(r: string): (p: Parsed)
    ensures p.Parsed? ==> |p.rest| <= |r|
    decreases |r|, 1
  {
    if Next(r) == '(' then ParseBlock(r)
    else
      match ParseRedirs(r)
      case NoFile => Panic
      case Redirs(list, rest) => ParseWords(rest, [], list)
  }

  /** sh.c:363-373 */
  function ParsePipe(r: string): (p: Parsed)
    ensures p.Parsed? ==> |p.rest| <= |r|
    decreases |r|, 2
  {
    match ParseExec(r)
    case Panic => Panic
    case Parsed(cmd, rest) =>
      if Next(rest) == '|' then
        match ParsePipe(NextToken(rest).rest)
        case Panic => Panic
        case Parsed(right, end) => Parsed(Pipe(cmd, right), end)
      else Parsed(cmd, Skip(rest))
  }

  /** A command with the `&` behind it (sh.c:351-354). */
  function ParseBacks(r: string, cmd: Cmd): (p: Parsed)
    ensures p.Parsed? && |p.rest| <= |r|
    decreases |r|
  {
    if Next(r) == '&' then ParseBacks(NextToken(r).rest, Back(cmd)) else Parsed(cmd, Skip(r))
  }

  /** A pipeline with the `&` behind it. */
  function ParseBacked(r: string): (p: Parsed)
    ensures p.Parsed? ==> |p.rest| <= |r|
    decreases |r|, 3
  {
    match ParsePipe(r)
    case Panic => Panic
    case Parsed(cmd, rest) => ParseBacks(rest, cmd)
  }

  /** sh.c:346-360 */
  function ParseLine(r: string): (p: Parsed)
    ensures p.Parsed? ==> |p.rest| <= |r|
    decreases |r|, 4
  {
    match ParseBacked(r)
    case Panic => Panic
    case Parsed(cmd, rest) =>
      if Next(rest) == ';' then
        match ParseLine(NextToken(rest).rest)
        case Panic => Panic
        case Parsed(right, end) => Parsed(List(cmd, right), end)
      else Parsed(cmd, Skip(rest))
  }

  /** The whole line; what is left over is a syntax error (sh.c:329-343). */
  function ParseCmd(s: string): (p: Parsed) {
    match ParseLine(s)
    case Panic => Panic
    case Parsed(cmd, rest) => if Skip(rest) != "" then Panic else Parsed(cmd, "")
  }

  // ----- Printed form -----

  predicate LegalWord(w: string) {
    w != "" && forall k :: 0 <= k < |w| ==> IsWordChar(w[k])
  }

  predicate Legal(t: Cmd) {
    match t
    case Exec(argv) => |argv| < MAXARGS && forall w :: w in argv ==> LegalWord(w)
    case Redir(c, r) => Legal(c) && LegalWord(r.file)
    case Pipe(l, r) => Legal(l) && Legal(r)
    case List(l, r) => Legal(l) && Legal(r)
    case Back(c) => Legal(c)
  }

  function Words(argv: seq<string>): (s: string) {
    if argv == [] then "" else argv[0] + " " + Words(argv[1..])
  }

  function RedirText(r: Redirection): (s: string) {
    (if r.output then "> " else "< ") + (r.file + " ")
  }

  function RedirsText(list: seq<Redirection>): (s: string) {
    if list == [] then "" else RedirText(list[0]) + RedirsText(list[1..])
  }

  /** The rule of the grammar that a command is read by: 0 is a simple command or a block, 3 a line. */
  function Kind(t: Cmd): (k: nat)
    ensures k <= 3
  {
    match t
    case Exec(_) => 0
    case Redir(_, _) => 0
    case Pipe(_, _) => 1
    case Back(_) => 2
    case List(_, _) => 3
  }

  /** A command where a rule of level `level` is to read it: in parentheses if its own level is higher. */
  function Print(t: Cmd, level: nat): (s: string)
    decreases t, 1
  {
    if Kind(t) > level then "( " + (Body(t) + ") ") else Body(t)
  }

  function Body(t: Cmd): (s: string)
    decreases t, 0
  {
    match t
    case Exec(argv) => Words(argv)
    case Redir(c, r) => Print(c, 0) + RedirText(r)
    case Pipe(l, r) => Print(l, 0) + ("| " + Print(r, 1))
    case Back(c) => Print(c, 2) + "& "
    case List(l, r) => Print(l, 2) + ("; " + Print(r, 3))
  }

  // ----- Tokens of a printed form -----

  predicate Tight(r: string) {
    r == "" || !IsSpace(r[0])
  }

  lemma {:induction false} Tighten(r: string)
    requires Tight(r)
    ensures Skip(" " + r) == r && Skip(r) == r
  {
    var s := " " + r;
    assert s[0] == ' ' && s[1..] == r;
  }

  lemma Skipped(r: string)
    ensures Skip(Skip(r)) == Skip(r) && NextToken(Skip(r)) == NextToken(r) && Next(Skip(r)) == Next(r)
  {
    Tighten(Skip(r));
  }

  lemma {:induction false} RedirsSkipped(r: string)
    ensures ParseRedirs(Skip(r)) == ParseRedirs(r)
  {
    Skipped(r);
    hide Skip, NextToken, Next;
  }

  lemma {:induction false} WordEnds(w: string, r: string)
    requires forall k :: 0 <= k < |w| ==> IsWordChar(w[k])
    requires r == "" || !IsWordChar(r[0])
    ensures WordLength(w + r) == |w|
  {
    if w == "" {
      assert w + r == r;
    } else {
      assert (w + r)[1..] == w[1..] + r;
      WordEnds(w[1..], r);
    }
  }

  lemma WordToken(w: string, r: string)
    requires LegalWord(w) && Tight(r)
    ensures NextToken(w + " " + r) == Token('a', w, r)
    ensures Tight(w + " " + r) && Next(w + " " + r) == w[0]
  {
    var s := w + " " + r;
    assert s == w + (" " + r);
    assert IsWordChar(s[0]) && Skip(s) == s;
    WordEnds(w, " " + r);
    assert s[..|w|] == w && s[|w|..] == " " + r;
    Tighten(r);
  }

  lemma SymbolToken(c: char, r: string)
    requires IsSymbol(c) && Tight(r)
    ensures NextToken([c] + " " + r) == Token(c, [c], r)
    ensures Tight([c] + " " + r) && Next([c] + " " + r) == c
  {
    var s := [c] + " " + r;
    assert Skip(s) == s;
    assert s[..1] == [c] && s[1..] == " " + r;
    Tighten(r);
  }

  /** `rest` is where a rule of level `level` stops reading. */
  predicate Stops(level: nat, rest: string) {
    rest == "" ||
    (match rest[0]
     case ')' => true
     case ';' => level <= 2
     case '&' => level <= 1
     case '|' => level == 0
     case _ => false)
  }

  lemma StopsThere(level: nat, rest: string)
    requires Stops(level, rest)
    ensures Tight(rest) && Skip(rest) == rest && Next(rest) == if rest == "" then NUL else rest[0]
    ensures ParseRedirs(rest) == Redirs([], rest)
  {
    Tighten(rest);
  }

  lemma {:induction false} RedirsTight(list: seq<Redirection>, rest: string)
    requires Tight(rest)
    ensures Tight(RedirsText(list) + rest)
  {
  }

  lemma Joined(a: string, b: string, c: string)
    ensures (a + b) + c == a + (b + c)
  {
  }

  lemma RedirShape(r: Redirection, tail: string)
    ensures RedirText(r) + tail == [if r.output then '>' else '<'] + " " + (r.file + " " + tail)
  {
  }

  lemma OneRedir(r: Redirection, tail: string, list: seq<Redirection>, rest: string)
    requires LegalWord(r.file) && Tight(tail) && ParseRedirs(tail) == Redirs(list, rest)
    ensures ParseRedirs(RedirText(r) + tail) == Redirs([r] + list, rest)
  {
    var c := if r.output then '>' else '<';
    var after := r.file + " " + tail;
    hide Skip, NextToken, Next, WordLength, LegalWord, RedirText;
    RedirShape(r, tail);
    WordToken(r.file, tail);
    SymbolToken(c, after);
  }

  /** Redirections are read as they are printed. */
  lemma {:induction false} RedirsParse(list: seq<Redirection>, rest: string)
    requires forall r :: r in list ==> LegalWord(r.file)
    requires Stops(0, rest)
    ensures ParseRedirs(RedirsText(list) + rest) == Redirs(list, rest)
  {
    hide ParseRedirs, LegalWord, RedirText;
    StopsThere(0, rest);
    if list == [] {
      assert RedirsText(list) + rest == rest;
    } else {
      RedirsTight(list[1..], rest);
      RedirsParse(list[1..], rest);
      OneRedir(list[0], RedirsText(list[1..]) + rest, list[1..], rest);
      Joined(RedirText(list[0]), RedirsText(list[1..]), rest);
      assert [list[0]] + list[1..] == list;
    }
  }

  lemma {:induction false} WordsTight(argv: seq<string>, rest: string)
    requires forall w :: w in argv ==> LegalWord(w)
    requires Tight(rest)
    ensures Tight(Words(argv) + rest)
    ensures argv != [] ==> Words(argv) + rest == argv[0] + " " + (Words(argv[1..]) + rest)
  {
    if argv != [] {
      assert LegalWord(argv[0]);
    } else {
      assert Words(argv) + rest == rest;
    }
  }

  lemma WordsEnd(rest: string, argv: seq<string>, list: seq<Redirection>)
    requires Stops(0, rest)
    ensures ParseWords(rest, argv, list) == Parsed(Wrap(Exec(argv), list), rest)
  {
    StopsThere(0, rest);
  }

  lemma NoRedirs(r: string)
    requires Tight(r) && Next(r) != '<' && Next(r) != '>'
    ensures ParseRedirs(r) == Redirs([], r)
  {
    Tighten(r);
  }

  /** One more word, with redirections behind it or none. */
  lemma OneWord(w: string, tail: string, argv: seq<string>, list: seq<Redirection>, more: seq<Redirection>, rest: string)
    requires LegalWord(w) && Tight(tail) && |argv| + 1 < MAXARGS && ParseRedirs(tail) == Redirs(more, rest)
    ensures ParseWords(w + " " + tail, argv, list) == ParseWords(rest, argv + [w], list + more)
  {
    assert IsWordChar(w[0]);
    WordToken(w, tail);
    hide Skip, NextToken, Next, WordLength, LegalWord, Wrap, ParseRedirs;
  }

  lemma WordNext(argv: seq<string>, end: string)
    requires argv != [] && (forall w :: w in argv ==> LegalWord(w)) && Tight(end)
    ensures ParseRedirs(Words(argv) + end) == Redirs([], Words(argv) + end)
  {
    hide Skip, NextToken, Next, WordLength, ParseRedirs, Words;
    WordsTight(argv, end);
    WordsTight(argv[1..], end);
    WordToken(argv[0], Words(argv[1..]) + end);
    assert LegalWord(argv[0]) && IsWordChar(argv[0][0]);
    NoRedirs(Words(argv) + end);
  }

  lemma LastWord(w: string, argv: seq<string>, list: seq<Redirection>, rest: string)
    requires LegalWord(w) && |argv| + 1 < MAXARGS && Stops(0, rest)
    requires forall r :: r in list ==> LegalWord(r.file)
    ensures ParseWords(w + " " + (RedirsText(list) + rest), argv, []) == Parsed(Wrap(Exec(argv + [w]), list), rest)
  {
    hide Next, LegalWord, RedirsText, ParseWords, ParseRedirs, Wrap;
    StopsThere(0, rest);
    RedirsTight(list, rest);
    RedirsParse(list, rest);
    OneWord(w, RedirsText(list) + rest, argv, [], list, rest);
    WordsEnd(rest, argv + [w], list);
    assert [] + list == list;
  }

  /** The words of a simple command and the redirections behind them are read as they are printed. */
  lemma {:induction false} WordsParse(left: seq<string>, argv: seq<string>, list: seq<Redirection>, rest: string)
    requires left != [] && |argv| + |left| < MAXARGS && Stops(0, rest)
    requires forall w :: w in left ==> LegalWord(w)
    requires forall r :: r in list ==> LegalWord(r.file)
    ensures ParseWords(Words(left) + (RedirsText(list) + rest), argv, []) == Parsed(Wrap(Exec(argv + left), list), rest)
    decreases |left|
  {
    hide Next, LegalWord, RedirsText, ParseWords, ParseRedirs, Wrap, Stops;
    var w, end := left[0], RedirsText(list) + rest;
    StopsThere(0, rest);
    RedirsTight(list, rest);
    WordsTight(left, end);
    if |left| == 1 {
      assert left == [w];
      assert Words(left[1..]) + end == end;
      LastWord(w, argv, list, rest);
    } else {
      var tail := Words(left[1..]) + end;
      WordNext(left[1..], end);
      WordsTight(left[1..], end);
      OneWord(w, tail, argv, [], [], tail);
      WordsParse(left[1..], argv + [w], list, rest);
      assert (argv + [w]) + left[1..] == argv + left;
      assert [] + [] == list[..0];
    }
  }

  // ----- Commands of a printed form -----

  lemma {:induction false} PrintTight(t: Cmd, level: nat, rest: string)
    requires Legal(t) && Tight(rest)
    ensures Tight(Print(t, level) + rest)
    decreases t, 1
  {
    if Kind(t) <= level {
      BodyTight(t, rest);
    }
  }

  lemma {:induction false} BodyTight(t: Cmd, rest: string)
    requires Legal(t) && Tight(rest)
    ensures Tight(Body(t) + rest)
    decreases t, 0
  {
    match t
    case Exec(argv) => WordsTight(argv, rest);
    case Redir(c, r) =>
      Joined(Print(c, 0), RedirText(r), rest);
      PrintTight(c, 0, RedirText(r) + rest);
    case Pipe(l, r) =>
      Joined(Print(l, 0), "| " + Print(r, 1), rest);
      PrintTight(l, 0, "| " + Print(r, 1) + rest);
    case Back(c) =>
      Joined(Print(c, 2), "& ", rest);
      PrintTight(c, 2, "& " + rest);
    case List(l, r) =>
      Joined(Print(l, 2), "; " + Print(r, 3), rest);
      PrintTight(l, 2, "; " + Print(r, 3) + rest);
  }

  /** A simple command. */
  lemma SimpleParses(argv: seq<string>, list: seq<Redirection>, rest: string)
    requires Legal(Exec(argv)) && (forall r :: r in list ==> LegalWord(r.file)) && Stops(0, rest)
    ensures ParseExec(Words(argv) + (RedirsText(list) + rest)) == Parsed(Wrap(Exec(argv), list), rest)
  {
    var end := RedirsText(list) + rest;
    StopsThere(0, rest);
    RedirsTight(list, rest);
    if argv == [] {
      assert Words(argv) + end == end;
      RedirsParse(list, rest);
      WordsEnd(rest, [], list);
      RedirsNext(list, rest);
    } else {
      WordNext(argv, end);
      WordsParse(argv, [], list, rest);
      assert [] + argv == argv;
      WordsTight(argv, end);
      WordsTight(argv[1..], end);
      WordToken(argv[0], Words(argv[1..]) + end);
      assert LegalWord(argv[0]) && IsWordChar(argv[0][0]);
    }
  }

  lemma RedirsNext(list: seq<Redirection>, rest: string)
    requires Stops(0, rest)
    ensures Next(RedirsText(list) + rest) != '('
  {
    var s := RedirsText(list) + rest;
    StopsThere(0, rest);
    RedirsTight(list, rest);
    Tighten(s);
    if list == [] {
      assert s == rest;
    } else {
      RedirShape(list[0], RedirsText(list[1..]) + rest);
      Joined(RedirText(list[0]), RedirsText(list[1..]), rest);
    }
  }

  /** A line in parentheses. */
  lemma BlockParses(line: string, t: Cmd, list: seq<Redirection>, rest: string)
    requires Tight(line) && (forall r :: r in list ==> LegalWord(r.file)) && Stops(0, rest)
    requires ParseLine(line) == Parsed(t, ") " + (RedirsText(list) + rest))
    ensures ParseExec("( " + line) == Parsed(Wrap(t, list), rest)
  {
    var end := RedirsText(list) + rest;
    StopsThere(0, rest);
    RedirsTight(list, rest);
    RedirsParse(list, rest);
    SymbolToken('(', line);
    SymbolToken(')', end);
    assert "(" + " " + line == "( " + line;
    assert ")" + " " + end == ") " + end;
    hide Skip, Stops, NextToken, Next, ParseRedirs, ParseLine, RedirsText, Wrap;
  }

  lemma PipeEnds(r: string, t: Cmd, rest: string)
    requires ParseExec(r) == Parsed(t, rest) && Stops(1, rest)
    ensures ParsePipe(r) == Parsed(t, rest)
  {
    hide Skip, NextToken, Next, ParseExec;
    StopsThere(1, rest);
  }

  lemma PipeGoesOn(r: string, left: Cmd, tail: string, right: Cmd, rest: string)
    requires ParseExec(r) == Parsed(left, "| " + tail) && Tight(tail) && ParsePipe(tail) == Parsed(right, rest)
    ensures ParsePipe(r) == Parsed(Pipe(left, right), rest)
  {
    hide Skip, NextToken, Next, ParseExec;
    SymbolToken('|', tail);
    assert "|" + " " + tail == "| " + tail;
  }

  lemma BacksEnd(rest: string, t: Cmd)
    requires Stops(2, rest)
    ensures ParseBacks(rest, t) == Parsed(t, rest)
  {
    hide Skip, NextToken, Next;
    StopsThere(2, rest);
  }

  lemma BacksGoOn(rest: string, t: Cmd)
    requires Tight(rest)
    ensures ParseBacks("& " + rest, t) == ParseBacks(rest, Back(t))
  {
    hide Skip, NextToken, Next;
    SymbolToken('&', rest);
    assert "&" + " " + rest == "& " + rest;
  }

  lemma LineEnds(r: string, t: Cmd, rest: string)
    requires ParseBacked(r) == Parsed(t, rest) && Stops(3, rest)
    ensures ParseLine(r) == Parsed(t, rest)
  {
    hide Skip, NextToken, Next, ParseBacked;
    StopsThere(3, rest);
  }

  lemma LineGoesOn(r: string, left: Cmd, tail: string, right: Cmd, rest: string)
    requires ParseBacked(r) == Parsed(left, "; " + tail) && Tight(tail) && ParseLine(tail) == Parsed(right, rest)
    ensures ParseLine(r) == Parsed(List(left, right), rest)
  {
    hide Skip, NextToken, Next, ParseBacked;
    SymbolToken(';', tail);
    assert ";" + " " + tail == "; " + tail;
  }

  /** The order in which the rules call each other on the same command. */
  function Rank(t: Cmd, level: nat): (k: nat)
    requires level <= 3
  {
    (level + 4 - Kind(t)) % 4
  }

  /** A command as a simple command or a block, with redirections behind it. */
  lemma {:induction false} AtomParses(t: Cmd, list: seq<Redirection>, rest: string)
    requires Legal(t) && (forall r :: r in list ==> LegalWord(r.file)) && Stops(0, rest)
    ensures ParseExec(Print(t, 0) + (RedirsText(list) + rest)) == Parsed(Wrap(t, list), rest)
    decreases t, Rank(t, 0), 0
  {
    hide ParseExec, ParseLine, LegalWord, RedirText;
    var end := RedirsText(list) + rest;
    match t
    case Exec(argv) => SimpleParses(argv, list, rest);
    case Redir(c, r) =>
      AtomParses(c, [r] + list, rest);
      assert ([r] + list)[1..] == list;
      Joined(RedirText(r), RedirsText(list), rest);
      Joined(Print(c, 0), RedirText(r), end);
    case _ =>
      var tail := ") " + end;
      StopsThere(0, rest);
      LineParses(t, tail);
      BodyTight(t, tail);
      BlockParses(Body(t) + tail, t, list, rest);
      assert Print(t, 0) + end == "( " + (Body(t) + tail);
  }

  lemma {:induction false} AtomAlone(t: Cmd, rest: string)
    requires Legal(t) && Stops(0, rest)
    ensures ParseExec(Print(t, 0) + rest) == Parsed(t, rest)
    decreases t, Rank(t, 0), 1
  {
    hide ParseExec, Print;
    AtomParses(t, [], rest);
    assert RedirsText([]) + rest == rest;
  }

  lemma {:induction false} PipeShape(t: Cmd, rest: string)
    ensures t.Pipe? ==> Print(t, 1) + rest == Print(t.left, 0) + ("| " + (Print(t.right, 1) + rest))
    ensures !t.Pipe? ==> Print(t, 1) == Print(t, 0)
  {
    if t.Pipe? {
      Joined(Print(t.left, 0), "| " + Print(t.right, 1), rest);
      Joined("| ", Print(t.right, 1), rest);
    }
  }

  lemma {:induction false} PipeParses(t: Cmd, rest: string)
    requires Legal(t) && Stops(1, rest)
    ensures ParsePipe(Print(t, 1) + rest) == Parsed(t, rest)
    decreases t, Rank(t, 1)
  {
    hide ParseExec, ParsePipe, Print, ParseRedirs, Skip;
    StopsThere(1, rest);
    PipeShape(t, rest);
    if t.Pipe? {
      var tail := Print(t.right, 1) + rest;
      AtomAlone(t.left, "| " + tail);
      PipeParses(t.right, rest);
      PrintTight(t.right, 1, rest);
      PipeGoesOn(Print(t.left, 0) + ("| " + tail), t.left, tail, t.right, rest);
    } else {
      AtomAlone(t, rest);
      PipeEnds(Print(t, 0) + rest, t, rest);
    }
  }

  lemma {:induction false} BackedParses(t: Cmd, rest: string)
    requires Legal(t) && Stops(1, rest)
    ensures ParseBacked(Print(t, 2) + rest) == ParseBacks(rest, t)
    decreases t, Rank(t, 2)
  {
    hide ParsePipe, ParseBacks;
    StopsThere(1, rest);
    if t.Back? {
      BackedParses(t.cmd, "& " + rest);
      BacksGoOn(rest, t.cmd);
      Joined(Print(t.cmd, 2), "& ", rest);
    } else {
      PipeParses(t, rest);
      assert Print(t, 2) == Print(t, 1);
    }
  }

  lemma {:induction false} LineParses(t: Cmd, rest: string)
    requires Legal(t) && Stops(3, rest)
    ensures ParseLine(Body(t) + rest) == Parsed(t, rest)
    decreases t, Rank(t, 3)
  {
    hide ParseBacked, ParseBacks, ParseLine;
    StopsThere(3, rest);
    if t.List? {
      var tail := Body(t.right) + rest;
      BackedParses(t.left, "; " + tail);
      BacksEnd("; " + tail, t.left);
      LineParses(t.right, rest);
      BodyTight(t.right, rest);
      LineGoesOn(Print(t.left, 2) + ("; " + tail), t.left, tail, t.right, rest);
      assert Body(t) + rest == Print(t.left, 2) + ("; " + tail);
    } else {
      BackedParses(t, rest);
      BacksEnd(rest, t);
      LineEnds(Body(t) + rest, t, rest);
    }
  }

  /** Printing a command and reading the line back gives the command. */
  lemma RoundTrip(t: Cmd)
    requires Legal(t)
    ensures ParseCmd(Body(t)) == Parsed(t, "")
  {
    LineParses(t, "");
    assert Body(t) + "" == Body(t);
  }

  // ----- What the parser can return -----

  predicate LegalFiles(list: seq<Redirection>) {
    forall r :: r in list ==> LegalWord(r.file)
  }

  lemma WordIsLegal(r: string)
    requires NextToken(r).kind == 'a'
    ensures LegalWord(NextToken(r).text)
  {
    var t := Skip(r);
    assert t != "" && IsWordChar(t[0]);
    assert WordLength(t) > 0;
  }

  lemma {:induction false} RedirsLegal(r: string)
    requires ParseRedirs(r).Redirs?
    ensures LegalFiles(ParseRedirs(r).list)
    decreases |r|
  {
    hide Skip, NextToken;
    if Next(r) == '<' || Next(r) == '>' {
      var file := NextToken(NextToken(r).rest);
      WordIsLegal(NextToken(r).rest);
      RedirsLegal(file.rest);
    }
  }

  lemma {:induction false} WrapLegal(c: Cmd, list: seq<Redirection>)
    requires Legal(c) && LegalFiles(list)
    ensures Legal(Wrap(c, list))
    decreases |list|
  {
    if list != [] {
      WrapLegal(Redir(c, list[0]), list[1..]);
    }
  }

  lemma {:induction false} WordsLegal(r: string, argv: seq<string>, redirs: seq<Redirection>)
    requires Legal(Exec(argv)) && LegalFiles(redirs) && ParseWords(r, argv, redirs).Parsed?
    ensures Legal(ParseWords(r, argv, redirs).cmd)
    decreases |r|
  {
    hide Skip, NextToken, ParseRedirs, Wrap, LegalWord;
    WrapLegal(Exec(argv), redirs);
    var t := NextToken(r);
    if Next(r) !in {'|', ')', '&', ';'} && t.kind != NUL {
      WordIsLegal(r);
      RedirsLegal(t.rest);
      var p := ParseRedirs(t.rest);
      WordsLegal(p.rest, argv + [t.text], redirs + p.list);
    }
  }

  lemma {:induction false} ExecLegal(r: string)
    requires ParseExec(r).Parsed?
    ensures Legal(ParseExec(r).cmd)
    decreases |r|, 1
  {
    hide Skip, ParseRedirs, Wrap, ParseWords, ParseLine, LegalFiles;
    if Next(r) == '(' {
      LineLegal(NextToken(r).rest);
      var p := ParseLine(NextToken(r).rest);
      RedirsLegal(NextToken(p.rest).rest);
      WrapLegal(p.cmd, ParseRedirs(NextToken(p.rest).rest).list);
    } else {
      RedirsLegal(r);
      WordsLegal(ParseRedirs(r).rest, [], ParseRedirs(r).list);
    }
  }

  lemma {:induction false} PipeLegal(r: string)
    requires ParsePipe(r).Parsed?
    ensures Legal(ParsePipe(r).cmd)
    decreases |r|, 2
  {
    hide Skip, ParseExec;
    ExecLegal(r);
    var rest := ParseExec(r).rest;
    if Next(rest) == '|' {
      PipeLegal(NextToken(rest).rest);
    }
  }

  lemma {:induction false} BacksLegal(r: string, cmd: Cmd)
    requires Legal(cmd)
    ensures Legal(ParseBacks(r, cmd).cmd)
    decreases |r|
  {
    hide Skip;
    if Next(r) == '&' {
      BacksLegal(NextToken(r).rest, Back(cmd));
    }
  }

  lemma {:induction false} LineLegal(r: string)
    requires ParseLine(r).Parsed?
    ensures Legal(ParseLine(r).cmd)
    decreases |r|, 3
  {
    hide Skip, ParsePipe, ParseBacks;
    PipeLegal(r);
    BacksLegal(ParsePipe(r).rest, ParsePipe(r).cmd);
    var rest := ParseBacked(r).rest;
    if Next(rest) == ';' {
      LineLegal(NextToken(rest).rest);
    }
  }

  lemma {:induction false} WordsNoNul(argv: seq<string>)
    requires forall w :: w in argv ==> LegalWord(w)
    ensures NUL !in Words(argv)
  {
    if argv != [] {
      assert LegalWord(argv[0]);
      WordsNoNul(argv[1..]);
    }
  }

  lemma {:induction false} BodyNoNul(t: Cmd)
    requires Legal(t)
    ensures NUL !in Body(t)
  {
    match t
    case Exec(argv) => WordsNoNul(argv);
    case Redir(c, r) => BodyNoNul(c);
    case Pipe(l, r) => BodyNoNul(l); BodyNoNul(r);
    case Back(c) => BodyNoNul(c);
    case List(l, r) => BodyNoNul(l); BodyNoNul(r);
  }

  /** The commands that some line is read as are exactly the legal ones. */
  lemma ParsedIffLegal(t: Cmd)
    ensures (exists s :: NUL !in s && ParseCmd(s) == Parsed(t, "")) <==> Legal(t)
  {
    if Legal(t) {
      RoundTrip(t);
      BodyNoNul(t);
    }
    if s :| NUL !in s && ParseCmd(s) == Parsed(t, "") {
      LineLegal(s);
    }
  }

  /** Every line that is read at all has a canonical form that is read as the same command. */
  lemma Canonical(s: string)
    requires ParseCmd(s).Parsed?
    ensures ParseCmd(Body(ParseCmd(s).cmd)) == ParseCmd(s)
  {
    LineLegal(s);
    RoundTrip(ParseCmd(s).cmd);
  }
}
