/**
 * The parser of sh.c as it runs: a cursor over the line, words as places in the line, and at
 * the end a NUL written behind every word.
 */
module Parser {
  import opened Shell

  /** Where a word starts and where it ends. */
  datatype Span = Span(q: nat, eq: nat)

  predicate SpanOk(line: string, sp: Span) {
    && sp.q < sp.eq <= |line|
    && (forall k :: sp.q <= k < sp.eq ==> IsWordChar(line[k]))
    && (sp.eq < |line| ==> !IsWordChar(line[sp.eq]))
  }

  function Word(line: string, sp: Span): (w: string) {
    if sp.q <= sp.eq <= |line| then line[sp.q..sp.eq] else ""
  }

  function WordsOf(line: string, argv: seq<Span>): (ws: seq<string>)
    ensures |ws| == |argv| && forall i :: 0 <= i < |ws| ==> ws[i] == Word(line, argv[i])
  {
    seq(|argv|, i requires 0 <= i < |argv| => Word(line, argv[i]))
  }

  function RedirOf(line: string, r: Redirect<Span>): (s: Redirection) {
    Redirection(Word(line, r.file), r.output)
  }

  function RedirsOf(line: string, list: seq<Redirect<Span>>): (rs: seq<Redirection>)
    ensures |rs| == |list| && forall i :: 0 <= i < |rs| ==> rs[i] == RedirOf(line, list[i])
  {
    seq(|list|, i requires 0 <= i < |list| => RedirOf(line, list[i]))
  }

  /** The command that a tree of places stands for. */
  function Text(line: string, t: Tree<Span>): (c: Cmd) {
    match t
    case Exec(argv) => Exec(WordsOf(line, argv))
    case Redir(c, r) => Redir(Text(line, c), RedirOf(line, r))
    case Pipe(l, r) => Pipe(Text(line, l), Text(line, r))
    case List(l, r) => List(Text(line, l), Text(line, r))
    case Back(c) => Back(Text(line, c))
  }

  predicate SpansOk(line: string, t: Tree<Span>) {
    match t
    case Exec(argv) => forall sp :: sp in argv ==> SpanOk(line, sp)
    case Redir(c, r) => SpansOk(line, c) && SpanOk(line, r.file)
    case Pipe(l, r) => SpansOk(line, l) && SpansOk(line, r)
    case List(l, r) => SpansOk(line, l) && SpansOk(line, r)
    case Back(c) => SpansOk(line, c)
  }

  predicate FilesOk(line: string, list: seq<Redirect<Span>>) {
    forall r :: r in list ==> SpanOk(line, r.file)
  }

  lemma {:induction false} WrapText(line: string, t: Tree<Span>, list: seq<Redirect<Span>>)
    requires SpansOk(line, t) && FilesOk(line, list)
    ensures Text(line, Wrap(t, list)) == Wrap(Text(line, t), RedirsOf(line, list))
    ensures SpansOk(line, Wrap(t, list))
    decreases |list|
  {
    if list != [] {
      assert RedirsOf(line, list)[1..] == RedirsOf(line, list[1..]);
      WrapText(line, Redir(t, list[0]), list[1..]);
    }
  }

  /** Redirections that have been read, before what is still to be read. */
  function After(got: seq<Redirection>, p: Redirs): (q: Redirs) {
    match p
    case NoFile => NoFile
    case Redirs(list, rest) => Redirs(got + list, rest)
  }

  lemma OneMoreRedir(r: string, got: seq<Redirection>)
    requires Next(r) == '<' || Next(r) == '>'
    ensures
      var op := NextToken(r);
      var file := NextToken(op.rest);
      After(got, ParseRedirs(r)) ==
        if file.kind != 'a' then NoFile
        else After(got + [Redirection(file.text, op.kind != '<')], ParseRedirs(file.rest))
  {
    hide NextToken, Skip;
  }

  lemma NothingYet(line: string, r: string)
    ensures After(RedirsOf(line, []), ParseRedirs(r)) == ParseRedirs(r)
  {
    hide ParseRedirs;
    if ParseRedirs(r).Redirs? {
      assert RedirsOf(line, []) + ParseRedirs(r).list == ParseRedirs(r).list;
    }
  }

  lemma NoRedirsThere(r: string, got: seq<Redirection>)
    requires Next(r) != '<' && Next(r) != '>'
    ensures After(got, ParseRedirs(r)) == Redirs(got, Skip(r))
  {
    assert got + [] == got;
  }

  /** One turn of the loop that reads a simple command. */
  lemma OneMoreWord(r: string, argv: seq<string>, redirs: seq<Redirection>)
    requires Next(r) !in {'|', ')', '&', ';'}
    ensures
      var t := NextToken(r);
      && ParseWords(r, argv, redirs) ==
           (if t.kind == NUL then Parsed(Wrap(Exec(argv), redirs), t.rest)
            else if t.kind != 'a' || |argv| + 1 >= MAXARGS || ParseRedirs(t.rest).NoFile? then Panic
            else ParseWords(ParseRedirs(t.rest).rest, argv + [t.text], redirs + ParseRedirs(t.rest).list))
  {
    hide NextToken, Skip, ParseRedirs, Wrap;
  }

  lemma WordsDone(r: string, argv: seq<string>, redirs: seq<Redirection>)
    requires Next(r) in {'|', ')', '&', ';'}
    ensures ParseWords(r, argv, redirs) == Parsed(Wrap(Exec(argv), redirs), Skip(r))
  {
  }

  lemma ExecOk(line: string, argv: seq<Span>)
    requires forall sp :: sp in argv ==> SpanOk(line, sp)
    ensures SpansOk(line, Exec(argv)) && Text(line, Exec(argv)) == Exec(WordsOf(line, argv))
  {
  }

  lemma {:induction false} SkipSuffix(line: string, i: nat)
    requires i < |line|
    ensures Skip(line[i..]) == if IsSpace(line[i]) then Skip(line[i + 1..]) else line[i..]
  {
    assert line[i..][1..] == line[i + 1..];
  }

  lemma {:induction false} WordSuffix(line: string, i: nat)
    requires i < |line| && IsWordChar(line[i])
    ensures WordLength(line[i..]) == 1 + WordLength(line[i + 1..])
  {
    assert line[i..][1..] == line[i + 1..];
  }

  /** A line that does not start with white space starts with a token of this kind and length. */
  predicate HeadIs(t: string, kind: char, n: nat) {
    && n <= |t|
    && if t == "" || t[0] == NUL then kind == NUL && n == 0
       else if t[0] == '>' then if |t| > 1 && t[1] == '>' then kind == '+' && n == 2 else kind == '>' && n == 1
       else if IsSymbol(t[0]) then kind == t[0] && n == 1
       else kind == 'a' && n == WordLength(t)
  }

  lemma HeadLength(t: string, kind: char, n: nat)
    requires HeadIs(t, kind, n)
    ensures n <= |t|
  {
  }

  lemma TokenIs(r: string, kind: char, n: nat)
    requires HeadIs(Skip(r), kind, n)
    ensures n <= |Skip(r)| && NextToken(r) == Token(kind, Skip(r)[..n], Skip(Skip(r)[n..]))
  {
    var t := Skip(r);
    if t == "" || t[0] == NUL {
      Tighten(t);
      assert t[..0] == "" && t[0..] == t;
    }
  }

  lemma Sliced(line: string, q: nat, eq: nat)
    requires q <= eq <= |line|
    ensures line[q..][..eq - q] == line[q..eq] && line[q..][eq - q..] == line[eq..]
  {
  }

  lemma {:induction false} WordsSkipped(r: string, argv: seq<string>, redirs: seq<Redirection>)
    ensures ParseWords(Skip(r), argv, redirs) == ParseWords(r, argv, redirs)
  {
    Skipped(r);
    hide Skip, NextToken, Next;
  }

  lemma {:induction false} BacksSkipped(r: string, cmd: Cmd)
    ensures ParseBacks(Skip(r), cmd) == ParseBacks(r, cmd) && Skip(Skip(r)) == Skip(r) && Next(Skip(r)) == Next(r)
  {
    Skipped(r);
    hide Skip, NextToken, Next;
  }

  lemma {:induction false} ExecSkipped(r: string)
    ensures ParseExec(Skip(r)) == ParseExec(r)
  {
    Skipped(r);
    RedirsSkipped(r);
    hide Skip, NextToken, Next, ParseRedirs;
  }

  lemma SymbolNext(r: string)
    ensures IsSymbol(Next(r)) ==> NextToken(r).kind != NUL
  {
  }

  /** What a parsing method returns and leaves to be read is what the grammar says. */
  predicate Agrees(line: string, ok: bool, t: Tree<Span>, rest: string, p: Parsed) {
    match p
    case Panic => !ok
    case Parsed(cmd, r) => ok && SpansOk(line, t) && Text(line, t) == cmd && rest == r
  }

  // ----- The NULs behind the words -----

  function EndsOf(argv: seq<Span>): (e: set<nat>) {
    set sp | sp in argv :: sp.eq
  }

  /** Where the words of a command end. */
  function Ends(t: Tree<Span>): (e: set<nat>) {
    match t
    case Exec(argv) => EndsOf(argv)
    case Redir(c, r) => Ends(c) + {r.file.eq}
    case Pipe(l, r) => Ends(l) + Ends(r)
    case List(l, r) => Ends(l) + Ends(r)
    case Back(c) => Ends(c)
  }

  /** A buffer with a NUL at every place in `e`. */
  function Cut(b: string, e: set<nat>): (c: string)
    ensures |c| == |b| && forall k :: 0 <= k < |b| ==> c[k] == if k in e then NUL else b[k]
  {
    seq(|b|, k requires 0 <= k < |b| => if k in e then NUL else b[k])
  }

  /** The string that starts at `i`: up to the next NUL. */
  function StringAt(b: string, i: nat): (s: string)
    decreases |b| - i
  {
    if i < |b| && b[i] != NUL then [b[i]] + StringAt(b, i + 1) else ""
  }

  function StringsAt(b: string, argv: seq<Span>): (ws: seq<string>)
    ensures |ws| == |argv| && forall i :: 0 <= i < |ws| ==> ws[i] == StringAt(b, argv[i].q)
  {
    seq(|argv|, i requires 0 <= i < |argv| => StringAt(b, argv[i].q))
  }

  /** The command as it is run: each word is the string that starts where the word does. */
  function Strings(b: string, t: Tree<Span>): (c: Cmd) {
    match t
    case Exec(argv) => Exec(StringsAt(b, argv))
    case Redir(c, r) => Redir(Strings(b, c), Redirection(StringAt(b, r.file.q), r.output))
    case Pipe(l, r) => Pipe(Strings(b, l), Strings(b, r))
    case List(l, r) => List(Strings(b, l), Strings(b, r))
    case Back(c) => Back(Strings(b, c))
  }

  /** A word ends at the end of the line or at a character that no word has. */
  lemma {:induction false} EndsInside(line: string, t: Tree<Span>)
    requires SpansOk(line, t)
    ensures forall k :: k in Ends(t) ==> k <= |line| && (k < |line| ==> !IsWordChar(line[k]))
  {
    match t
    case Exec(argv) =>
    case Redir(c, r) => EndsInside(line, c);
    case Pipe(l, r) => EndsInside(line, l); EndsInside(line, r);
    case List(l, r) => EndsInside(line, l); EndsInside(line, r);
    case Back(c) => EndsInside(line, c);
  }

  lemma {:induction false} StringIs(b: string, i: nat, j: nat)
    requires i <= j < |b| && b[j] == NUL && forall k :: i <= k < j ==> b[k] != NUL
    ensures StringAt(b, i) == b[i..j]
    decreases j - i
  {
    if i < j {
      StringIs(b, i + 1, j);
    }
  }

  /** With a NUL at the end of every word, no word is cut short. */
  lemma WordSurvives(line: string, whole: Tree<Span>, sp: Span)
    requires NUL !in line && SpansOk(line, whole) && SpanOk(line, sp) && sp.eq in Ends(whole)
    ensures StringAt(Cut(line + [NUL], Ends(whole)), sp.q) == Word(line, sp)
  {
    hide Ends, SpansOk, IsWordChar, StringAt;
    EndsInside(line, whole);
    var b := Cut(line + [NUL], Ends(whole));
    assert forall k :: sp.q <= k < sp.eq ==> b[k] == line[k];
    StringIs(b, sp.q, sp.eq);
    assert b[sp.q..sp.eq] == line[sp.q..sp.eq];
  }

  /** The strings in the buffer are the words of the command. */
  lemma {:induction false} Terminated(line: string, whole: Tree<Span>, t: Tree<Span>)
    requires NUL !in line && SpansOk(line, whole) && SpansOk(line, t) && Ends(t) <= Ends(whole)
    ensures Strings(Cut(line + [NUL], Ends(whole)), t) == Text(line, t)
    decreases t
  {
    hide StringAt, SpanOk, Word, Cut;
    match t
    case Exec(argv) =>
      var b := Cut(line + [NUL], Ends(whole));
      forall i | 0 <= i < |argv| ensures StringAt(b, argv[i].q) == Word(line, argv[i]) {
        assert argv[i].eq in Ends(t);
        WordSurvives(line, whole, argv[i]);
      }
      assert StringsAt(b, argv) == WordsOf(line, argv);
    case Redir(c, r) =>
      assert r.file.eq in Ends(t);
      WordSurvives(line, whole, r.file);
      Terminated(line, whole, c);
    case Pipe(l, r) => Terminated(line, whole, l); Terminated(line, whole, r);
    case List(l, r) => Terminated(line, whole, l); Terminated(line, whole, r);
    case Back(c) => Terminated(line, whole, c);
  }

  class Parser {
    const line: string
    const buf: array<char>
    var pos: nat

    constructor (s: string)
      requires NUL !in s
      ensures Valid() && pos == 0 && line == s && fresh(buf)
    {
      line, pos := s, 0;
      var b := new char[|s| + 1](i requires 0 <= i <= |s| => if i < |s| then s[i] else NUL);
      buf := b;
    }

    predicate Valid()
      reads this, buf
    {
      buf.Length == |line| + 1 && buf[..] == line + [NUL] && NUL !in line && pos <= |line|
    }

    function Rest(): (r: string)
      requires pos <= |line|
      reads this
    {
      line[pos..]
    }

    /** sh.c:273-274, 305-306, 317-318 */
    method SkipSpace()
      requires Valid()
      modifies this`pos
      ensures Valid() && old(pos) <= pos && Rest() == Skip(old(Rest()))
      ensures buf[pos] == Next(old(Rest()))
    {
      while pos < |line| && IsSpace(buf[pos])
        invariant Valid() && old(pos) <= pos && Skip(Rest()) == Skip(old(Rest()))
        decreases |line| - pos
      {
        SkipSuffix(line, pos);
        pos := pos + 1;
      }
      if pos < |line| {
        SkipSuffix(line, pos);
      }
    }

    /** sh.c:298-299 */
    method ScanWord()
      requires Valid() && pos < |line| && IsWordChar(buf[pos])
      modifies this`pos
      ensures Valid() && pos == old(pos) + WordLength(old(Rest()))
      ensures SpanOk(line, Span(old(pos), pos))
    {
      ghost var r := Rest();
      while pos < |line| && !IsSpace(buf[pos]) && !IsSymbol(buf[pos])
        invariant Valid() && old(pos) <= pos
        invariant WordLength(r) == pos - old(pos) + WordLength(Rest())
        decreases |line| - pos
      {
        WordSuffix(line, pos);
        pos := pos + 1;
      }
      assert forall k :: old(pos) <= k < pos ==> line[k] == r[k - old(pos)];
    }

    /** The token itself, without the white space around it (sh.c:277-301). */
    method ReadHead() returns (kind: char)
      requires Valid() && Tight(Rest())
      modifies this`pos
      ensures Valid() && old(pos) <= pos && (kind != NUL ==> old(pos) < pos)
      ensures HeadIs(old(Rest()), kind, pos - old(pos))
      ensures kind == 'a' ==> SpanOk(line, Span(old(pos), pos))
    {
      hide WordLength, SpanOk;
      kind := buf[pos];
      if kind == '>' {
        pos := pos + 1;
        if buf[pos] == '>' {
          kind := '+';
          pos := pos + 1;
        }
      } else if IsSymbol(kind) {
        pos := pos + 1;
      } else if kind != NUL {
        kind := 'a';
        ScanWord();
      }
    }

    /** sh.c:267-309 */
    method GetToken() returns (kind: char, q: nat, eq: nat)
      requires Valid()
      modifies this`pos
      ensures Valid() && old(pos) <= pos && (kind != NUL ==> old(pos) < pos)
      ensures kind == NextToken(old(Rest())).kind && Rest() == NextToken(old(Rest())).rest
      ensures q <= eq <= |line| && line[q..eq] == NextToken(old(Rest())).text
      ensures kind == 'a' ==> SpanOk(line, Span(q, eq))
    {
      hide NextToken, Skip, Next, SpanOk, HeadIs;
      SkipSpace();
      q := pos;
      ghost var r := Rest();
      kind := ReadHead();
      eq := pos;
      HeadLength(r, kind, eq - q);
      TokenIs(old(Rest()), kind, eq - q);
      Sliced(line, q, eq);
      SkipSpace();
    }

    /** sh.c:312-321 */
    method Peek(toks: string) returns (b: bool)
      requires Valid()
      modifies this`pos
      ensures Valid() && old(pos) <= pos && Rest() == Skip(old(Rest()))
      ensures b <==> Next(old(Rest())) != NUL && Next(old(Rest())) in toks
    {
      SkipSpace();
      b := buf[pos] != NUL && buf[pos] in toks;
    }

    /** sh.c:376-398 */
    method ReadRedirs() returns (ok: bool, list: seq<Redirect<Span>>)
      requires Valid()
      modifies this`pos
      ensures Valid() && old(pos) <= pos
      ensures ok ==> FilesOk(line, list) && ParseRedirs(old(Rest())) == Redirs(RedirsOf(line, list), Rest())
      ensures !ok ==> ParseRedirs(old(Rest())) == NoFile
    {
      hide NextToken, Next, Skip, ParseRedirs, SpanOk;
      ghost var r := Rest();
      list := [];
      NothingYet(line, r);
      var more := Peek("<>");
      RedirsSkipped(r);
      Skipped(r);
      while more
        invariant Valid() && old(pos) <= pos && FilesOk(line, list)
        invariant After(RedirsOf(line, list), ParseRedirs(Rest())) == ParseRedirs(r)
        invariant Skip(Rest()) == Rest() && more == (Next(Rest()) == '<' || Next(Rest()) == '>')
        decreases |line| - pos
      {
        OneMoreRedir(Rest(), RedirsOf(line, list));
        var tok, _, _ := GetToken();
        var kind, q, eq := GetToken();
        if kind != 'a' {
          return false, [];
        }
        var redir := Redirection(Span(q, eq), tok != '<');
        assert RedirsOf(line, list + [redir]) == RedirsOf(line, list) + [RedirOf(line, redir)];
        list := list + [redir];
        RedirsSkipped(Rest());
        Skipped(Rest());
        more := Peek("<>");
      }
      NoRedirsThere(Rest(), RedirsOf(line, list));
      ok := true;
    }

    /** sh.c:432-446 */
    method ReadWords(first: seq<Redirect<Span>>) returns (ok: bool, t: Tree<Span>)
      requires Valid() && FilesOk(line, first)
      modifies this`pos
      ensures Valid() && old(pos) <= pos
      ensures Agrees(line, ok, t, Rest(), ParseWords(old(Rest()), [], RedirsOf(line, first)))
    {
      hide NextToken, Next, Skip, ParseWords, ParseRedirs, SpanOk, Wrap, Text, SpansOk;
      ghost var p := ParseWords(Rest(), [], RedirsOf(line, first));
      var argv: seq<Span>, redirs := [], first;
      WordsSkipped(Rest(), [], RedirsOf(line, first));
      Skipped(Rest());
      assert WordsOf(line, argv) == [];
      var end := Peek("|)&;");
      while !end
        invariant Valid() && old(pos) <= pos && FilesOk(line, redirs) && |argv| < MAXARGS
        invariant forall sp :: sp in argv ==> SpanOk(line, sp)
        invariant ParseWords(Rest(), WordsOf(line, argv), RedirsOf(line, redirs)) == p
        invariant Skip(Rest()) == Rest() && end == (Next(Rest()) in {'|', ')', '&', ';'})
        decreases |line| - pos
      {
        OneMoreWord(Rest(), WordsOf(line, argv), RedirsOf(line, redirs));
        var tok, q, eq := GetToken();
        if tok == NUL {
          break;
        }
        if tok != 'a' {
          return false, Exec([]);
        }
        assert WordsOf(line, argv + [Span(q, eq)]) == WordsOf(line, argv) + [Word(line, Span(q, eq))];
        argv := argv + [Span(q, eq)];
        if |argv| >= MAXARGS {
          return false, Exec([]);
        }
        var good, list := ReadRedirs();
        if !good {
          return false, Exec([]);
        }
        assert RedirsOf(line, redirs + list) == RedirsOf(line, redirs) + RedirsOf(line, list);
        redirs := redirs + list;
        WordsSkipped(Rest(), WordsOf(line, argv), RedirsOf(line, redirs));
        Skipped(Rest());
        end := Peek("|)&;");
      }
      ExecOk(line, argv);
      WrapText(line, Exec(argv), redirs);
      if end {
        WordsDone(Rest(), WordsOf(line, argv), RedirsOf(line, redirs));
      }
      return true, Wrap(Exec(argv), redirs);
    }

    /** sh.c:401-414 */
    method ReadBlock() returns (ok: bool, t: Tree<Span>)
      requires Valid() && Next(Rest()) == '('
      modifies this`pos
      ensures Valid() && old(pos) <= pos
      ensures Agrees(line, ok, t, Rest(), ParseBlock(old(Rest())))
      decreases |line| - pos, 0
    {
      hide NextToken, Skip, ParseRedirs, ParseLine, SpanOk, Wrap, Text, SpansOk;
      ghost var r := Rest();
      SymbolNext(r);
      var _, _, _ := GetToken();
      var good, line' := ReadLine();
      if !good {
        return false, Exec([]);
      }
      Skipped(Rest());
      var close := Peek(")");
      if !close {
        return false, Exec([]);
      }
      var _, _, _ := GetToken();
      var found, list := ReadRedirs();
      if !found {
        return false, Exec([]);
      }
      WrapText(line, line', list);
      return true, Wrap(line', list);
    }

    /** sh.c:417-447 */
    method ReadExec() returns (ok: bool, t: Tree<Span>)
      requires Valid()
      modifies this`pos
      ensures Valid() && old(pos) <= pos
      ensures Agrees(line, ok, t, Rest(), ParseExec(old(Rest())))
      decreases |line| - pos, 1
    {
      hide NextToken, Next, Skip, ParseRedirs, ParseBlock, SpanOk, Text, SpansOk, ParseWords;
      ghost var r := Rest();
      Skipped(r);
      ExecSkipped(r);
      var block := Peek("(");
      if block {
        ok, t := ReadBlock();
        return;
      }
      var good, list := ReadRedirs();
      if !good {
        return false, Exec([]);
      }
      ok, t := ReadWords(list);
    }

    /** sh.c:363-373 */
    method ReadPipe() returns (ok: bool, t: Tree<Span>)
      requires Valid()
      modifies this`pos
      ensures Valid() && old(pos) <= pos
      ensures Agrees(line, ok, t, Rest(), ParsePipe(old(Rest())))
      decreases |line| - pos, 2
    {
      hide NextToken, Next, Skip, ParseExec, SpanOk;
      ok, t := ReadExec();
      if !ok {
        return;
      }
      ghost var rest := Rest();
      Skipped(rest);
      SymbolNext(rest);
      var more := Peek("|");
      if more {
        var _, _, _ := GetToken();
        var good, right := ReadPipe();
        ok, t := good, Pipe(t, right);
      }
    }

    /** sh.c:346-360 */
    method ReadLine() returns (ok: bool, t: Tree<Span>)
      requires Valid()
      modifies this`pos
      ensures Valid() && old(pos) <= pos
      ensures Agrees(line, ok, t, Rest(), ParseLine(old(Rest())))
      decreases |line| - pos, 3
    {
      hide NextToken, Next, Skip, ParsePipe, SpanOk;
      ok, t := ReadPipe();
      if !ok {
        return;
      }
      t := ReadBacks(t);
      ghost var rest := Rest();
      Skipped(rest);
      SymbolNext(rest);
      var more := Peek(";");
      if more {
        var _, _, _ := GetToken();
        var good, right := ReadLine();
        ok, t := good, List(t, right);
      }
    }

    /** sh.c:351-354 */
    method ReadBacks(first: Tree<Span>) returns (t: Tree<Span>)
      requires Valid() && SpansOk(line, first)
      modifies this`pos
      ensures Valid() && old(pos) <= pos
      ensures Agrees(line, true, t, Rest(), ParseBacks(old(Rest()), Text(line, first)))
    {
      hide NextToken, Next, Skip, SpanOk;
      ghost var p := ParseBacks(Rest(), Text(line, first));
      t := first;
      BacksSkipped(Rest(), Text(line, t));
      var more := Peek("&");
      while more
        invariant Valid() && old(pos) <= pos && SpansOk(line, t)
        invariant ParseBacks(Rest(), Text(line, t)) == p
        invariant Skip(Rest()) == Rest() && more == (Next(Rest()) == '&')
        decreases |line| - pos
      {
        SymbolNext(Rest());
        var _, _, _ := GetToken();
        t := Back(t);
        BacksSkipped(Rest(), Text(line, t));
        more := Peek("&");
      }
    }

    /** sh.c:451-494 */
    method NulTerminate(t: Tree<Span>)
      requires buf.Length == |line| + 1 && SpansOk(line, t)
      modifies buf
      ensures buf[..] == Cut(old(buf[..]), Ends(t))
      decreases t
    {
      hide SpanOk;
      match t
      case Exec(argv) =>
        EndsInside(line, t);
        for i := 0 to |argv|
          invariant buf[..] == Cut(old(buf[..]), EndsOf(argv[..i]))
        {
          assert argv[i] in argv;
          assert argv[..i + 1] == argv[..i] + [argv[i]];
          assert argv[i].eq in Ends(t);
          buf[argv[i].eq] := NUL;
        }
        assert argv[..|argv|] == argv;
      case Redir(c, r) =>
        EndsInside(line, t);
        assert r.file.eq in Ends(t);
        NulTerminate(c);
        buf[r.file.eq] := NUL;
      case Pipe(l, r) =>
        NulTerminate(l);
        NulTerminate(r);
      case List(l, r) =>
        NulTerminate(l);
        NulTerminate(r);
      case Back(c) =>
        NulTerminate(c);
    }

    /** The command, whose words are then strings in the buffer that end at their NUL (sh.c:329-343). */
    method ReadCmd() returns (ok: bool, t: Tree<Span>)
      requires Valid() && pos == 0
      modifies this`pos, buf
      ensures ok == ParseCmd(line).Parsed?
      ensures ok ==> Strings(buf[..], t) == ParseCmd(line).cmd
    {
      hide Skip, ParseLine, Text, SpansOk, Cut, Ends, Strings;
      assert Rest() == line;
      ok, t := ReadLine();
      if ok {
        var _ := Peek("");
        if pos != |line| {
          ok := false;
        } else {
          NulTerminate(t);
          Terminated(line, t, t);
        }
      }
    }
  }
}
