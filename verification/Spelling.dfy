/** Lines that are spelled differently and mean the same: white space around symbols, and `>>` for `>`. */
module Spelling {
  import opened Shell

  // ----- Lines with the same tokens -----

  /** The tokens mean the same: only `>` and `>>` need not be spelled alike. */
  predicate SameToken(t: Token, u: Token) {
    if t.kind == '>' || t.kind == '+' then u.kind == '>' || u.kind == '+'
    else t.kind == u.kind && t.text == u.text && (t.kind == NUL ==> (t.rest == "") == (u.rest == ""))
  }

  /** The lines have the same tokens. */
  ghost predicate Alike(r: string, s: string)
    decreases |r|
  {
    && SameToken(NextToken(r), NextToken(s))
    && (NextToken(r).kind != NUL ==> Alike(NextToken(r).rest, NextToken(s).rest))
  }

  lemma {:induction false} AlikeSelf(r: string)
    ensures Alike(r, r)
    decreases |r|
  {
    if NextToken(r).kind != NUL {
      AlikeSelf(NextToken(r).rest);
    }
  }

  lemma AlikeSkip(r: string, s: string)
    requires Alike(r, s)
    ensures Alike(Skip(r), Skip(s)) && Skip(Skip(r)) == Skip(r) && Skip(Skip(s)) == Skip(s)
  {
    Skipped(r);
    Skipped(s);
    hide NextToken, Skip;
  }

  lemma AlikeUnskip(r: string, s: string)
    requires Alike(Skip(r), Skip(s))
    ensures Alike(r, s)
  {
    Skipped(r);
    Skipped(s);
    hide NextToken, Skip;
  }

  /** What the parser looks at is the start of the next token. */
  lemma KindOf(r: string)
    ensures var t := NextToken(r);
            && (t.kind == NUL ==> Next(r) == NUL && t.text == "")
            && (t.kind == 'a' ==> t.text != "" && Next(r) == t.text[0] && IsWordChar(Next(r)))
            && (t.kind == '+' || t.kind == '>' ==> Next(r) == '>')
            && (t.kind != NUL && t.kind != 'a' && t.kind != '+' ==> Next(r) == t.kind && IsSymbol(t.kind))
  {
  }

  lemma AlikeNext(r: string, s: string)
    requires Alike(r, s)
    ensures Next(r) == Next(s)
  {
    KindOf(r);
    KindOf(s);
    hide NextToken, Next;
  }

  // ----- The parser sees tokens only -----

  ghost predicate SameRedirs(p: Redirs, q: Redirs) {
    if p.NoFile? then q.NoFile? else q.Redirs? && p.list == q.list && Alike(p.rest, q.rest)
  }

  ghost predicate SameParse(p: Parsed, q: Parsed) {
    if p.Panic? then q.Panic? else q.Parsed? && p.cmd == q.cmd && Alike(p.rest, q.rest)
  }

  lemma {:induction false} RedirsAlike(r: string, s: string)
    requires Alike(r, s)
    ensures SameRedirs(ParseRedirs(r), ParseRedirs(s))
    decreases |r|
  {
    AlikeNext(r, s);
    AlikeSkip(r, s);
    KindOf(r);
    if Next(r) == '<' || Next(r) == '>' {
      hide NextToken, Next, Skip;
      var op, op' := NextToken(r), NextToken(s);
      var file, file' := NextToken(op.rest), NextToken(op'.rest);
      assert Alike(op.rest, op'.rest);
      if file.kind == 'a' {
        RedirsAlike(file.rest, file'.rest);
      }
    }
  }

  lemma {:induction false} WordsAlike(r: string, s: string, argv: seq<string>, redirs: seq<Redirection>)
    requires Alike(r, s)
    ensures SameParse(ParseWords(r, argv, redirs), ParseWords(s, argv, redirs))
    decreases |r|
  {
    AlikeNext(r, s);
    AlikeSkip(r, s);
    if NextToken(r).kind == NUL {
      EndAlike(r, s);
    }
    hide NextToken, Next, Skip, ParseRedirs, Wrap;
    var t, t' := NextToken(r), NextToken(s);
    if Next(r) !in {'|', ')', '&', ';'} && t.kind == 'a' && |argv| + 1 < MAXARGS {
      RedirsAlike(t.rest, t'.rest);
      var p, p' := ParseRedirs(t.rest), ParseRedirs(t'.rest);
      if p.Redirs? {
        WordsAlike(p.rest, p'.rest, argv + [t.text], redirs + p.list);
      }
    }
  }

  /** What is left at the end of a line. */
  lemma EndAlike(r: string, s: string)
    requires Alike(r, s) && NextToken(r).kind == NUL
    ensures NextToken(s).kind == NUL && Alike(NextToken(r).rest, NextToken(s).rest)
  {
  }

  lemma {:induction false} ExecAlike(r: string, s: string)
    requires Alike(r, s)
    ensures SameParse(ParseExec(r), ParseExec(s))
    decreases |r|, 1
  {
    AlikeNext(r, s);
    hide Next, Skip, ParseRedirs, ParseWords, ParseLine, Wrap;
    if Next(r) == '(' {
      BlockAlike(r, s);
    } else {
      RedirsAlike(r, s);
      var p, p' := ParseRedirs(r), ParseRedirs(s);
      if p.Redirs? {
        WordsAlike(p.rest, p'.rest, [], p.list);
      }
    }
  }

  lemma {:induction false} BlockAlike(r: string, s: string)
    requires Alike(r, s) && Next(r) == Next(s) == '('
    ensures SameParse(ParseBlock(r), ParseBlock(s))
    decreases |r|, 0
  {
    RestAlike(r, s);
    hide NextToken, Next, Skip, ParseRedirs, ParseLine, Wrap;
    LineAlike(NextToken(r).rest, NextToken(s).rest);
    var p, p' := ParseLine(NextToken(r).rest), ParseLine(NextToken(s).rest);
    if p.Parsed? {
      AlikeNext(p.rest, p'.rest);
      if Next(p.rest) == ')' {
        RestAlike(p.rest, p'.rest);
        RedirsAlike(NextToken(p.rest).rest, NextToken(p'.rest).rest);
      }
    }
  }

  /** What follows the next token, if there is one. */
  lemma RestAlike(r: string, s: string)
    requires Alike(r, s) && Next(r) != NUL
    ensures Alike(NextToken(r).rest, NextToken(s).rest) && |NextToken(r).rest| < |r|
  {
    KindOf(r);
  }

  lemma {:induction false} PipeAlike(r: string, s: string)
    requires Alike(r, s)
    ensures SameParse(ParsePipe(r), ParsePipe(s))
    decreases |r|, 2
  {
    hide NextToken, Next, Skip, ParseExec;
    ExecAlike(r, s);
    var p, p' := ParseExec(r), ParseExec(s);
    if p.Parsed? {
      AlikeNext(p.rest, p'.rest);
      AlikeSkip(p.rest, p'.rest);
      if Next(p.rest) == '|' {
        RestAlike(p.rest, p'.rest);
        PipeAlike(NextToken(p.rest).rest, NextToken(p'.rest).rest);
      }
    }
  }

  lemma {:induction false} BacksAlike(r: string, s: string, cmd: Cmd)
    requires Alike(r, s)
    ensures SameParse(ParseBacks(r, cmd), ParseBacks(s, cmd))
    decreases |r|
  {
    hide NextToken, Next, Skip;
    AlikeNext(r, s);
    AlikeSkip(r, s);
    if Next(r) == '&' {
      RestAlike(r, s);
      BacksAlike(NextToken(r).rest, NextToken(s).rest, Back(cmd));
    }
  }

  lemma {:induction false} BackedAlike(r: string, s: string)
    requires Alike(r, s)
    ensures SameParse(ParseBacked(r), ParseBacked(s))
    decreases |r|, 3
  {
    hide ParsePipe, ParseBacks;
    PipeAlike(r, s);
    if ParsePipe(r).Parsed? {
      BacksAlike(ParsePipe(r).rest, ParsePipe(s).rest, ParsePipe(r).cmd);
    }
  }

  lemma {:induction false} LineAlike(r: string, s: string)
    requires Alike(r, s)
    ensures SameParse(ParseLine(r), ParseLine(s))
    decreases |r|, 4
  {
    hide NextToken, Next, Skip, ParseBacked;
    BackedAlike(r, s);
    var p, p' := ParseBacked(r), ParseBacked(s);
    if p.Parsed? {
      AlikeNext(p.rest, p'.rest);
      AlikeSkip(p.rest, p'.rest);
      if Next(p.rest) == ';' {
        RestAlike(p.rest, p'.rest);
        LineAlike(NextToken(p.rest).rest, NextToken(p'.rest).rest);
      }
    }
  }

  /** Lines with the same tokens are the same command, or both are syntax errors. */
  lemma CmdAlike(r: string, s: string)
    requires Alike(r, s)
    ensures ParseCmd(r) == ParseCmd(s)
  {
    LineAlike(r, s);
    var p, p' := ParseLine(r), ParseLine(s);
    hide ParseLine;
    if p.Parsed? {
      NothingLeft(p.rest, p'.rest);
    }
  }

  lemma NothingLeft(r: string, s: string)
    requires Alike(r, s)
    ensures Skip(r) == "" <==> Skip(s) == ""
  {
  }

  // ----- Lines that have the same tokens -----

  /** A token can end where `u` ends and `v` begins. */
  predicate Apart(u: string, v: string) {
    u == "" || v == "" ||
    (var a, b := u[|u| - 1], v[0]; !(IsWordChar(a) && IsWordChar(b)) && !(a == '>' && b == '>'))
  }

  lemma {:induction false} SkipInside(u: string, v: string)
    ensures Skip(u) != "" ==> Skip(u + v) == Skip(u) + v
    ensures Skip(u) == "" ==> Skip(u + v) == Skip(v)
  {
    if u == "" {
      assert u + v == v;
    } else {
      assert (u + v)[0] == u[0] && (u + v)[1..] == u[1..] + v;
      if IsSpace(u[0]) {
        SkipInside(u[1..], v);
      }
    }
  }

  lemma {:induction false} SkipLast(u: string)
    ensures |Skip(u)| <= |u| && Skip(u) == u[|u| - |Skip(u)|..]
  {
    if u != "" && IsSpace(u[0]) {
      SkipLast(u[1..]);
    }
  }

  lemma {:induction false} WordInside(u: string, v: string)
    ensures WordLength(u) < |u| ==> WordLength(u + v) == WordLength(u)
    ensures WordLength(u) == |u| && (v == "" || !IsWordChar(v[0])) ==> WordLength(u + v) == |u|
  {
    if u != "" && IsWordChar(u[0]) {
      assert (u + v)[0] == u[0] && (u + v)[1..] == u[1..] + v;
      WordInside(u[1..], v);
    } else if u != "" {
      assert (u + v)[0] == u[0];
    } else {
      assert u + v == v;
    }
  }

  /** The length of the token that `u` starts with, if it starts with one. */
  function HeadLength(u: string): (n: nat)
    requires u != "" && !IsSpace(u[0]) && u[0] != NUL
    ensures 0 < n <= |u|
  {
    if u[0] == '>' then if |u| > 1 && u[1] == '>' then 2 else 1
    else if IsSymbol(u[0]) then 1
    else WordLength(u)
  }

  function HeadKind(u: string): (k: char)
    requires u != "" && !IsSpace(u[0]) && u[0] != NUL
  {
    if u[0] == '>' then if |u| > 1 && u[1] == '>' then '+' else '>'
    else if IsSymbol(u[0]) then u[0]
    else 'a'
  }

  /** The first token of a line that goes on with `v` lies in `u`. */
  lemma HeadInside(u: string, v: string)
    requires u != "" && !IsSpace(u[0]) && u[0] != NUL && Apart(u, v)
    ensures var n := HeadLength(u);
            NextToken(u + v) == Token(HeadKind(u), u[..n], Skip(u[n..] + v))
  {
    var r, n := u + v, HeadLength(u);
    assert r[0] == u[0] && Skip(r) == r;
    assert r[..n] == u[..n] && r[n..] == u[n..] + v;
    WordInside(u, v);
    if u[0] == '>' {
      assert |u| > 1 ==> r[1] == u[1];
      assert |u| == 1 && v != "" ==> r[1] == v[0];
    } else if !IsSymbol(u[0]) {
      assert WordLength(u) == |u| ==> IsWordChar(u[|u| - 1]);
    }
  }

  lemma ApartTail(u: string, v: string, n: nat)
    requires Apart(u, v) && n <= |u|
    ensures Apart(u[n..], v)
  {
  }

  /** Lines with the same tokens have them also behind a common start, unless a token would run over its end. */
  lemma {:induction false} AlikeBehind(u: string, v: string, w: string)
    requires Alike(v, w) && Apart(u, v) && Apart(u, w)
    ensures Alike(u + v, u + w)
    decreases |u|, 1
  {
    var x := Skip(u);
    SkipInside(u, v);
    SkipInside(u, w);
    if x == "" {
      AlikeSkip(v, w);
      AlikeUnskip(u + v, u + w);
    } else if x[0] == NUL {
      NulHead(x, v);
      NulHead(x, w);
      Skipped(u + v);
      Skipped(u + w);
    } else {
      SkipLast(u);
      ApartTail(u, v, |u| - |x|);
      ApartTail(u, w, |u| - |x|);
      TokenBehind(x, v, w);
      AlikeUnskip(u + v, u + w);
    }
  }

  lemma NulHead(x: string, v: string)
    requires x != "" && x[0] == NUL
    ensures NextToken(x + v) == Token(NUL, "", x + v) && x + v != ""
  {
    assert (x + v)[0] == NUL && Skip(x + v) == x + v;
  }

  lemma {:induction false} TokenBehind(x: string, v: string, w: string)
    requires x != "" && !IsSpace(x[0]) && x[0] != NUL && Alike(v, w) && Apart(x, v) && Apart(x, w)
    ensures Alike(Skip(x + v), Skip(x + w))
    decreases |x|, 0
  {
    var n := HeadLength(x);
    HeadInside(x, v);
    HeadInside(x, w);
    ApartTail(x, v, n);
    ApartTail(x, w, n);
    AlikeBehind(x[n..], v, w);
    AlikeSkip(x[n..] + v, x[n..] + w);
    Skipped(x + v);
    Skipped(x + w);
  }

  // ----- White space -----

  /** Blanks, tabs, carriage returns, line feeds and vertical tabs (sh.c:263). */
  predicate Blank(g: string) {
    forall k :: 0 <= k < |g| ==> g[k] == ' ' || g[k] == '\t' || g[k] == '\r' || g[k] == '\n' || g[k] == (11 as char)
  }

  lemma {:induction false} SkipBlank(g: string, v: string)
    requires Blank(g)
    ensures Skip(g) == "" && Skip(g + v) == Skip(v)
  {
    if g == "" {
      assert g + v == v;
    } else {
      assert (g + v)[0] == g[0] && (g + v)[1..] == g[1..] + v;
      SkipBlank(g[1..], v);
    }
  }

  /** White space may be put in or left out anywhere but inside a word and between the two characters of `>>`. */
  lemma SpaceIsFree(u: string, g: string, v: string)
    requires Blank(g) && Apart(u, v)
    ensures ParseCmd(u + g + v) == ParseCmd(u + v)
  {
    SkipBlank(g, v);
    AlikeSelf(Skip(v));
    AlikeUnskip(g + v, v);
    assert g != "" ==> Apart(u, g + v);
    assert g == "" ==> g + v == v;
    AlikeBehind(u, g + v, v);
    CmdAlike(u + (g + v), u + v);
    assert u + g + v == u + (g + v);
  }

  lemma SignsAlike(v: string)
    requires v == "" || v[0] != '>'
    ensures Alike(">>" + v, ">" + v)
  {
    HeadInside(">>", v);
    HeadInside(">", v);
    assert ">>"[2..] + v == v && ">"[1..] + v == v;
    AlikeSelf(Skip(v));
    hide NextToken, Skip;
  }

  /** `>>` is the same as `>`. */
  lemma AppendIsOutput(u: string, v: string)
    requires u == "" || u[|u| - 1] != '>'
    requires v == "" || v[0] != '>'
    ensures ParseCmd(u + ">>" + v) == ParseCmd(u + ">" + v)
  {
    hide Alike, ParseCmd;
    SignsAlike(v);
    AlikeBehind(u, ">>" + v, ">" + v);
    CmdAlike(u + (">>" + v), u + (">" + v));
    Joined(u, ">>", v);
    Joined(u, ">", v);
  }

  /** A word is one token, up to a character that no word has. */
  lemma WordSpelled(h: string, w: string, rest: string)
    requires Blank(h) && LegalWord(w) && (rest == "" || !IsWordChar(rest[0]))
    ensures NextToken(h + (w + rest)) == Token('a', w, Skip(rest))
  {
    assert IsWordChar(w[0]);
    WordEnds(w, "");
    assert w + "" == w && w[|w|..] + rest == rest && w[..|w|] == w;
    HeadInside(w, rest);
    SkipBlank(h, w + rest);
    Skipped(h + (w + rest));
    Skipped(w + rest);
  }

  lemma SignSpelled(g: string, op: string, tail: string)
    requires Blank(g) && op in {"<", ">", ">>"} && tail != "" && tail[0] != '>'
    ensures NextToken(g + (op + tail)).rest == Skip(tail) && (NextToken(g + (op + tail)).kind == '<' <==> op == "<")
    ensures Next(g + (op + tail)) == op[0]
  {
    HeadInside(op, tail);
    assert op[|op|..] + tail == tail;
    SkipBlank(g, op + tail);
    Skipped(g + (op + tail));
    Skipped(op + tail);
    assert Skip(op + tail) == op + tail;
  }

  lemma OneRedirection(r: string)
    requires Next(r) == '<' || Next(r) == '>'
    requires NextToken(NextToken(r).rest).kind == 'a'
    ensures var file := NextToken(NextToken(r).rest);
            ParseRedirs(r) ==
            match ParseRedirs(file.rest)
            case NoFile => NoFile
            case Redirs(list, end) => Redirs([Redirection(file.text, NextToken(r).kind != '<')] + list, end)
  {
    hide NextToken, Next, Skip;
  }

  /** A redirection reads and writes as its sign says, with any white space before its sign and its file. */
  lemma RedirSpelled(g: string, op: string, h: string, w: string, rest: string)
    requires Blank(g) && Blank(h) && op in {"<", ">", ">>"} && LegalWord(w) && (rest == "" || !IsWordChar(rest[0]))
    ensures ParseRedirs(g + (op + (h + (w + rest)))) ==
            match ParseRedirs(rest)
            case NoFile => NoFile
            case Redirs(list, end) => Redirs([Redirection(w, op != "<")] + list, end)
  {
    var tail := h + (w + rest);
    assert tail[0] != '>' by {
      assert h == "" ==> tail[0] == w[0] && IsWordChar(w[0]);
    }
    SignSpelled(g, op, tail);
    Skipped(tail);
    WordSpelled(h, w, rest);
    RedirsSkipped(rest);
    hide NextToken, Next, Skip, ParseRedirs, LegalWord, Blank;
    OneRedirection(g + (op + tail));
  }

  /** A line with one word on it is that command; a word is made of any characters but these. */
  lemma OneWordLine(g: string, w: string, h: string)
    requires Blank(g) && Blank(h) && w != ""
    requires forall k :: 0 <= k < |w| ==> w[k] !in {' ', '\t', '\r', '\n', 11 as char, '<', '|', '>', '&', ';', '(', ')', '\0'}
    ensures ParseCmd(g + w + h) == Parsed(Exec([w]), "")
  {
    RoundTrip(Exec([w]));
    assert Body(Exec([w])) == w + " " by {
      assert Words([w][1..]) == "";
    }
    SpaceIsFree(w, " ", "");
    assert w + " " + "" == w + " " && w + "" == w;
    SpaceIsFree("", g, w);
    assert "" + g + w == g + w && "" + w == w;
    SpaceIsFree(g + w, h, "");
    assert g + w + h + "" == g + w + h && g + w + "" == g + w;
  }

  /** A line in parentheses is the command in them. */
  lemma Parentheses(t: Cmd)
    requires Legal(t)
    ensures ParseCmd("(" + Body(t) + ")") == Parsed(t, "")
  {
    hide ParseExec, ParsePipe, ParseBacked, ParseBacks, ParseLine, Body, Legal, Skip;
    var line := Body(t) + ") ";
    LineParses(t, ") ");
    BodyTight(t, ") ");
    assert ") " + (RedirsText([]) + "") == ") ";
    BlockParses(line, t, [], "");
    PipeEnds("( " + line, t, "");
    BacksEnd("", t);
    BackedIs("( " + line, t, "");
    LineEnds("( " + line, t, "");
    assert Skip("") == "" by {
      Tighten("");
    }
    hide ParseCmd;
    SpaceIsFree("(", " ", line);
    assert "(" + " " + line == "( " + line;
    SpaceIsFree("(" + Body(t) + ")", " ", "");
    assert "(" + Body(t) + ")" + " " + "" == "(" + line && "(" + Body(t) + ")" + "" == "(" + Body(t) + ")";
  }

  lemma BackedIs(r: string, t: Cmd, rest: string)
    requires ParsePipe(r) == Parsed(t, rest)
    ensures ParseBacked(r) == ParseBacks(rest, t)
  {
  }

  /** White space around a sign and behind the last word can be left out. */
  lemma Tightened(a: string, c: char, b: string)
    requires LegalWord(a) && LegalWord(b) && IsSymbol(c)
    ensures ParseCmd(a + " " + ([c] + " " + (b + " "))) == ParseCmd(a + [c] + b)
    ensures ParseCmd(a + " " + ([c] + " ")) == ParseCmd(a + [c])
  {
    assert IsWordChar(b[0]) && !IsWordChar(c);
    hide ParseCmd, LegalWord, IsWordChar;
    SpaceIsFree(a, " ", [c] + " " + (b + " "));
    SpaceIsFree(a + [c], " ", b + " ");
    SpaceIsFree(a + [c] + b, " ", "");
    assert a + ([c] + " " + (b + " ")) == a + [c] + " " + (b + " ");
    assert a + [c] + (b + " ") == a + [c] + b + " " + "" && a + [c] + b + "" == a + [c] + b;
    SpaceIsFree(a, " ", [c] + " ");
    SpaceIsFree(a + [c], " ", "");
    assert a + ([c] + " ") == a + [c] + " " + "" && a + [c] + "" == a + [c];
  }

  lemma PrintedWord(a: string, level: nat)
    ensures Print(Exec([a]), level) == a + " " && Body(Exec([a])) == a + " "
  {
    assert Words([a][1..]) == "";
  }

  lemma PrintedPair(a: string, b: string)
    ensures var x, y := Exec([a]), Exec([b]);
            && Body(List(x, y)) == a + " " + (";" + " " + (b + " ")) && Body(Pipe(x, y)) == a + " " + ("|" + " " + (b + " "))
            && Body(Back(x)) == a + " " + ("&" + " ")
            && Body(Redir(x, Redirection(b, false))) == a + " " + ("<" + " " + (b + " "))
            && Body(Redir(x, Redirection(b, true))) == a + " " + (">" + " " + (b + " "))
  {
    PrintedWord(a, 0);
    PrintedWord(a, 2);
    PrintedWord(b, 1);
    PrintedWord(b, 3);
    hide Print;
  }

  /** What the signs between words mean. */
  lemma Operators(a: string, b: string)
    requires LegalWord(a) && LegalWord(b)
    ensures ParseCmd(a + ";" + b) == Parsed(List(Exec([a]), Exec([b])), "")
    ensures ParseCmd(a + "|" + b) == Parsed(Pipe(Exec([a]), Exec([b])), "")
    ensures ParseCmd(a + "&") == Parsed(Back(Exec([a])), "")
    ensures ParseCmd(a + "<" + b) == Parsed(Redir(Exec([a]), Redirection(b, false)), "")
    ensures ParseCmd(a + ">" + b) == Parsed(Redir(Exec([a]), Redirection(b, true)), "")
  {
    var x, y := Exec([a]), Exec([b]);
    assert Legal(x) && Legal(y);
    hide ParseCmd, LegalWord, Body, Print;
    PrintedPair(a, b);
    RoundTrip(List(x, y));
    RoundTrip(Pipe(x, y));
    RoundTrip(Back(x));
    RoundTrip(Redir(x, Redirection(b, false)));
    RoundTrip(Redir(x, Redirection(b, true)));
    Tightened(a, ';', b);
    Tightened(a, '|', b);
    Tightened(a, '&', b);
    Tightened(a, '<', b);
    Tightened(a, '>', b);
  }

  // ----- Too many words -----

  lemma LastStraw(w: string, tail: string, argv: seq<string>)
    requires LegalWord(w) && Tight(tail) && |argv| + 1 >= MAXARGS
    ensures ParseWords(w + " " + tail, argv, []).Panic?
  {
    assert IsWordChar(w[0]);
    WordToken(w, tail);
  }

  lemma {:induction false} WordsPanic(left: seq<string>, argv: seq<string>)
    requires |argv| < MAXARGS <= |argv| + |left| && forall w :: w in left ==> LegalWord(w)
    ensures ParseWords(Words(left), argv, []).Panic?
    decreases |left|
  {
    hide ParseWords, LegalWord, ParseRedirs;
    var tail := Words(left[1..]);
    assert Words(left) + "" == Words(left) && tail + "" == tail;
    WordsTight(left, "");
    WordsTight(left[1..], "");
    if |argv| + 1 >= MAXARGS {
      LastStraw(left[0], tail, argv);
    } else {
      WordNext(left[1..], "");
      OneWord(left[0], tail, argv, [], [], tail);
      WordsPanic(left[1..], argv + [left[0]]);
      var none: seq<Redirection> := [];
      assert none + none == none;
    }
  }

  lemma PanicStays(r: string)
    requires Next(r) != '(' && ParseRedirs(r) == Redirs([], r) && ParseWords(r, [], []).Panic?
    ensures ParseCmd(r).Panic?
  {
    hide ParseWords, ParseRedirs, NextToken, Skip, Next;
    assert ParseExec(r).Panic?;
    assert ParsePipe(r).Panic?;
    assert ParseBacked(r).Panic?;
  }

  lemma FirstOf(argv: seq<string>)
    requires argv != [] && forall w :: w in argv ==> LegalWord(w)
    ensures IsWordChar(Next(Words(argv))) && ParseRedirs(Words(argv)) == Redirs([], Words(argv))
  {
    assert LegalWord(argv[0]) && IsWordChar(argv[0][0]);
    hide ParseRedirs, Next, LegalWord, Words;
    WordNext(argv, "");
    WordsTight(argv, "");
    WordsTight(argv[1..], "");
    WordToken(argv[0], Words(argv[1..]) + "");
    assert Words(argv) + "" == Words(argv);
  }

  /** A command has at most nineteen words. */
  lemma ArgsLimit(argv: seq<string>)
    requires forall w :: w in argv ==> LegalWord(w)
    ensures ParseCmd(Words(argv)) == if |argv| < 20 then Parsed(Exec(argv), "") else Panic
  {
    hide ParseCmd, ParseWords, ParseRedirs, Next, Words, LegalWord;
    if |argv| < 20 {
      RoundTrip(Exec(argv));
    } else {
      WordsPanic(argv, []);
      FirstOf(argv);
      PanicStays(Words(argv));
    }
  }
}
