/**
 * The matcher of grep.c against the meaning of a pattern: a pattern is a list of items, and it
 * matches a text if the text can be cut into pieces that fit the items one by one.
 */
module Grep {

  datatype Item =
    | One(c: char)     // the character, or any if it is a dot
    | Star(c: char)    // any number of them
    | End              // the end of the text

  /** The items of a pattern without its leading `^`; a `$` is an item of its own only in the last place. */
  function Items(re: string): (s: seq<Item>) {
    if re == "" then []
    else if |re| > 1 && re[1] == '*' then [Star(re[0])] + Items(re[2..])
    else if re == "$" then [End]
    else [One(re[0])] + Items(re[1..])
  }

  predicate CharFits(c: char, x: char) {
    c == '.' || c == x
  }

  /** The first `n` characters of the text fit the item. */
  predicate ItemFits(item: Item, text: string, n: nat) {
    && n <= |text|
    && match item
       case One(c) => n == 1 && CharFits(c, text[0])
       case Star(c) => forall k :: 0 <= k < n ==> CharFits(c, text[k])
       case End => n == 0 && text == ""
  }

  /** The text starts with pieces of the lengths `cuts` that fit the items. */
  predicate Fits(items: seq<Item>, cuts: seq<nat>, text: string)
    decreases |items|
  {
    && |cuts| == |items|
    && (items != [] ==> ItemFits(items[0], text, cuts[0]) && Fits(items[1..], cuts[1..], text[cuts[0]..]))
  }

  /** The pattern fits at the start of the text. */
  ghost predicate Here(items: seq<Item>, text: string) {
    exists cuts :: Fits(items, cuts, text)
  }

  /** What a pattern means: anchored by `^`, or anywhere in the text. */
  ghost predicate Means(re: string, text: string) {
    if re != "" && re[0] == '^' then Here(Items(re[1..]), text)
    else exists i :: 0 <= i <= |text| && Here(Items(re), text[i..])
  }

  lemma HereNone(text: string)
    ensures Here([], text)
  {
    assert Fits([], [], text);
  }

  /** A pattern fits if its first item fits some piece and the other items what comes after it. */
  lemma HereFirst(items: seq<Item>, text: string)
    requires items != []
    ensures Here(items, text) <==> exists n: nat :: ItemFits(items[0], text, n) && Here(items[1..], text[n..])
  {
    if cuts :| Fits(items, cuts, text) {
      assert ItemFits(items[0], text, cuts[0]) && Fits(items[1..], cuts[1..], text[cuts[0]..]);
    }
    if n: nat :| ItemFits(items[0], text, n) && Here(items[1..], text[n..]) {
      var cuts :| Fits(items[1..], cuts, text[n..]);
      assert ([n] + cuts)[1..] == cuts;
      assert Fits(items, [n] + cuts, text);
    }
  }

  // ----- What patterns mean -----

  /** None of the characters has a meaning of its own. */
  predicate Plain(lit: string) {
    forall k :: 0 <= k < |lit| ==> lit[k] !in {'^', '$', '.', '*'}
  }

  lemma {:induction false} ItemsFirst(re: string)
    requires re != "" && re[0] != '$' && (|re| > 1 ==> re[1] != '*')
    ensures Items(re) == [One(re[0])] + Items(re[1..])
  {
  }

  lemma {:induction false} PlainFirst(lit: string, re: string)
    requires lit != "" && Plain(lit) && (re == "" || re[0] != '*')
    ensures Items(lit + re) == [One(lit[0])] + Items(lit[1..] + re)
  {
    hide Items;
    var r := lit + re;
    assert r[0] == lit[0] && r[1..] == lit[1..] + re;
    if |r| > 1 {
      assert r[1] == if |lit| > 1 then lit[1] else re[0];
    }
    ItemsFirst(r);
  }

  /** Plain characters fit themselves. */
  lemma {:induction false} PlainHere(lit: string, re: string, text: string)
    requires Plain(lit) && (re == "" || re[0] != '*')
    ensures Here(Items(lit + re), text) <==> lit <= text && Here(Items(re), text[|lit|..])
  {
    if lit == "" {
      assert lit + re == re && text[0..] == text;
    } else {
      var r := lit + re;
      PlainFirst(lit, re);
      assert Items(r)[0] == One(lit[0]) && Items(r)[1..] == Items(lit[1..] + re);
      HereFirst(Items(r), text);
      if text != "" {
        PlainHere(lit[1..], re, text[1..]);
        assert |lit| <= |text| ==> text[1..][|lit| - 1..] == text[|lit|..];
        assert lit <= text <==> lit[0] == text[0] && lit[1..] <= text[1..];
        assert ItemFits(One(lit[0]), text, 1) <==> lit[0] == text[0];
      }
    }
  }

  /** A pattern of plain characters means that they occur in the text. */
  lemma PlainMeans(lit: string, text: string)
    requires Plain(lit)
    ensures Means(lit, text) <==> exists i :: 0 <= i <= |text| && lit <= text[i..]
  {
    forall i | 0 <= i <= |text| ensures Here(Items(lit), text[i..]) <==> lit <= text[i..] {
      PlainHere(lit, "", text[i..]);
      assert lit + "" == lit;
      HereNone(text[i..][if |lit| <= |text[i..]| then |lit| else 0..]);
    }
  }

  /** Between `^` and `$` they are the whole text. */
  lemma WholeMeans(lit: string, text: string)
    requires Plain(lit)
    ensures Means("^" + lit + "$", text) <==> text == lit
  {
    var re := "^" + lit + "$";
    assert re[1..] == lit + "$";
    PlainHere(lit, "$", text);
    if lit <= text {
      EndHere(text[|lit|..]);
    }
  }

  lemma EndHere(text: string)
    ensures Here(Items("$"), text) <==> text == ""
  {
    HereFirst(Items("$"), text);
    HereNone(text);
    assert Items("$")[1..] == [];
    if text == "" {
      assert ItemFits(End, text, 0) && text[0..] == text;
    }
  }

  /** A dot fits any one character, and `c*` any number of the character `c`. */
  lemma DotAndStar(c: char, text: string)
    requires c !in {'^', '$', '.', '*'}
    ensures Means("^.$", text) <==> |text| == 1
    ensures Means("^" + [c] + "*$", text) <==> forall k :: 0 <= k < |text| ==> text[k] == c
    ensures Means("^.*$", text)
  {
    DotHere(text);
    assert "^.$"[1..] == ".$" && "^.*$"[1..] == ".*$";
    StarHere(c, text);
    StarHere('.', text);
    assert ("^" + [c] + "*$")[1..] == [c] + "*$";
    assert ['.'] + "*$" == ".*$";
  }

  lemma DotHere(text: string)
    ensures Here(Items(".$"), text) <==> |text| == 1
  {
    assert ".$"[1..] == "$";
    assert Items(".$") == [One('.')] + Items("$");
    assert Items(".$")[1..] == Items("$");
    HereFirst(Items(".$"), text);
    if text != "" {
      EndHere(text[1..]);
      assert ItemFits(One('.'), text, 1);
    }
  }

  lemma StarHere(c: char, text: string)
    requires c !in {'^', '$', '*'}
    ensures Here(Items([c] + "*$"), text) <==> forall k :: 0 <= k < |text| ==> c == '.' || text[k] == c
  {
    var re := [c] + "*$";
    assert re[1] == '*' && re[2..] == "$";
    assert Items(re) == [Star(c)] + Items("$");
    assert Items(re)[1..] == Items("$");
    HereFirst(Items(re), text);
    EndHere("");
    if n: nat :| ItemFits(Star(c), text, n) && Here(Items("$"), text[n..]) {
      EndHere(text[n..]);
      assert n == |text|;
    }
    if forall k :: 0 <= k < |text| ==> c == '.' || text[k] == c {
      assert ItemFits(Star(c), text, |text|) && text[|text|..] == "";
    }
  }

  // ----- The matcher -----

  /** grep.c:73-82 */
  method Match(re: string, text: string) returns (b: bool)
    ensures b <==> Means(re, text)
  {
    if re != "" && re[0] == '^' {
      b := MatchHere(re[1..], text);
      return;
    }
    var i := 0;
    while true
      invariant 0 <= i <= |text| && forall j :: 0 <= j < i ==> !Here(Items(re), text[j..])
      decreases |text| - i
    {
      b := MatchHere(re, text[i..]);
      if b || i == |text| {
        return;
      }
      i := i + 1;
    }
  }

  /** grep.c:85-96 */
  method MatchHere(re: string, text: string) returns (b: bool)
    ensures b <==> Here(Items(re), text)
    decreases |re|, 0
  {
    if re == "" {
      HereNone(text);
      return true;
    }
    HereFirst(Items(re), text);
    if |re| > 1 && re[1] == '*' {
      assert Items(re)[1..] == Items(re[2..]);
      b := MatchStar(re[0], re[2..], text);
    } else if re == "$" {
      HereNone(text);
      b := text == "";
      assert b ==> ItemFits(End, text, 0) && text[0..] == text;
    } else {
      assert Items(re)[1..] == Items(re[1..]);
      b := text != "" && (re[0] == '.' || re[0] == text[0]);
      if b {
        assert ItemFits(One(re[0]), text, 1);
        b := MatchHere(re[1..], text[1..]);
      }
    }
  }

  /** grep.c:99-106 */
  method MatchStar(c: char, re: string, text: string) returns (b: bool)
    ensures b <==> exists n: nat :: ItemFits(Star(c), text, n) && Here(Items(re), text[n..])
    decreases |re|, 1
  {
    var i := 0;
    while true
      invariant ItemFits(Star(c), text, i)
      invariant forall n: nat :: n < i ==> !Here(Items(re), text[n..])
      decreases |text| - i
    {
      b := MatchHere(re, text[i..]);
      if b {
        return;
      }
      if i == |text| || !(text[i] == c || c == '.') {
        return;
      }
      i := i + 1;
    }
  }
}
