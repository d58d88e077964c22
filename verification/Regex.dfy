/** The regular-expression matcher of grep, proved against the languages its patterns denote.
    A C string is the sequence of its characters before the '\0'. */
module Regex {

  datatype Item = One(c: char) | Many(c: char)

  /** What a pattern means: a sequence of items, to be matched up to the end of the text if
      it ends in a '$'. */
  datatype Pattern = Pattern(items: seq<Item>, toEnd: bool)

  predicate NoNul(s: string) {
    '\0' !in s
  }

  /** The pattern without a leading '^'. A '*' makes the character before it Many, whatever
      that is; a last '$' is an anchor; anything else stands for itself. */
  function Parse(re: string): Pattern {
    if re == "" then Pattern([], false)
    else if |re| >= 2 && re[1] == '*' then var p := Parse(re[2..]); Pattern([Many(re[0])] + p.items, p.toEnd)
    else if re == "$" then Pattern([], true)
    else var p := Parse(re[1..]); Pattern([One(re[0])] + p.items, p.toEnd)
  }

  predicate Accepts(c: char, x: char) {
    c == '.' || c == x
  }

  predicate AllAccepted(c: char, w: string) {
    forall k :: 0 <= k < |w| ==> Accepts(c, w[k])
  }

  /** The language of a sequence of items: one accepted character for each One, any number
      for each Many. */
  ghost predicate In(items: seq<Item>, w: string)
    decreases |items|
  {
    if items == [] then w == ""
    else match items[0]
      case One(c) => w != "" && Accepts(c, w[0]) && In(items[1..], w[1..])
      case Many(c) => exists k :: 0 <= k <= |w| && AllAccepted(c, w[..k]) && In(items[1..], w[k..])
  }

  /** Some prefix of the text is in the language: all of it, if the pattern ends in '$'. */
  ghost predicate Begins(p: Pattern, text: string) {
    exists j :: 0 <= j <= |text| && (p.toEnd ==> j == |text|) && In(p.items, text[..j])
  }

  /** The meaning of a pattern: some part of the text is in its language, from the start if
      it begins with '^', up to the end if it ends in '$'. */
  ghost predicate Found(re: string, text: string) {
    if re != "" && re[0] == '^' then Begins(Parse(re[1..]), text)
    else exists i, j :: 0 <= i <= j <= |text| && (Parse(re).toEnd ==> j == |text|) && In(Parse(re).items, text[i..j])
  }

  function At(s: string, i: nat): char {
    if i < |s| then s[i] else '\0'
  }

  // ----- Unfolding the meaning -----

  lemma BeginsEmpty(toEnd: bool, text: string)
    ensures Begins(Pattern([], toEnd), text) <==> !toEnd || text == ""
  {
    if !toEnd || text == "" {
      assert In([], text[..0]);
    }
  }

  lemma BeginsOne(c: char, p: Pattern, text: string)
    ensures Begins(Pattern([One(c)] + p.items, p.toEnd), text) <==>
      text != "" && Accepts(c, text[0]) && Begins(p, text[1..])
  {
    var items := [One(c)] + p.items;
    assert items[1..] == p.items;
    if j :| 0 <= j <= |text| && (p.toEnd ==> j == |text|) && In(items, text[..j]) {
      assert text[..j][1..] == text[1..][..j - 1];
    }
    if text != "" && Accepts(c, text[0]) && Begins(p, text[1..]) {
      var j :| 0 <= j <= |text| - 1 && (p.toEnd ==> j == |text| - 1) && In(p.items, text[1..][..j]);
      assert text[..j + 1][1..] == text[1..][..j];
      assert In(items, text[..j + 1]);
    }
  }

  lemma BeginsMany(c: char, p: Pattern, text: string)
    ensures Begins(Pattern([Many(c)] + p.items, p.toEnd), text) <==>
      exists k :: 0 <= k <= |text| && AllAccepted(c, text[..k]) && Begins(p, text[k..])
  {
    var items := [Many(c)] + p.items;
    assert items[1..] == p.items;
    if j :| 0 <= j <= |text| && (p.toEnd ==> j == |text|) && In(items, text[..j]) {
      var k :| 0 <= k <= j && AllAccepted(c, text[..j][..k]) && In(p.items, text[..j][k..]);
      assert text[..j][..k] == text[..k] && text[..j][k..] == text[k..][..j - k];
      assert Begins(p, text[k..]);
    }
    if k :| 0 <= k <= |text| && AllAccepted(c, text[..k]) && Begins(p, text[k..]) {
      var j :| 0 <= j <= |text| - k && (p.toEnd ==> j == |text| - k) && In(p.items, text[k..][..j]);
      assert text[..j + k][..k] == text[..k] && text[..j + k][k..] == text[k..][..j];
      assert In(items, text[..j + k]);
    }
  }

  lemma FoundSomewhere(re: string, text: string)
    requires re == "" || re[0] != '^'
    ensures Found(re, text) <==> exists i :: 0 <= i <= |text| && Begins(Parse(re), text[i..])
  {
    var p := Parse(re);
    if i, j :| 0 <= i <= j <= |text| && (p.toEnd ==> j == |text|) && In(p.items, text[i..j]) {
      assert text[i..j] == text[i..][..j - i];
      assert Begins(p, text[i..]);
    }
    if i :| 0 <= i <= |text| && Begins(p, text[i..]) {
      var j :| 0 <= j <= |text| - i && (p.toEnd ==> j == |text| - i) && In(p.items, text[i..][..j]);
      assert text[i..j + i] == text[i..][..j];
    }
  }

  // ----- The matcher -----

  /** match: search for re anywhere in text. */
  method Match(re: string, text: string) returns (r: bool)
    requires NoNul(re) && NoNul(text)
    ensures r <==> Found(re, text)
  {
    if At(re, 0) == '^' {
      r := MatchHere(re[1..], text);
      return;
    }
    FoundSomewhere(re, text);
    var i := 0;
    while true
      invariant i <= |text|
      invariant forall k :: 0 <= k < i ==> !Begins(Parse(re), text[k..])
      decreases |text| - i
    {
      r := MatchHere(re, text[i..]);
      if r {
        return;
      }
      if At(text, i) == '\0' {
        return false;
      }
      i := i + 1;
    }
  }

  /** matchhere: search for re at beginning of text. */
  method MatchHere(re: string, text: string) returns (r: bool)
    requires NoNul(re) && NoNul(text)
    ensures r <==> Begins(Parse(re), text)
    decreases |re|, 0
  {
    if At(re, 0) == '\0' {
      BeginsEmpty(false, text);
      return true;
    }
    if At(re, 1) == '*' {
      r := MatchStar(re[0], re[2..], text);
      return;
    }
    if re[0] == '$' && At(re, 1) == '\0' {
      BeginsEmpty(true, text);
      return At(text, 0) == '\0';
    }
    BeginsOne(re[0], Parse(re[1..]), text);
    if At(text, 0) != '\0' && (re[0] == '.' || re[0] == At(text, 0)) {
      r := MatchHere(re[1..], text[1..]);
      return;
    }
    return false;
  }

  /** matchstar: search for c*re at beginning of text. */
  method MatchStar(c: char, re: string, text: string) returns (r: bool)
    requires NoNul(re) && NoNul(text)
    ensures r <==> Begins(Pattern([Many(c)] + Parse(re).items, Parse(re).toEnd), text)
    decreases |re|, 1
  {
    BeginsMany(c, Parse(re), text);
    var i := 0;
    while true
      invariant i <= |text| && AllAccepted(c, text[..i])
      invariant forall k :: 0 <= k < i ==> !Begins(Parse(re), text[k..])
      decreases |text| - i
    {
      r := MatchHere(re, text[i..]);
      if r {
        return;
      }
      if At(text, i) == '\0' || !(text[i] == c || c == '.') {
        return false;
      }
      i := i + 1;
    }
  }

  // ----- Patterns without and with special characters -----

  predicate Plain(re: string) {
    forall k :: 0 <= k < |re| ==> re[k] != '.' && re[k] != '*' && re[k] != '^' && re[k] != '$'
  }

  function Ones(re: string): seq<Item> {
    if re == "" then [] else [One(re[0])] + Ones(re[1..])
  }

  lemma {:induction false} PlainParsed(re: string, end: string)
    requires Plain(re) && (end == "" || end == "$")
    ensures Parse(re + end) == Pattern(Ones(re), end == "$")
  {
    var all := re + end;
    if re == "" {
      assert all == end;
    } else {
      PlainParsed(re[1..], end);
      assert all[0] == re[0] && all[1..] == re[1..] + end;
      assert |all| >= 2 ==> all[1] == if |re| > 1 then re[1] else '$';
    }
  }

  lemma {:induction false} PlainIn(re: string, w: string)
    requires Plain(re)
    ensures In(Ones(re), w) <==> w == re
  {
    if re != "" {
      assert Ones(re)[1..] == Ones(re[1..]);
      if w != "" {
        PlainIn(re[1..], w[1..]);
        assert w == [w[0]] + w[1..] && re == [re[0]] + re[1..];
      }
    }
  }

  /** Without special characters a pattern stands for itself: anywhere in the text, and with
      '^' and '$' at its beginning, at its end, or for all of it. */
  lemma PlainFound(re: string, text: string)
    requires Plain(re)
    ensures Found(re, text) <==> exists i, j :: 0 <= i <= j <= |text| && text[i..j] == re
    ensures Found("^" + re, text) <==> |re| <= |text| && text[..|re|] == re
    ensures Found(re + "$", text) <==> |re| <= |text| && text[|text| - |re|..] == re
    ensures Found("^" + re + "$", text) <==> text == re
  {
    PlainAnywhere(re, text);
    PlainStart(re, text, "");
    assert "^" + re + "" == "^" + re;
    PlainStart(re, text, "$");
    PlainEnd(re, text);
  }

  lemma PlainAnywhere(re: string, text: string)
    requires Plain(re)
    ensures Found(re, text) <==> exists i, j :: 0 <= i <= j <= |text| && text[i..j] == re
  {
    PlainParsed(re, "");
    assert re + "" == re;
    forall i, j | 0 <= i <= j <= |text| ensures In(Ones(re), text[i..j]) <==> text[i..j] == re {
      PlainIn(re, text[i..j]);
    }
  }

  lemma PlainStart(re: string, text: string, end: string)
    requires Plain(re) && (end == "" || end == "$")
    ensures Found("^" + re + end, text) <==> |re| <= |text| && text[..|re|] == re && (end == "$" ==> |text| == |re|)
  {
    var all := "^" + re + end;
    PlainParsed(re, end);
    assert all[0] == '^' && all[1..] == re + end;
    forall j | 0 <= j <= |text| ensures In(Ones(re), text[..j]) <==> text[..j] == re {
      PlainIn(re, text[..j]);
    }
    if |re| <= |text| && text[..|re|] == re {
      assert In(Ones(re), text[..|re|]);
    }
  }

  lemma PlainEnd(re: string, text: string)
    requires Plain(re)
    ensures Found(re + "$", text) <==> |re| <= |text| && text[|text| - |re|..] == re
  {
    PlainParsed(re, "$");
    assert (re + "$")[0] != '^';
    var n := |text|;
    forall i | 0 <= i <= n ensures In(Ones(re), text[i..n]) <==> text[i..] == re {
      assert text[i..n] == text[i..];
      PlainIn(re, text[i..n]);
    }
    if |re| <= n && text[n - |re|..] == re {
      assert In(Ones(re), text[n - |re|..n]);
    }
  }

  lemma {:induction false} ManyIn(c: char, w: string)
    ensures In([Many(c)], w) <==> forall k :: 0 <= k < |w| ==> c == '.' || w[k] == c
  {
    assert [Many(c)][1..] == [];
    if forall k :: 0 <= k < |w| ==> c == '.' || w[k] == c {
      assert AllAccepted(c, w[..|w|]) && In([], w[|w|..]);
    }
    if k :| 0 <= k <= |w| && AllAccepted(c, w[..k]) && In([], w[k..]) {
      assert w[..k] == w;
    }
  }

  lemma StarParsed(c: char)
    requires c != '*' && c != '$'
    ensures Parse([c] + "*$") == Pattern([Many(c)], true) && Parse([c] + "$") == Pattern([One(c)], true)
  {
    var star, one := [c] + "*$", [c] + "$";
    assert Parse("$") == Pattern([], true) && |"$"| == 1;
    assert star[2..] == "$" && one[1..] == "$";
    assert [Many(c)] + [] == [Many(c)] && [One(c)] + [] == [One(c)];
  }

  lemma OneIn(c: char, w: string)
    ensures In([One(c)], w) <==> |w| == 1 && (c == '.' || w[0] == c)
  {
    assert [One(c)][1..] == [];
  }

  /** '^' and '$' around one item: it must take the whole text. */
  lemma Anchored(re: string, item: Item, text: string)
    requires Parse(re) == Pattern([item], true)
    ensures Found("^" + re, text) <==> In([item], text)
  {
    assert ("^" + re)[0] == '^' && ("^" + re)[1..] == re;
    assert text[..|text|] == text;
  }

  /** A starred character stands for any number of that character, and a starred '.' for
      anything; '.' alone for one character. */
  lemma StarFound(c: char, text: string)
    requires c != '*' && c != '$'
    ensures Found("^" + ([c] + "*$"), text) <==> forall k :: 0 <= k < |text| ==> c == '.' || text[k] == c
    ensures Found("^" + ([c] + "$"), text) <==> |text| == 1 && (c == '.' || text[0] == c)
  {
    StarParsed(c);
    Anchored([c] + "*$", Many(c), text);
    ManyIn(c, text);
    Anchored([c] + "$", One(c), text);
    OneIn(c, text);
  }
}
