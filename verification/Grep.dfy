/** grep's own loop: read into a fixed buffer, print the lines that match, keep the rest. */
module Grep {
  import opened Options
  import opened Regex

  const SIZE: nat := 1024

  // ----- What is printed -----

  /** strchr(p, '\n'): the first newline, if no '\0' comes before it. */
  function Newline(b: string): (r: Option<nat>)
    ensures r.Some? ==> r.value < |b|
  {
    if b == "" || b[0] == '\0' then None
    else if b[0] == '\n' then Some(0)
    else
      var r := Newline(b[1..]);
      if r.None? then None else Some(r.value + 1)
  }

  lemma {:induction false} NewlineFirst(b: string)
    ensures Newline(b).Some? ==>
      var i := Newline(b).value; b[i] == '\n' && forall k :: 0 <= k < i ==> b[k] != '\n' && b[k] != '\0'
    ensures Newline(b).None? && NoNul(b) ==> '\n' !in b
  {
    if b != "" {
      NewlineFirst(b[1..]);
      assert b == [b[0]] + b[1..];
    }
  }

  /** The lines of b that match, each with its newline; what follows the last newline is not
      a line. */
  ghost function Printed(re: string, b: string): string
    decreases |b|
  {
    match Newline(b)
    case None => ""
    case Some(i) => (if Found(re, b[..i]) then b[..i + 1] else "") + Printed(re, b[i + 1..])
  }

  /** What follows the last newline. */
  function Rest(b: string): (r: string)
    ensures |r| <= |b| && (Newline(b).Some? ==> |r| < |b|)
    decreases |b|
  {
    match Newline(b)
    case None => b
    case Some(i) => Rest(b[i + 1..])
  }

  /** What grep carries over to the next read: nothing, if the buffer had no newline at all. */
  function Carried(b: string): (r: string)
    ensures |r| <= |b| && (b != "" ==> |r| < |b|)
  {
    if Newline(b).None? then "" else Rest(b)
  }

  /** What read may return, read after read. */
  predicate Served(carry: string, chunks: seq<string>)
    decreases |chunks|
  {
    chunks == [] || (0 < |chunks[0]| <= SIZE - |carry| - 1 && Served(Carried(carry + chunks[0]), chunks[1..]))
  }

  ghost function Output(re: string, carry: string, chunks: seq<string>): string
    decreases |chunks|
  {
    if chunks == [] then ""
    else Printed(re, carry + chunks[0]) + Output(re, Carried(carry + chunks[0]), chunks[1..])
  }

  lemma LineStep(re: string, b: string, i: nat)
    requires Newline(b) == Some(i)
    ensures NoNul(b[..i]) && b[i] == '\n' && i < |b|
    ensures Printed(re, b) == (if Found(re, b[..i]) then b[..i + 1] else "") + Printed(re, b[i + 1..])
    ensures Rest(b) == Rest(b[i + 1..])
  {
    NewlineFirst(b);
  }

  lemma Regroup(a: string, b: string, c: string)
    ensures a + (b + c) == a + b + c
  {
  }

  function Lines(lines: seq<string>): string {
    if lines == [] then "" else lines[0] + "\n" + Lines(lines[1..])
  }

  ghost function Matching(re: string, lines: seq<string>): seq<string> {
    if lines == [] then [] else (if Found(re, lines[0]) then [lines[0]] else []) + Matching(re, lines[1..])
  }

  lemma {:induction false} NewlineBehindLine(line: string, z: string)
    requires NoNul(line) && '\n' !in line
    ensures Newline(line + "\n" + z) == Some(|line|)
  {
    var b := line + "\n" + z;
    if line != "" {
      assert b[1..] == line[1..] + "\n" + z && b[0] == line[0];
      NewlineBehindLine(line[1..], z);
    }
  }

  /** Of a text that consists of lines the matching ones are printed, and the part of a line
      behind them is left. */
  lemma {:induction false} PrintedLines(re: string, lines: seq<string>, part: string)
    requires NoNul(part) && '\n' !in part && forall k :: 0 <= k < |lines| ==> NoNul(lines[k]) && '\n' !in lines[k]
    ensures Printed(re, Lines(lines) + part) == Lines(Matching(re, lines)) && Rest(Lines(lines) + part) == part
  {
    var b := Lines(lines) + part;
    if lines == [] {
      assert b == part;
      NoNewline(part);
    } else {
      var line, rest := lines[0], lines[1..];
      var tail := Lines(rest) + part;
      assert b == line + "\n" + tail;
      NewlineBehindLine(line, tail);
      assert b[..|line|] == line && b[..|line| + 1] == line + "\n" && b[|line| + 1..] == tail;
      PrintedLines(re, rest, part);
      if Found(re, line) {
        assert ([line] + Matching(re, rest))[1..] == Matching(re, rest);
      } else {
        assert [] + Matching(re, rest) == Matching(re, rest);
        assert "" + Printed(re, tail) == Printed(re, tail);
      }
    }
  }

  // ----- Whatever the reads, lines are printed whole -----

  lemma {:induction false} NewlineAppend(b: string, z: string)
    requires Newline(b).Some?
    ensures Newline(b + z) == Newline(b)
  {
    assert (b + z)[1..] == b[1..] + z;
    if b[0] != '\n' {
      NewlineAppend(b[1..], z);
    }
  }

  lemma AppendSlices(b: string, z: string, i: nat)
    requires i < |b|
    ensures (b + z)[..i] == b[..i] && (b + z)[..i + 1] == b[..i + 1] && (b + z)[i + 1..] == b[i + 1..] + z
  {
  }

  /** Lines already complete are printed the same whatever follows. */
  lemma {:induction false} PrintedAppend(re: string, b: string, z: string)
    ensures Printed(re, b + z) == Printed(re, b) + Printed(re, Rest(b) + z)
    decreases |b|
  {
    match Newline(b)
    case None =>
    case Some(i) =>
      var line := if Found(re, b[..i]) then b[..i + 1] else "";
      NewlineAppend(b, z);
      AppendSlices(b, z, i);
      LineStep(re, b, i);
      LineStep(re, b + z, i);
      PrintedAppend(re, b[i + 1..], z);
      Regroup(line, Printed(re, b[i + 1..]), Printed(re, Rest(b) + z));
  }

  function Concat(chunks: seq<string>): string {
    if chunks == [] then "" else chunks[0] + Concat(chunks[1..])
  }

  /** No buffer without a newline is followed by a newline in a later read: what grep throws
      away would not have been part of a line. */
  predicate NothingCut(carry: string, chunks: seq<string>)
    decreases |chunks|
  {
    if chunks == [] then true
    else if Newline(carry + chunks[0]).Some? then NothingCut(Rest(carry + chunks[0]), chunks[1..])
    else '\n' !in Concat(chunks[1..])
  }

  lemma {:induction false} NewlineBehind(b: string, z: string)
    requires NoNul(b) && '\n' !in b
    ensures Newline(b + z) == if Newline(z).Some? then Some(|b| + Newline(z).value) else None
  {
    if b == "" {
      assert b + z == z;
    } else {
      assert (b + z)[1..] == b[1..] + z;
      NewlineBehind(b[1..], z);
    }
  }

  /** A line that only begins in b ends in z. */
  lemma RestBehind(b: string, z: string)
    requires NoNul(b) && '\n' !in b
    ensures Rest(b + z) == if Newline(z).Some? then Rest(z) else b + z
  {
    NewlineBehind(b, z);
    if Newline(z).Some? {
      var i := Newline(z).value;
      assert (b + z)[|b| + i + 1..] == z[i + 1..];
    }
  }

  lemma RestStep(b: string, i: nat)
    requires Newline(b) == Some(i)
    ensures Rest(b) == Rest(b[i + 1..])
  {
  }

  lemma {:induction false} RestAppend(b: string, z: string)
    ensures Rest(b + z) == Rest(Rest(b) + z)
    decreases |b|
  {
    if Newline(b).Some? {
      var i := Newline(b).value;
      NewlineAppend(b, z);
      AppendSlices(b, z, i);
      RestStep(b + z, i);
      RestStep(b, i);
      RestAppend(b[i + 1..], z);
    }
  }

  lemma EmptyFound(text: string)
    ensures Found("", text)
  {
    assert text[0..0] == "" && In(Parse("").items, text[0..0]);
  }

  /** The empty pattern is in every line. */
  lemma {:induction false} AllPrinted(b: string)
    ensures |Printed("", b)| == |b| - |Rest(b)|
    decreases |b|
  {
    match Newline(b)
    case None =>
    case Some(i) =>
      EmptyFound(b[..i]);
      AllPrinted(b[i + 1..]);
  }

  lemma NoNewline(b: string)
    requires NoNul(b)
    ensures Newline(b).None? <==> '\n' !in b
  {
    NewlineFirst(b);
  }

  /** With the empty pattern no more is printed than the whole lines of the text. */
  lemma {:induction false} OutputLength(carry: string, chunks: seq<string>)
    requires NoNul(carry + Concat(chunks))
    ensures |Output("", carry, chunks)| <= |carry + Concat(chunks)| - |Rest(carry + Concat(chunks))|
    decreases |chunks|
  {
    if chunks != [] {
      var b, rest := carry + chunks[0], Concat(chunks[1..]);
      Regroup(carry, chunks[0], rest);
      NoNulPrefix(b, rest);
      AllPrinted(b);
      NoNewline(b);
      RestIsSuffix(b);
      if Newline(b).Some? {
        DropPrefix(b, rest, |b| - |Rest(b)|);
        RestAppend(b, rest);
        OutputLength(Rest(b), chunks[1..]);
      } else {
        DropPrefix(b, rest, |b|);
        RestBehind(b, rest);
        assert "" + rest == rest;
        OutputLength("", chunks[1..]);
      }
    }
  }

  /** Where there is no newline nothing is printed. */
  lemma {:induction false} NothingPrinted(re: string, carry: string, chunks: seq<string>)
    requires '\n' !in carry + Concat(chunks) && NoNul(carry + Concat(chunks))
    ensures Output(re, carry, chunks) == "" && Printed(re, carry + Concat(chunks)) == ""
    decreases |chunks|
  {
    NoNewline(carry + Concat(chunks));
    if chunks != [] {
      var b, rest := carry + chunks[0], Concat(chunks[1..]);
      Regroup(carry, chunks[0], rest);
      NoNulPrefix(b, rest);
      NoNewline(b);
      assert "" + rest == rest;
      NothingPrinted(re, "", chunks[1..]);
    }
  }

  lemma {:induction false} NothingCutPrints(re: string, carry: string, chunks: seq<string>)
    requires NothingCut(carry, chunks) && NoNul(carry + Concat(chunks)) && Newline(carry).None?
    ensures Output(re, carry, chunks) == Printed(re, carry + Concat(chunks))
    decreases |chunks|
  {
    if chunks == [] {
      assert carry + "" == carry;
    } else {
      var b, rest := carry + chunks[0], Concat(chunks[1..]);
      Regroup(carry, chunks[0], rest);
      NoNulPrefix(b, rest);
      NoNewline(b);
      if Newline(b).Some? {
        PrintedAppend(re, b, rest);
        RestHasNone(b);
        RestNoNul(b, rest);
        NothingCutPrints(re, Rest(b), chunks[1..]);
      } else {
        NothingPrinted(re, carry, chunks);
      }
    }
  }

  lemma RestNoNul(b: string, z: string)
    requires NoNul(b + z)
    ensures NoNul(Rest(b) + z)
  {
    RestIsSuffix(b);
    DropPrefix(b, z, |b| - |Rest(b)|);
    assert forall c :: c in (b + z)[|b| - |Rest(b)|..] ==> c in b + z;
  }

  /** What is cut off is missing from the output of the empty pattern. */
  lemma {:induction false} CutIsMissing(carry: string, chunks: seq<string>)
    requires !NothingCut(carry, chunks) && NoNul(carry + Concat(chunks)) && Served(carry, chunks)
    ensures Output("", carry, chunks) != Printed("", carry + Concat(chunks))
    decreases |chunks|
  {
    var b, rest := carry + chunks[0], Concat(chunks[1..]);
    Regroup(carry, chunks[0], rest);
    NoNulPrefix(b, rest);
    NoNewline(b);
    if Newline(b).Some? {
      PrintedAppend("", b, rest);
      RestNoNul(b, rest);
      CutIsMissing(Rest(b), chunks[1..]);
      Differ(Printed("", b), Output("", Rest(b), chunks[1..]), Printed("", Rest(b) + rest));
    } else {
      CutHere(b, chunks[1..]);
    }
  }

  lemma Differ(a: string, x: string, y: string)
    requires x != y
    ensures a + x != a + y
  {
    assert (a + x)[|a|..] == x && (a + y)[|a|..] == y;
  }

  /** A buffer is thrown away, and a newline follows. */
  lemma CutHere(b: string, chunks: seq<string>)
    requires b != "" && NoNul(b + Concat(chunks)) && Newline(b).None? && '\n' in Concat(chunks)
    ensures Output("", "", chunks) != Printed("", b + Concat(chunks))
  {
    var rest := Concat(chunks);
    NoNulPrefix(b, rest);
    NoNewline(b);
    RestNoNul(b, rest);
    assert NoNul(rest) by {
      assert forall c :: c in rest ==> c in b + rest;
    }
    NoNewline(rest);
    RestBehind(b, rest);
    AllPrinted(b + rest);
    assert "" + rest == rest;
    OutputLength("", chunks);
  }

  /** Whatever read returns, grep prints exactly the matching lines of a text without '\0',
      for every pattern, exactly when no buffer without a newline is followed by a newline. */
  lemma PrintsExactlyWhen(chunks: seq<string>)
    requires Served("", chunks) && NoNul(Concat(chunks))
    ensures (forall re :: Output(re, "", chunks) == Printed(re, Concat(chunks))) <==> NothingCut("", chunks)
  {
    assert "" + Concat(chunks) == Concat(chunks);
    if NothingCut("", chunks) {
      forall re ensures Output(re, "", chunks) == Printed(re, Concat(chunks)) {
        NothingCutPrints(re, "", chunks);
      }
    } else {
      CutIsMissing("", chunks);
    }
  }

  lemma {:induction false} RestHasNone(b: string)
    ensures Newline(Rest(b)).None?
    decreases |b|
  {
    if Newline(b).Some? {
      RestHasNone(b[Newline(b).value + 1..]);
    }
  }

  /** Every 1023 characters in a row have a newline among them. */
  ghost predicate ShortLines(text: string) {
    NoNul(text) && forall i: nat :: NewlineWithin(text, i)
  }

  predicate NewlineWithin(text: string, i: nat) {
    i + SIZE - 1 <= |text| ==> '\n' in text[i..i + SIZE - 1]
  }

  /** read fills the buffer, except at the end of the file. */
  predicate FullReads(carry: string, chunks: seq<string>)
    decreases |chunks|
  {
    |chunks| <= 1 || (|carry| + |chunks[0]| == SIZE - 1 && FullReads(Carried(carry + chunks[0]), chunks[1..]))
  }

  lemma {:induction false} RestIsSuffix(b: string)
    ensures b[|b| - |Rest(b)|..] == Rest(b)
    decreases |b|
  {
    if Newline(b).Some? {
      var t := b[Newline(b).value + 1..];
      RestIsSuffix(t);
      assert b[|b| - |Rest(b)|..] == t[|t| - |Rest(b)|..];
    }
  }

  lemma ShortSuffix(text: string, k: nat)
    requires ShortLines(text) && k <= |text|
    ensures ShortLines(text[k..])
  {
    forall i: nat ensures NewlineWithin(text[k..], i) {
      assert NewlineWithin(text, k + i);
      if i + SIZE - 1 <= |text| - k {
        assert text[k..][i..i + SIZE - 1] == text[k + i..k + i + SIZE - 1];
      }
    }
  }

  lemma FullHasNewline(b: string, rest: string)
    requires |b| == SIZE - 1 && NewlineWithin(b + rest, 0)
    ensures '\n' in b
  {
    assert (b + rest)[0..SIZE - 1] == b;
  }

  lemma NoNulPrefix(b: string, rest: string)
    requires NoNul(b + rest)
    ensures NoNul(b)
  {
    assert forall k :: 0 <= k < |b| ==> (b + rest)[k] == b[k];
  }

  lemma DropPrefix(b: string, rest: string, k: nat)
    requires k <= |b|
    ensures (b + rest)[k..] == b[k..] + rest
  {
  }

  /** A full buffer of such a file has a newline, and so it goes on. */
  lemma FeedOne(b: string, rest: string)
    requires |b| == SIZE - 1 && ShortLines(b + rest)
    ensures Newline(b).Some? && ShortLines(Rest(b) + rest)
  {
    var k := |b| - |Rest(b)|;
    FullHasNewline(b, rest);
    NoNulPrefix(b, rest);
    NewlineFirst(b);
    RestIsSuffix(b);
    DropPrefix(b, rest, k);
    ShortSuffix(b + rest, k);
  }

  lemma {:induction false} FileFeeds(carry: string, chunks: seq<string>)
    requires FullReads(carry, chunks) && ShortLines(carry + Concat(chunks))
    ensures NothingCut(carry, chunks)
    decreases |chunks|
  {
    if |chunks| > 1 {
      var b, rest := carry + chunks[0], Concat(chunks[1..]);
      Regroup(carry, chunks[0], rest);
      FeedOne(b, rest);
      FileFeeds(Rest(b), chunks[1..]);
    } else if chunks != [] {
      assert chunks[1..] == [];
    }
  }

  /** On a file whose lines are shorter than the buffer grep prints exactly its matching lines. */
  lemma GrepOnFile(re: string, chunks: seq<string>)
    requires FullReads("", chunks) && ShortLines(Concat(chunks))
    ensures Output(re, "", chunks) == Printed(re, Concat(chunks))
  {
    assert "" + Concat(chunks) == Concat(chunks);
    FileFeeds("", chunks);
    NothingCutPrints(re, "", chunks);
  }

  lemma {:induction false} OneLine(b: string)
    requires NoNul(b) && '\n' !in b
    ensures Newline(b).None? && Newline(b + "\n") == Some(|b|)
  {
    if b != "" {
      assert (b + "\n")[1..] == b[1..] + "\n";
      assert forall c :: c in b[1..] ==> c in b;
      OneLine(b[1..]);
    }
  }

  lemma PrintedLine(re: string, b: string)
    requires NoNul(b) && '\n' !in b
    ensures Printed(re, b) == "" && Carried(b) == "" && Carried(b + "\n") == ""
    ensures Printed(re, b + "\n") == if Found(re, b) then b + "\n" else ""
  {
    OneLine(b);
    assert (b + "\n")[..|b|] == b && (b + "\n")[..|b| + 1] == b + "\n" && (b + "\n")[|b| + 1..] == "";
  }

  /** On a pipe a short read loses the beginning of a line: a buffer without a newline is
      thrown away although it is not full. Only the end of the line is matched and printed. */
  lemma ShortReadLosesLine(re: string, a: string, b: string)
    requires NoNul(a + b) && '\n' !in a + b && 0 < |a| < 1000 && |b| < 1000
    ensures Served("", [a, b + "\n"])
    ensures Printed(re, a + b + "\n") == if Found(re, a + b) then a + b + "\n" else ""
    ensures Output(re, "", [a, b + "\n"]) == if Found(re, b) then b + "\n" else ""
  {
    assert forall c :: c in a || c in b ==> c in a + b;
    PrintedLine(re, a);
    PrintedLine(re, b);
    PrintedLine(re, a + b);
    TwoReads(re, a, b + "\n");
  }

  lemma TwoReads(re: string, a: string, b: string)
    requires 0 < |a| < 1000 && 0 < |b| < 1001 && Carried(a) == "" && Printed(re, a) == ""
    ensures Served("", [a, b]) && Output(re, "", [a, b]) == Printed(re, b)
  {
    assert "" + a == a && "" + b == b && [a, b][1..] == [b] && [b][1..] == [];
    assert Output(re, "", [b]) == Printed(re, b) + Output(re, Carried(b), []);
  }

  /** The first line of what is in b[p..m], and what is left. */
  lemma FirstLine(re: string, b: string, todo: string, p: nat, q: nat, m: nat)
    requires p <= q < m <= |b| && b[p..m] == todo && Newline(todo) == Some(q - p)
    ensures NoNul(b[p..q]) && b[q] == '\n' && b[q + 1..m] == todo[q + 1 - p..]
    ensures Printed(re, todo) == (if Found(re, b[p..q]) then b[p..q + 1] else "") + Printed(re, todo[q + 1 - p..])
    ensures Rest(todo) == Rest(todo[q + 1 - p..])
  {
    LineStep(re, todo, q - p);
    assert b[p..q] == todo[..q - p] && b[p..q + 1] == todo[..q - p + 1];
  }

  predicate Beyond(b: string, b': string, k: nat) {
    k <= |b| == |b'| && b[k..] == b'[k..]
  }

  lemma BeyondSlice(b: string, b': string, k: nat, m: nat)
    requires Beyond(b, b', k) && k <= m < |b|
    ensures b[k..m] == b'[k..m] && b[m] == b'[m]
  {
    assert b[k..m] == b[k..][..m - k] && b'[k..m] == b'[k..][..m - k];
    assert b[m] == b[k..][m - k] && b'[m] == b'[k..][m - k];
  }

  // ----- The program -----

  class Buffer {
    const buf: array<char>

    constructor ()
      ensures fresh(buf) && buf.Length == SIZE
    {
      buf := new char[SIZE];
    }

    /** strchr on the string that starts at p. */
    method Strchr(p: nat, m: nat) returns (q: Option<nat>)
      requires p <= m < buf.Length && buf[m] == '\0'
      ensures q == match Newline(buf[p..m]) case None => None case Some(i) => Some(p + i)
    {
      var i := p;
      while buf[i] != '\0'
        invariant p <= i <= m
        invariant Newline(buf[p..m]) == match Newline(buf[i..m]) case None => None case Some(k) => Some(i - p + k)
        decreases m - i
      {
        if buf[i] == '\n' {
          return Some(i);
        }
        assert buf[i..m][1..] == buf[i + 1..m];
        i := i + 1;
      }
      return None;
    }

    /** One line: cut it off with a '\0', match it, and print it with its newline. */
    method PrintLine(pattern: string, p: nat, q: nat) returns (out: string)
      requires NoNul(pattern) && p <= q < buf.Length && buf[q] == '\n' && NoNul(buf[..][p..q])
      modifies buf
      ensures out == if Found(pattern, old(buf[..])[p..q]) then old(buf[..])[p..q + 1] else ""
      ensures Beyond(buf[..], old(buf[..]), q + 1)
    {
      assert buf[p..q] == buf[..][p..q];
      out := "";
      buf[q] := '\0';
      assert buf[p..q] == old(buf[p..q]);
      var found := Match(pattern, buf[p..q]);
      if found {
        buf[q] := '\n';
        out := buf[p..q + 1];
      }
    }

    /** What is still to be dealt with, in buf[p..m]. */
    ghost predicate Holds(todo: string, p: nat, m: nat)
      reads buf
    {
      p <= m < buf.Length && |todo| == m - p && buf[..][m] == '\0' && buf[..][p..m] == todo
    }

    method FindNewline(p: nat, m: nat, ghost todo: string) returns (q: Option<nat>)
      requires Holds(todo, p, m)
      ensures if q.None? then Newline(todo) == None else p <= q.value < m && Newline(todo) == Some(q.value - p)
    {
      assert buf[p..m] == buf[..][p..m];
      q := Strchr(p, m);
    }

    method NextLine(pattern: string, p: nat, q: nat, m: nat, ghost todo: string) returns (line: string, ghost todo': string)
      requires NoNul(pattern) && Holds(todo, p, m) && p <= q < m && Newline(todo) == Some(q - p)
      modifies buf
      ensures Holds(todo', q + 1, m)
      ensures Printed(pattern, todo) == line + Printed(pattern, todo') && Rest(todo) == Rest(todo')
    {
      todo' := todo[q + 1 - p..];
      FirstLine(pattern, buf[..], todo, p, q, m);
      line := PrintLine(pattern, p, q);
      assert Beyond(buf[..], old(buf[..]), q + 1);
      BeyondSlice(buf[..], old(buf[..]), q + 1, m);
    }

    /** The lines in buf[..m]; p is where the rest begins. */
    method PrintLines(pattern: string, m: nat) returns (p: nat, out: string)
      requires NoNul(pattern) && buf.Length == SIZE && m < SIZE && buf[m] == '\0'
      modifies buf
      ensures p <= m && buf[p..m] == Rest(old(buf[..m])) && out == Printed(pattern, old(buf[..m]))
      ensures p == 0 <==> Newline(old(buf[..m])).None?
    {
      p, out := 0, "";
      ghost var todo := buf[..m];
      ghost var all, rest := Printed(pattern, todo), Rest(todo);
      assert buf[0..m] == buf[..m];
      var q := FindNewline(p, m, todo);
      ghost var some := q.Some?;
      while q.Some?
        invariant Holds(todo, p, m)
        invariant if q.None? then Newline(todo) == None else p <= q.value < m && Newline(todo) == Some(q.value - p)
        invariant out + Printed(pattern, todo) == all
        invariant Rest(todo) == rest
        invariant if p == 0 then some == q.Some? else some
        decreases m - p
      {
        var line;
        line, todo := NextLine(pattern, p, q.value, m, todo);
        Regroup(out, line, Printed(pattern, todo));
        out := out + line;
        p := q.value + 1;
        q := FindNewline(p, m, todo);
      }
    }

    /** grep(). `chunks` are the results of read until it returns 0. */
    method Grep(pattern: string, chunks: seq<string>) returns (out: string)
      requires NoNul(pattern) && buf.Length == SIZE && Served("", chunks)
      modifies buf
      ensures out == Output(pattern, "", chunks)
    {
      out := "";
      var m: nat := 0;
      for k := 0 to |chunks|
        invariant m < SIZE && Served(buf[..m], chunks[k..])
        invariant out + Output(pattern, buf[..m], chunks[k..]) == Output(pattern, "", chunks)
      {
        assert chunks[k..][1..] == chunks[k + 1..];
        ghost var rest := Output(pattern, Carried(buf[..m] + chunks[k]), chunks[k + 1..]);
        var line;
        m, line := OneRead(pattern, m, chunks[k]);
        Regroup(out, line, rest);
        out := out + line;
      }
    }

    /** One turn of grep's loop: m is what stays in the buffer. */
    method OneRead(pattern: string, m: nat, chunk: string) returns (m': nat, out: string)
      requires NoNul(pattern) && buf.Length == SIZE && 0 < |chunk| && m + |chunk| < SIZE
      modifies buf
      ensures m' < SIZE && buf[..m'] == Carried(old(buf[..m]) + chunk) && out == Printed(pattern, old(buf[..m]) + chunk)
    {
      Fill(m, chunk);
      m' := m + |chunk|;
      var p;
      p, out := PrintLines(pattern, m');
      if p == 0 {
        m' := 0;
      }
      if m' > 0 {
        m' := m' - p;
        Memmove(p, m');
      }
    }

    /** read into buf + m, and the terminating '\0'. */
    method Fill(m: nat, bytes: string)
      requires m + |bytes| < buf.Length
      modifies buf
      ensures buf[..m + |bytes|] == old(buf[..m]) + bytes && buf[m + |bytes|] == '\0'
    {
      for i := 0 to |bytes|
        invariant buf[..m] == old(buf[..m]) && buf[m..m + i] == bytes[..i]
      {
        buf[m + i] := bytes[i];
      }
      buf[m + |bytes|] := '\0';
      assert buf[..m + |bytes|] == buf[..m] + buf[m..m + |bytes|];
    }

    method Memmove(p: nat, n: nat)
      requires p + n <= buf.Length
      modifies buf
      ensures buf[..n] == old(buf[p..p + n])
    {
      for i := 0 to n
        invariant buf[..i] == old(buf[p..p + i])
        invariant buf[p + i..p + n] == old(buf[p + i..p + n])
      {
        assert buf[p + i] == buf[p + i..p + n][0] == old(buf[p + i]);
        buf[i] := buf[p + i];
      }
    }
  }
}
