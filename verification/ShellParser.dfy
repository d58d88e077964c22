/** The shell's parser: a cursor over the line's buffer, commands whose words are places in
    the line, and the '\0's written behind the words at the end. */
module ShellParser {
  import opened ShellSyntax

  /** A word of the line, from q up to eq. */
  datatype Span = Span(q: nat, eq: nat)

  datatype Result = Ok(cmd: Cmd<Span>) | Panic

  predicate PlacedWord(line: string, w: Span) {
    && w.q < w.eq <= |line| && (forall k :: w.q <= k < w.eq ==> WordChar(line[k]))
    && (w.eq < |line| ==> !WordChar(line[w.eq]))
  }

  /** Every word of c is a maximal run of word characters of the line. */
  predicate Placed(line: string, c: Cmd<Span>) {
    match c
    case Exec(argv) => forall k :: 0 <= k < |argv| ==> PlacedWord(line, argv[k])
    case Redir(d, file, _, _) => Placed(line, d) && PlacedWord(line, file)
    case Pipe(l, r) => Placed(line, l) && Placed(line, r)
    case List(l, r) => Placed(line, l) && Placed(line, r)
    case Back(d) => Placed(line, d)
  }

  function Slice(line: string, w: Span): string {
    if w.q <= w.eq <= |line| then line[w.q..w.eq] else ""
  }

  function Slices(line: string, argv: seq<Span>): (r: seq<string>)
    ensures |r| == |argv| && forall k :: 0 <= k < |r| ==> r[k] == Slice(line, argv[k])
  {
    seq(|argv|, k requires 0 <= k < |argv| => Slice(line, argv[k]))
  }

  /** The command with its words spelled out. */
  function Spell(line: string, c: Cmd<Span>): Cmd<string> {
    match c
    case Exec(argv) => Exec(Slices(line, argv))
    case Redir(d, file, mode, fd) => Redir(Spell(line, d), Slice(line, file), mode, fd)
    case Pipe(l, r) => Pipe(Spell(line, l), Spell(line, r))
    case List(l, r) => List(Spell(line, l), Spell(line, r))
    case Back(d) => Back(Spell(line, d))
  }

  /** parseexec's assignment to argv of the node inside the redirections. */
  function AddArg<W>(c: Cmd<W>, w: W): Cmd<W> {
    match c
    case Exec(argv) => Exec(argv + [w])
    case Redir(d, file, mode, fd) => Redir(AddArg(d, w), file, mode, fd)
    case _ => c
  }

  lemma {:induction false} AddArgWrap(argv: seq<string>, rs: seq<Redirection>, w: string)
    ensures AddArg(Wrap(Exec(argv), rs), w) == Wrap(Exec(argv + [w]), rs)
  {
    if rs != [] {
      AddArgWrap(argv, rs[..|rs| - 1], w);
    }
  }

  lemma {:induction false} AddArgSpell(line: string, c: Cmd<Span>, w: Span)
    requires Placed(line, c) && PlacedWord(line, w)
    ensures Spell(line, AddArg(c, w)) == AddArg(Spell(line, c), Slice(line, w)) && Placed(line, AddArg(c, w))
  {
    match c
    case Exec(argv) => assert Slices(line, argv + [w]) == Slices(line, argv) + [Slice(line, w)];
    case Redir(d, _, _, _) => AddArgSpell(line, d, w);
    case _ =>
  }

  /** parseredirs takes the redirections at hand; the rest goes on as before. */
  lemma {:induction false} ItemsRedirs(argv: seq<string>, rs: seq<Redirection>, ts: seq<Token>)
    returns (rs': seq<Redirection>)
    ensures var p := PRedirs(Wrap(Exec(argv), rs), ts);
      if p.Failed? then PItems(argv, rs, ts).Failed?
      else p.cmd == Wrap(Exec(argv), rs') && !AtRedir(p.rest) && PItems(argv, rs, ts) == PItems(argv, rs', p.rest)
    decreases |ts|
  {
    rs' := rs;
    if AtRedir(ts) && |ts| >= 2 && ts[1].Word? {
      var r := RedirOf(ts[0].c, ts[1].s);
      assert (rs + [r])[..|rs|] == rs;
      rs' := ItemsRedirs(argv, rs + [r], ts[2..]);
    }
  }

  // ----- Characters and tokens -----

  lemma {:induction false} SkipWhitespace(s: string)
    requires s != "" && Whitespace(s[0])
    ensures Tokens(s) == Tokens(s[1..])
  {
  }

  /** What the first character, if not whitespace, says of the first token. */
  lemma FirstToken(s: string)
    requires s != "" && !Whitespace(s[0]) && s[0] != '\0'
    ensures Tokens(s) != []
    ensures if s[0] == '>' && |s| > 1 && s[1] == '>' then Tokens(s) == [Sym('+')] + Tokens(s[2..])
            else if Symbol(s[0]) then Tokens(s) == [Sym(s[0])] + Tokens(s[1..])
            else Tokens(s) == [Word(s[..WordLength(s)])] + Tokens(s[WordLength(s)..]) && WordLength(s) > 0
  {
  }

  // ----- Termination of the words -----

  /** The C string at q. */
  function CString(s: seq<char>, q: nat): string
    decreases |s| - q
  {
    if q >= |s| || s[q] == '\0' then "" else [s[q]] + CString(s, q + 1)
  }

  function CStrings(s: seq<char>, argv: seq<Span>): (r: seq<string>)
    ensures |r| == |argv| && forall k :: 0 <= k < |r| ==> r[k] == CString(s, argv[k].q)
  {
    seq(|argv|, k requires 0 <= k < |argv| => CString(s, argv[k].q))
  }

  /** The command as runcmd will read it, following the pointers to the words. */
  function ReadBack(s: seq<char>, c: Cmd<Span>): Cmd<string> {
    match c
    case Exec(argv) => Exec(CStrings(s, argv))
    case Redir(d, file, mode, fd) => Redir(ReadBack(s, d), CString(s, file.q), mode, fd)
    case Pipe(l, r) => Pipe(ReadBack(s, l), ReadBack(s, r))
    case List(l, r) => List(ReadBack(s, l), ReadBack(s, r))
    case Back(d) => Back(ReadBack(s, d))
  }

  /** Where nulterminate writes. */
  function Ends(c: Cmd<Span>): set<nat> {
    match c
    case Exec(argv) => set w | w in argv :: w.eq
    case Redir(d, file, _, _) => Ends(d) + {file.eq}
    case Pipe(l, r) => Ends(l) + Ends(r)
    case List(l, r) => Ends(l) + Ends(r)
    case Back(d) => Ends(d)
  }

  lemma {:induction false} EndsOutside(line: string, c: Cmd<Span>, k: nat)
    requires Placed(line, c) && k in Ends(c)
    ensures k <= |line| && (k < |line| ==> !WordChar(line[k]))
  {
    match c
    case Exec(argv) =>
    case Redir(d, file, _, _) =>
      if k in Ends(d) {
        EndsOutside(line, d, k);
      }
    case Pipe(l, r) =>
      if k in Ends(l) {
        EndsOutside(line, l, k);
      } else {
        EndsOutside(line, r, k);
      }
    case List(l, r) =>
      if k in Ends(l) {
        EndsOutside(line, l, k);
      } else {
        EndsOutside(line, r, k);
      }
    case Back(d) => EndsOutside(line, d, k);
  }

  /** The buffer holds the line with '\0's at the positions E and at its end. */
  ghost predicate Cut(s: seq<char>, line: string, E: set<nat>) {
    |s| > |line| && s[|line|] == '\0' && forall k: nat :: k < |line| ==> s[k] == if k in E then '\0' else line[k]
  }

  /** A terminated word reads as exactly its characters: no '\0' has been written into it. */
  lemma {:induction false} WordReads(s: seq<char>, line: string, E: set<nat>, w: Span, k: nat)
    requires Cut(s, line, E) && PlacedWord(line, w) && w.eq in E && w.q <= k <= w.eq
    requires forall e :: e in E && e < |line| ==> !WordChar(line[e])
    ensures CString(s, k) == line[k..w.eq]
    decreases w.eq - k
  {
    if k < w.eq {
      assert WordChar(line[k]) && s[k] == line[k];
      WordReads(s, line, E, w, k + 1);
      assert line[k..w.eq] == [line[k]] + line[k + 1..w.eq];
    }
  }

  lemma {:induction false} ReadsSpelled(s: seq<char>, line: string, E: set<nat>, c: Cmd<Span>)
    requires Cut(s, line, E) && Placed(line, c) && Ends(c) <= E
    requires forall e :: e in E && e < |line| ==> !WordChar(line[e])
    ensures ReadBack(s, c) == Spell(line, c)
  {
    match c
    case Exec(argv) =>
      forall k | 0 <= k < |argv| ensures CString(s, argv[k].q) == Slice(line, argv[k]) {
        assert argv[k].eq in Ends(c);
        WordReads(s, line, E, argv[k], argv[k].q);
      }
      assert CStrings(s, argv) == Slices(line, argv);
    case Redir(d, file, _, _) =>
      ReadsSpelled(s, line, E, d);
      assert file.eq in Ends(c);
      WordReads(s, line, E, file, file.q);
    case Pipe(l, r) =>
      ReadsSpelled(s, line, E, l);
      ReadsSpelled(s, line, E, r);
    case List(l, r) =>
      ReadsSpelled(s, line, E, l);
      ReadsSpelled(s, line, E, r);
    case Back(d) => ReadsSpelled(s, line, E, d);
  }

  /** nulterminate. */
  method Nulterminate(buf: array<char>, c: Cmd<Span>)
    requires forall k :: k in Ends(c) ==> k < buf.Length
    modifies buf
    ensures forall k: nat :: k < buf.Length ==> buf[k] == if k in Ends(c) then '\0' else old(buf[k])
    decreases c
  {
    match c
    case Exec(argv) =>
      for i := 0 to |argv|
        invariant forall k: nat :: k < buf.Length ==>
          buf[k] == if exists j :: 0 <= j < i && argv[j].eq == k then '\0' else old(buf[k])
      {
        assert argv[i].eq in Ends(c);
        buf[argv[i].eq] := '\0';
      }
    case Redir(d, file, _, _) =>
      assert Ends(d) <= Ends(c) && file.eq in Ends(c);
      Nulterminate(buf, d);
      buf[file.eq] := '\0';
    case Pipe(left, right) =>
      assert Ends(left) <= Ends(c) && Ends(right) <= Ends(c);
      Nulterminate(buf, left);
      Nulterminate(buf, right);
    case List(left, right) =>
      assert Ends(left) <= Ends(c) && Ends(right) <= Ends(c);
      Nulterminate(buf, left);
      Nulterminate(buf, right);
    case Back(d) =>
      assert Ends(d) <= Ends(c);
      Nulterminate(buf, d);
  }

  /** parsecmd on the string of length n in buf: the tree the grammar gives, whose words, read
      as C strings in the buffer it leaves, are exactly the words of the line. */
  method Parsecmd(buf: array<char>, n: nat) returns (r: Result)
    requires n < buf.Length && buf[n] == '\0' && forall k :: 0 <= k < n ==> buf[k] != '\0'
    modifies buf
    ensures match PCmd(Tokens(old(buf[..n])))
            case Failed => r.Panic? && buf[..] == old(buf[..])
            case Parsed(c, _) => r.Ok? && ReadBack(buf[..], r.cmd) == c
  {
    ghost var line := buf[..n];
    var p := new Parser(buf, n);
    assert buf[0..n] == line;
    r := p.Parseline();
    if r.Panic? {
      return;
    }
    var left := p.Peek("");
    if p.s != p.es {
      return Panic;
    }
    forall k | k in Ends(r.cmd) ensures k <= n && (k < n ==> !WordChar(line[k])) {
      EndsOutside(line, r.cmd, k);
    }
    Nulterminate(buf, r.cmd);
    ReadsSpelled(buf[..], line, Ends(r.cmd), r.cmd);
  }

  class Parser {
    const buf: array<char>
    const es: nat
    var s: nat

    /** es is the end of the string in buf. */
    ghost predicate Valid()
      reads this, buf
    {
      s <= es < buf.Length && buf[es] == '\0' && forall k :: 0 <= k < es ==> buf[k] != '\0'
    }

    ghost function Line(): string
      reads this, buf
      requires es < buf.Length
    {
      buf[..es]
    }

    ghost function Ahead(): seq<Token>
      reads this, buf
      requires Valid()
    {
      Tokens(buf[s..es])
    }

    constructor (buf: array<char>, n: nat)
      requires n < buf.Length && buf[n] == '\0' && forall k :: 0 <= k < n ==> buf[k] != '\0'
      ensures Valid() && this.buf == buf && es == n && s == 0
    {
      this.buf, es, s := buf, n, 0;
    }

    method SkipSpace()
      requires Valid()
      modifies this
      ensures Valid() && old(s) <= s && Ahead() == old(Ahead())
      ensures s < es ==> !Whitespace(buf[s])
    {
      while s < es && Whitespace(buf[s])
        invariant Valid() && old(s) <= s && Ahead() == old(Ahead())
        decreases es - s
      {
        SkipWhitespace(buf[s..es]);
        assert buf[s..es][1..] == buf[s + 1..es];
        s := s + 1;
      }
    }

    /** gettoken: 0 at the end, 'a' for a word, '+' for >>. */
    method Gettoken() returns (ret: char, w: Span)
      requires Valid()
      modifies this
      ensures Valid() && old(s) <= s
      ensures old(Ahead()) == [] ==> ret == '\0' && Ahead() == []
      ensures old(Ahead()) != [] ==> old(s) < s && Ahead() == old(Ahead())[1..] && Is(Line(), old(Ahead())[0], ret, w)
      ensures ret == 'a' <==> old(Ahead()) != [] && old(Ahead())[0].Word?
      ensures ret == '\0' <==> old(Ahead()) == []
    {
      SkipSpace();
      var q := s;
      ret := TakeToken();
      w := Span(q, s);
      SkipSpace();
    }

    /** The part of gettoken between the blanks. */
    method TakeToken() returns (ret: char)
      requires Valid() && (s < es ==> !Whitespace(buf[s]))
      modifies this
      ensures Valid() && old(s) <= s
      ensures old(Ahead()) == [] ==> ret == '\0' && Ahead() == []
      ensures old(Ahead()) != [] ==>
        old(s) < s && Ahead() == old(Ahead())[1..] && Is(Line(), old(Ahead())[0], ret, Span(old(s), s))
      ensures ret == 'a' <==> old(Ahead()) != [] && old(Ahead())[0].Word?
      ensures ret == '\0' <==> old(Ahead()) == []
    {
      ret := buf[s];
      ghost var rest := buf[s..es];
      if s < es {
        FirstToken(rest);
      }
      if ret == '\0' {
      } else if ret == '|' || ret == '(' || ret == ')' || ret == ';' || ret == '&' || ret == '<' {
        assert rest[1..] == buf[s + 1..es];
        s := s + 1;
      } else if ret == '>' {
        s := s + 1;
        assert rest[1..] == buf[s..es];
        if buf[s] == '>' {
          ret := '+';
          assert rest[2..] == buf[s + 1..es];
          s := s + 1;
        }
      } else {
        ret := 'a';
        TakeWord();
      }
    }

    /** The word loop of gettoken. */
    method TakeWord()
      requires Valid() && s < es && WordChar(buf[s])
      modifies this
      ensures Valid() && s == old(s) + WordLength(buf[old(s)..es]) && old(s) < s
      ensures PlacedWord(Line(), Span(old(s), s))
      ensures buf[old(s)..es][..s - old(s)] == buf[old(s)..s] && buf[old(s)..es][s - old(s)..] == buf[s..es]
    {
      var q := s;
      while s < es && !Whitespace(buf[s]) && !Symbol(buf[s])
        invariant Valid() && q <= s && forall k :: q <= k < s ==> WordChar(buf[k])
        decreases es - s
      {
        s := s + 1;
      }
      WordEnds(buf[q..s], buf[s..es]);
      assert buf[q..es] == buf[q..s] + buf[s..es];
    }

    /** peek: skip whitespace; is the next character one of toks? */
    method Peek(toks: string) returns (r: bool)
      requires Valid()
      modifies this
      ensures Valid() && old(s) <= s && Ahead() == old(Ahead())
      ensures r <==> s < es && buf[s] in toks
      ensures if s == es then Ahead() == [] else Ahead() != [] && StartsWith(Ahead()[0], buf[s])
    {
      SkipSpace();
      if s < es {
        FirstToken(buf[s..es]);
      }
      return buf[s] != '\0' && buf[s] in toks;
    }

    /** parseredirs. */
    method Parseredirs(cmd: Cmd<Span>) returns (r: Result)
      requires Valid() && Placed(Line(), cmd)
      modifies this
      ensures Valid() && old(s) <= s
      ensures Means(Line(), r, PRedirs(Spell(Line(), cmd), old(Ahead())), Ahead())
    {
      var c := cmd;
      ghost var p := PRedirs(Spell(Line(), cmd), Ahead());
      var more := Peek("<>");
      while more
        invariant Valid() && old(s) <= s && Placed(Line(), c)
        invariant p == PRedirs(Spell(Line(), c), Ahead())
        invariant more <==> AtRedir(Ahead())
        decreases es - s
      {
        r := OneRedir(c);
        if r.Panic? {
          return;
        }
        c := r.cmd;
        more := Peek("<>");
      }
      return Ok(c);
    }

    /** One turn of parseredirs' loop. */
    method OneRedir(c: Cmd<Span>) returns (r: Result)
      requires Valid() && Placed(Line(), c) && AtRedir(Ahead())
      modifies this
      ensures Valid() && old(s) < s
      ensures var ts := old(Ahead());
        if |ts| < 2 || !ts[1].Word? then r.Panic?
        else
          var x := RedirOf(ts[0].c, ts[1].s);
          r.Ok? && Placed(Line(), r.cmd) && Spell(Line(), r.cmd) == Redir(Spell(Line(), c), x.file, x.mode, x.fd) && Ahead() == ts[2..]
    {
      var tok, sign := Gettoken();
      var kind, w := Gettoken();
      if kind != 'a' {
        return Panic;
      }
      return Ok(if tok == '<' then Redir(c, w, O_RDONLY, 0) else Redir(c, w, O_WRITE, 1));
    }

    /** parseexec. */
    method Parseexec() returns (r: Result)
      requires Valid()
      modifies this
      ensures Valid() && old(s) <= s
      ensures Means(Line(), r, PExec(old(Ahead())), Ahead())
      decreases es - s, 1
    {
      var block := Peek("(");
      if block {
        r := Parseblock();
      } else {
        r := Parseargs();
      }
    }

    /** parseexec has read the arguments argv and redirections rs; p is what it will return. */
    ghost predicate Reading(r: Result, argc: nat, argv: seq<string>, rs: seq<Redirection>, p: Parsed, end: bool)
      reads this, buf
    {
      && Valid() && r.Ok? && Placed(Line(), r.cmd) && argc == |argv| && Spell(Line(), r.cmd) == Wrap(Exec(argv), rs)
      && p == PItems(argv, rs, Ahead()) && !AtRedir(Ahead())
      && if end then AtEnd(Ahead()) else AtEnd(Ahead()) ==> Ahead() == []
    }

    /** The part of parseexec after the test for a block. */
    method Parseargs() returns (r: Result)
      requires Valid()
      modifies this
      ensures Valid() && old(s) <= s
      ensures Means(Line(), r, PItems([], [], old(Ahead())), Ahead())
    {
      ghost var p, argv, rs := PItems([], [], Ahead()), [], [];
      var argc, end := 0, false;
      assert Slices(Line(), []) == [];
      r, end, rs := MoreRedirs(Exec([]), argc, argv, rs);
      var stop := r.Panic?;
      while !end && !stop
        invariant Valid() && old(s) <= s && if stop then Means(Line(), r, p, Ahead()) else Reading(r, argc, argv, rs, p, end)
        decreases !stop, es - s
      {
        r, stop, argv := OneArg(r.cmd, argc, argv, rs);
        if !stop && r.Ok? {
          argc := argc + 1;
          r, end, rs := MoreRedirs(r.cmd, argc, argv, rs);
        }
        stop := stop || r.Panic?;
      }
    }

    /** parseredirs as called by parseexec, and the test for the end of the arguments. */
    method MoreRedirs(c: Cmd<Span>, argc: nat, ghost argv: seq<string>, ghost rs: seq<Redirection>)
      returns (r: Result, end: bool, ghost rs': seq<Redirection>)
      requires Valid() && Placed(Line(), c) && argc == |argv| && Spell(Line(), c) == Wrap(Exec(argv), rs)
      modifies this
      ensures Valid() && old(s) <= s
      ensures r.Panic? ==> PItems(argv, rs, old(Ahead())).Failed?
      ensures r.Ok? ==> Reading(r, argc, argv, rs', PItems(argv, rs, old(Ahead())), end)
    {
      end := false;
      r, rs' := ArgRedirs(c, argv, rs);
      if r.Ok? {
        end := Peek("|)&;");
      }
    }

    /** parseredirs as called by parseexec. */
    method ArgRedirs(c: Cmd<Span>, ghost argv: seq<string>, ghost rs: seq<Redirection>) returns (r: Result, ghost rs': seq<Redirection>)
      requires Valid() && Placed(Line(), c) && Spell(Line(), c) == Wrap(Exec(argv), rs)
      modifies this
      ensures Valid() && old(s) <= s
      ensures r.Panic? ==> PItems(argv, rs, old(Ahead())).Failed?
      ensures r.Ok? ==> Placed(Line(), r.cmd) && Spell(Line(), r.cmd) == Wrap(Exec(argv), rs') && !AtRedir(Ahead())
      ensures r.Ok? ==> PItems(argv, rs, old(Ahead())) == PItems(argv, rs', Ahead())
    {
      rs' := ItemsRedirs(argv, rs, Ahead());
      r := Parseredirs(c);
    }

    /** One turn of parseexec's loop, up to the redirections; `stop` is the break. */
    method OneArg(c: Cmd<Span>, argc: nat, ghost argv: seq<string>, ghost rs: seq<Redirection>)
      returns (r: Result, stop: bool, ghost argv': seq<string>)
      requires Valid() && Placed(Line(), c) && argc == |argv| && Spell(Line(), c) == Wrap(Exec(argv), rs)
      requires !AtRedir(Ahead()) && (AtEnd(Ahead()) ==> Ahead() == [])
      modifies this
      ensures Valid() && (!stop && r.Ok? ==> old(s) < s) && old(s) <= s
      ensures stop ==> r == Ok(c) && old(Ahead()) == [] == Ahead()
      ensures r.Panic? ==> PItems(argv, rs, old(Ahead())).Failed?
      ensures !stop && r.Ok? ==> Placed(Line(), r.cmd) && |argv'| == argc + 1
      ensures !stop && r.Ok? ==> Spell(Line(), r.cmd) == Wrap(Exec(argv'), rs) && PItems(argv, rs, old(Ahead())) == PItems(argv', rs, Ahead())
    {
      ghost var ts := Ahead();
      argv' := argv;
      var tok, w := Gettoken();
      if tok == '\0' {
        return Ok(c), true, argv;
      }
      if tok != 'a' {
        return Panic, false, argv;
      }
      AddArgSpell(Line(), c, w);
      AddArgWrap(argv, rs, ts[0].s);
      argv' := argv + [ts[0].s];
      if argc + 1 >= MAXARGS {
        return Panic, false, argv';
      }
      return Ok(AddArg(c, w)), false, argv';
    }

    /** parseblock. */
    method Parseblock() returns (r: Result)
      requires Valid() && Head(Ahead(), '(')
      modifies this
      ensures Valid() && old(s) <= s
      ensures Means(Line(), r, PExec(old(Ahead())), Ahead())
      decreases es - s, 0
    {
      var tok, w := Gettoken();
      r := Parseline();
      if r.Panic? {
        return;
      }
      var close := Peek(")");
      if !close {
        return Panic;
      }
      tok, w := Gettoken();
      r := Parseredirs(r.cmd);
    }

    /** parsepipe. */
    method Parsepipe() returns (r: Result)
      requires Valid()
      modifies this
      ensures Valid() && old(s) <= s
      ensures Means(Line(), r, PPipe(old(Ahead())), Ahead())
      decreases es - s, 2
    {
      r := Parseexec();
      if r.Panic? {
        return;
      }
      var left := r.cmd;
      var bar := Peek("|");
      if bar {
        var tok, w := Gettoken();
        r := Parsepipe();
        if r.Ok? {
          r := Ok(Pipe(left, r.cmd));
        }
      }
    }

    /** parseline. */
    method Parseline() returns (r: Result)
      requires Valid()
      modifies this
      ensures Valid() && old(s) <= s
      ensures Means(Line(), r, PLine(old(Ahead())), Ahead())
      decreases es - s, 3
    {
      r := Parsepipe();
      if r.Panic? {
        return;
      }

      ghost var p := PBacks(Spell(Line(), r.cmd), Ahead());
      var amp := Peek("&");
      while amp
        invariant Valid() && old(s) <= s && r.Ok? && Placed(Line(), r.cmd)
        invariant p == PBacks(Spell(Line(), r.cmd), Ahead())
        invariant amp <==> Head(Ahead(), '&')
        decreases es - s
      {
        var tok, w := Gettoken();
        r := Ok(Back(r.cmd));
        amp := Peek("&");
      }
      var left := r.cmd;
      var semi := Peek(";");
      if semi {
        var tok, w := Gettoken();
        r := Parseline();
        if r.Ok? {
          r := Ok(List(left, r.cmd));
        }
      }
    }
  }

  /** The outcome of a parsing function is that of the grammar's. */
  ghost predicate Means(line: string, r: Result, p: Parsed, ahead: seq<Token>) {
    match p
    case Failed => r.Panic?
    case Parsed(c, rest) => r.Ok? && Placed(line, r.cmd) && Spell(line, r.cmd) == c && ahead == rest
  }

  /** What gettoken says of token t. */
  predicate Is(line: string, t: Token, ret: char, w: Span) {
    match t
    case Sym(c) => ret == c
    case Word(x) => ret == 'a' && PlacedWord(line, w) && Slice(line, w) == x
  }

  /** The token begins with c. */
  predicate StartsWith(t: Token, c: char) {
    match t
    case Sym(d) => if d == '+' then c == '>' else c == d
    case Word(_) => WordChar(c)
  }
}
