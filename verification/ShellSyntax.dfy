/** The shell's command language: tokens, the grammar as a parser on tokens, and the text
    of a command tree with as few parentheses as the grammar allows. */
module ShellSyntax {

  const MAXARGS: nat := 10
  const O_RDONLY: nat := 0
  const O_WRITE: nat := 0x201   // O_WRONLY|O_CREATE

  /** W is how words are given: as strings here, as places in the line in the parser. */
  datatype Cmd<W> =
    | Exec(argv: seq<W>)
    | Redir(cmd: Cmd<W>, file: W, mode: nat, fd: nat)
    | Pipe(left: Cmd<W>, right: Cmd<W>)
    | List(left: Cmd<W>, right: Cmd<W>)
    | Back(cmd: Cmd<W>)

  // ----- Tokens -----

  /** '+' stands for >>, as in gettoken. */
  datatype Token = Word(s: string) | Sym(c: char)

  predicate Whitespace(c: char) {
    c == ' ' || c == '\t' || c == '\r' || c == '\n' || c == '\U{0b}'
  }

  predicate Symbol(c: char) {
    c == '<' || c == '|' || c == '>' || c == '&' || c == ';' || c == '(' || c == ')'
  }

  predicate WordChar(c: char) {
    !Whitespace(c) && !Symbol(c) && c != '\0'
  }

  function WordLength(s: string): (n: nat)
    ensures n <= |s| && (forall k :: 0 <= k < n ==> WordChar(s[k])) && (n < |s| ==> !WordChar(s[n]))
  {
    if s == "" || !WordChar(s[0]) then 0 else WordLength(s[1..]) + 1
  }

  /** The tokens of a line without '\0'. */
  function Tokens(s: string): seq<Token>
    decreases |s|
  {
    if s == "" then []
    else if Whitespace(s[0]) || s[0] == '\0' then Tokens(s[1..])
    else if s[0] == '>' && |s| > 1 && s[1] == '>' then [Sym('+')] + Tokens(s[2..])
    else if Symbol(s[0]) then [Sym(s[0])] + Tokens(s[1..])
    else [Word(s[..WordLength(s)])] + Tokens(s[WordLength(s)..])
  }

  // ----- The grammar -----

  datatype Parsed = Parsed(cmd: Cmd<string>, rest: seq<Token>) | Failed

  datatype Redirection = Redirection(file: string, mode: nat, fd: nat)

  predicate Head(ts: seq<Token>, c: char) {
    ts != [] && ts[0] == Sym(c)
  }

  predicate AtRedir(ts: seq<Token>) {
    Head(ts, '<') || Head(ts, '>') || Head(ts, '+')
  }

  predicate AtEnd(ts: seq<Token>) {
    ts == [] || Head(ts, '|') || Head(ts, ')') || Head(ts, '&') || Head(ts, ';')
  }

  function RedirOf(c: char, file: string): Redirection {
    if c == '<' then Redirection(file, O_RDONLY, 0) else Redirection(file, O_WRITE, 1)
  }

  function Wrap(cmd: Cmd<string>, rs: seq<Redirection>): Cmd<string> {
    if rs == [] then cmd
    else var r := rs[|rs| - 1]; Redir(Wrap(cmd, rs[..|rs| - 1]), r.file, r.mode, r.fd)
  }

  /** Redirections after a block. */
  function PRedirs(cmd: Cmd<string>, ts: seq<Token>): (r: Parsed)
    ensures r.Parsed? ==> |r.rest| <= |ts|
    decreases |ts|
  {
    if !AtRedir(ts) then Parsed(cmd, ts)
    else if |ts| < 2 || !ts[1].Word? then Failed
    else var r := RedirOf(ts[0].c, ts[1].s); PRedirs(Redir(cmd, r.file, r.mode, r.fd), ts[2..])
  }

  /** Words and redirections in any order. */
  function PItems(argv: seq<string>, rs: seq<Redirection>, ts: seq<Token>): (r: Parsed)
    ensures r.Parsed? ==> |r.rest| <= |ts|
    decreases |ts|
  {
    if AtRedir(ts) then
      if |ts| < 2 || !ts[1].Word? then Failed else PItems(argv, rs + [RedirOf(ts[0].c, ts[1].s)], ts[2..])
    else if AtEnd(ts) then Parsed(Wrap(Exec(argv), rs), ts)
    else if !ts[0].Word? || |argv| + 1 >= MAXARGS then Failed
    else PItems(argv + [ts[0].s], rs, ts[1..])
  }

  function PExec(ts: seq<Token>): (r: Parsed)
    ensures r.Parsed? ==> |r.rest| <= |ts|
    decreases |ts|, 0
  {
    if !Head(ts, '(') then PItems([], [], ts)
    else
      match PLine(ts[1..])
      case Failed => Failed
      case Parsed(c, rest) => if Head(rest, ')') then PRedirs(c, rest[1..]) else Failed
  }

  function PPipe(ts: seq<Token>): (r: Parsed)
    ensures r.Parsed? ==> |r.rest| <= |ts|
    decreases |ts|, 1
  {
    match PExec(ts)
    case Failed => Failed
    case Parsed(c, rest) =>
      if !Head(rest, '|') then Parsed(c, rest)
      else
        match PPipe(rest[1..])
        case Failed => Failed
        case Parsed(d, rest') => Parsed(Pipe(c, d), rest')
  }

  function PBacks(c: Cmd<string>, ts: seq<Token>): (r: (Cmd<string>, seq<Token>))
    ensures |r.1| <= |ts|
    decreases |ts|
  {
    if Head(ts, '&') then PBacks(Back(c), ts[1..]) else (c, ts)
  }

  function PLine(ts: seq<Token>): (r: Parsed)
    ensures r.Parsed? ==> |r.rest| <= |ts|
    decreases |ts|, 2
  {
    match PPipe(ts)
    case Failed => Failed
    case Parsed(c, rest) =>
      var (d, rest1) := PBacks(c, rest);
      if !Head(rest1, ';') then Parsed(d, rest1)
      else
        match PLine(rest1[1..])
        case Failed => Failed
        case Parsed(e, rest2) => Parsed(List(d, e), rest2)
  }

  // ----- The text of a tree -----

  predicate GoodWord(w: string) {
    w != "" && forall k :: 0 <= k < |w| ==> WordChar(w[k])
  }

  /** What can be typed: proper words, at most nine arguments, the redirections there are. */
  predicate Typable(t: Cmd<string>) {
    match t
    case Exec(argv) => |argv| < MAXARGS && forall k :: 0 <= k < |argv| ==> GoodWord(argv[k])
    case Redir(c, file, mode, fd) => Typable(c) && GoodWord(file) && ((mode == O_RDONLY && fd == 0) || (mode == O_WRITE && fd == 1))
    case Pipe(l, r) => Typable(l) && Typable(r)
    case List(l, r) => Typable(l) && Typable(r)
    case Back(c) => Typable(c)
  }

  function Words(argv: seq<string>): seq<Token> {
    if argv == [] then [] else Words(argv[..|argv| - 1]) + [Word(argv[|argv| - 1])]
  }

  function RedirTokens(file: string, mode: nat): seq<Token> {
    [Sym(if mode == O_RDONLY then '<' else '>'), Word(file)]
  }

  /** How far the function at `level` (0 line, 1 background, 2 pipe, 3 exec) is from the one
      that goes on to the parts of t. */
  function Steps(t: Cmd<string>, level: nat): nat
    requires level <= 3
  {
    var own: nat := match t case Exec(_) => 3 case Redir(_, _, _, _) => 3 case Pipe(_, _) => 2 case List(_, _) => 0 case Back(_) => 1;
    if level <= own then own - level else own - level + 4
  }

  function ULine(t: Cmd<string>): seq<Token>
    decreases t, Steps(t, 0)
  {
    match t
    case List(l, r) => UBack(l) + [Sym(';')] + ULine(r)
    case _ => UBack(t)
  }

  function UBack(t: Cmd<string>): seq<Token>
    decreases t, Steps(t, 1)
  {
    match t
    case Back(c) => UBack(c) + [Sym('&')]
    case _ => UPipe(t)
  }

  function UPipe(t: Cmd<string>): seq<Token>
    decreases t, Steps(t, 2)
  {
    match t
    case Pipe(l, r) => UExec(l) + [Sym('|')] + UPipe(r)
    case _ => UExec(t)
  }

  function UExec(t: Cmd<string>): seq<Token>
    decreases t, Steps(t, 3)
  {
    match t
    case Exec(argv) => Words(argv)
    case Redir(c, file, mode, _) => UExec(c) + RedirTokens(file, mode)
    case _ => [Sym('(')] + ULine(t) + [Sym(')')]
  }

  function TextOf(ts: seq<Token>): string {
    if ts == [] then "" else Spelled(ts[0]) + " " + TextOf(ts[1..])
  }

  function Unparse(t: Cmd<string>): string {
    TextOf(ULine(t))
  }

  // ----- Round trip -----

  lemma {:induction false} WordsParsed(argv: seq<string>, ts: seq<Token>)
    requires |argv| < MAXARGS
    ensures PItems([], [], Words(argv) + ts) == PItems(argv, [], ts)
  {
    if argv == [] {
      assert Words(argv) + ts == ts;
    } else {
      var k := |argv| - 1;
      var w := Word(argv[k]);
      assert Words(argv) + ts == Words(argv[..k]) + ([w] + ts);
      WordsParsed(argv[..k], [w] + ts);
      assert ([w] + ts)[1..] == ts && argv[..k] + [argv[k]] == argv;
    }
  }

  /** A chain of redirections: the arguments or block they are attached to, and the list. */
  function Base(t: Cmd<string>): Cmd<string> {
    if t.Redir? then Base(t.cmd) else t
  }

  function Redirs(t: Cmd<string>): seq<Redirection> {
    if t.Redir? then Redirs(t.cmd) + [Redirection(t.file, t.mode, t.fd)] else []
  }

  lemma {:induction false} WrapRedirs(t: Cmd<string>)
    ensures Wrap(Base(t), Redirs(t)) == t
  {
    if t.Redir? {
      WrapRedirs(t.cmd);
      assert Redirs(t)[..|Redirs(t)| - 1] == Redirs(t.cmd);
    }
  }

  /** What parseexec has still to do, having read the text of t. */
  function After(t: Cmd<string>, ts: seq<Token>): Parsed {
    if Base(t).Exec? then PItems(Base(t).argv, Redirs(t), ts) else PRedirs(t, ts)
  }

  lemma AfterEnd(t: Cmd<string>, ts: seq<Token>)
    requires AtEnd(ts)
    ensures After(t, ts) == Parsed(t, ts)
  {
    WrapRedirs(t);
  }

  lemma {:induction false} ExecTrip(t: Cmd<string>, ts: seq<Token>)
    requires Typable(t) && (AtEnd(ts) || AtRedir(ts))
    ensures PExec(UExec(t) + ts) == After(t, ts)
    decreases t, Steps(t, 3)
  {
    match t
    case Exec(argv) =>
      assert !Head(Words(argv) + ts, '(') by {
        NoParen(argv, ts);
      }
      WordsParsed(argv, ts);
    case Redir(c, file, mode, fd) =>
      var rt := RedirTokens(file, mode);
      assert UExec(t) + ts == UExec(c) + (rt + ts);
      assert (rt + ts)[0] == rt[0];
      ExecTrip(c, rt + ts);
    case _ =>
      var close := [Sym(')')] + ts;
      LineTrip(t, close);
      Inside(ULine(t), ts);
  }

  lemma Inside(line: seq<Token>, ts: seq<Token>)
    ensures var all := [Sym('(')] + line + [Sym(')')] + ts; Head(all, '(') && all[1..] == line + ([Sym(')')] + ts)
    ensures ([Sym(')')] + ts)[1..] == ts
  {
  }

  lemma NoParen(argv: seq<string>, ts: seq<Token>)
    requires AtEnd(ts) || AtRedir(ts)
    ensures !Head(Words(argv) + ts, '(')
  {
    if argv == [] {
      assert Words(argv) == [] && [] + ts == ts;
      EndsNoParen(ts);
    } else {
      AllWords(argv);
      assert (Words(argv) + ts)[0] == Words(argv)[0] == Word(argv[0]);
    }
  }

  lemma EndsNoParen(ts: seq<Token>)
    requires AtEnd(ts) || AtRedir(ts)
    ensures !Head(ts, '(')
  {
    if ts != [] {
      var t := ts[0];
      if AtEnd(ts) {
        assert t == Sym('|') || t == Sym(')') || t == Sym('&') || t == Sym(';');
      } else {
        assert t == Sym('<') || t == Sym('>') || t == Sym('+');
      }
    }
  }

  lemma {:induction false} AllWords(argv: seq<string>)
    ensures |Words(argv)| == |argv| && forall k :: 0 <= k < |argv| ==> Words(argv)[k] == Word(argv[k])
  {
    if argv != [] {
      AllWords(argv[..|argv| - 1]);
    }
  }

  lemma {:induction false} PipeTrip(t: Cmd<string>, ts: seq<Token>)
    requires Typable(t) && AtEnd(ts) && !Head(ts, '|')
    ensures PPipe(UPipe(t) + ts) == Parsed(t, ts)
    decreases t, Steps(t, 2)
  {
    match t
    case Pipe(l, r) =>
      var bar := [Sym('|')] + (UPipe(r) + ts);
      Joined(UExec(l), '|', UPipe(r), ts);
      ExecTrip(l, bar);
      AfterEnd(l, bar);
      PipeTrip(r, ts);
    case _ =>
      ExecTrip(t, ts);
      AfterEnd(t, ts);
  }

  lemma Joined(a: seq<Token>, c: char, b: seq<Token>, ts: seq<Token>)
    ensures var rest := [Sym(c)] + (b + ts); a + [Sym(c)] + b + ts == a + rest && Head(rest, c) && rest[1..] == b + ts
  {
  }

  /** Reading a pipeline and the '&'s after it. */
  lemma {:induction false} BackTrip(t: Cmd<string>, ts: seq<Token>)
    requires Typable(t) && AtEnd(ts) && !Head(ts, '|')
    ensures PPipe(UBack(t) + ts).Parsed?
    ensures var p := PPipe(UBack(t) + ts); PBacks(p.cmd, p.rest) == PBacks(t, ts)
    decreases t, Steps(t, 1)
  {
    match t
    case Back(c) =>
      var amp := [Sym('&')] + ts;
      assert UBack(t) + ts == UBack(c) + amp && amp[1..] == ts;
      BackTrip(c, amp);
    case _ =>
      PipeTrip(t, ts);
  }

  lemma {:induction false} LineTrip(t: Cmd<string>, ts: seq<Token>)
    requires Typable(t) && (ts == [] || Head(ts, ')'))
    ensures PLine(ULine(t) + ts) == Parsed(t, ts)
    decreases t, Steps(t, 0)
  {
    match t
    case List(l, r) =>
      var semi := [Sym(';')] + (ULine(r) + ts);
      Joined(UBack(l), ';', ULine(r), ts);
      BackTrip(l, semi);
      LineTrip(r, ts);
    case _ =>
      BackTrip(t, ts);
  }

  // ----- From tokens to characters -----

  predicate GoodToken(t: Token) {
    match t
    case Word(w) => GoodWord(w)
    case Sym(c) => Symbol(c) || c == '+'
  }

  function Spelled(t: Token): string {
    match t
    case Word(w) => w
    case Sym(c) => if c == '+' then ">>" else [c]
  }

  lemma OneToken(t: Token, s: string)
    requires GoodToken(t)
    ensures Tokens(Spelled(t) + " " + s) == [t] + Tokens(s)
  {
    var all := Spelled(t) + " " + s;
    match t
    case Word(w) =>
      WordEnds(w, " " + s);
      assert all == w + (" " + s) && all[|w|..] == " " + s && all[..|w|] == w;
      assert (" " + s)[1..] == s;
    case Sym(c) =>
      if c == '+' {
        assert all[2..] == " " + s && (" " + s)[1..] == s;
      } else {
        assert all[1..] == " " + s && (" " + s)[1..] == s && all[1] == ' ';
      }
  }

  lemma {:induction false} WordEnds(w: string, rest: string)
    requires (forall k :: 0 <= k < |w| ==> WordChar(w[k])) && (rest == "" || !WordChar(rest[0]))
    ensures WordLength(w + rest) == |w|
  {
    if w != "" {
      assert (w + rest)[1..] == w[1..] + rest;
      WordEnds(w[1..], rest);
    } else {
      assert w + rest == rest;
    }
  }

  lemma {:induction false} TextTrip(ts: seq<Token>)
    requires forall k :: 0 <= k < |ts| ==> GoodToken(ts[k])
    ensures Tokens(TextOf(ts)) == ts
  {
    if ts != [] {
      TextTrip(ts[1..]);
      OneToken(ts[0], TextOf(ts[1..]));
    }
  }

  predicate AllGood(ts: seq<Token>) {
    forall k :: 0 <= k < |ts| ==> GoodToken(ts[k])
  }

  lemma {:induction false} ExecGood(t: Cmd<string>)
    requires Typable(t)
    ensures AllGood(UExec(t))
    decreases t, Steps(t, 3)
  {
    match t
    case Exec(argv) => AllWords(argv);
    case Redir(c, _, _, _) => ExecGood(c);
    case _ => LineGood(t);
  }

  lemma {:induction false} PipeGood(t: Cmd<string>)
    requires Typable(t)
    ensures AllGood(UPipe(t))
    decreases t, Steps(t, 2)
  {
    match t
    case Pipe(l, r) =>
      ExecGood(l);
      PipeGood(r);
    case _ => ExecGood(t);
  }

  lemma {:induction false} BackGood(t: Cmd<string>)
    requires Typable(t)
    ensures AllGood(UBack(t))
    decreases t, Steps(t, 1)
  {
    match t
    case Back(c) => BackGood(c);
    case _ => PipeGood(t);
  }

  lemma {:induction false} LineGood(t: Cmd<string>)
    requires Typable(t)
    ensures AllGood(ULine(t))
    decreases t, Steps(t, 0)
  {
    match t
    case List(l, r) =>
      BackGood(l);
      LineGood(r);
    case _ => BackGood(t);
  }

  /** parsecmd on tokens: the whole line must be read. */
  function PCmd(ts: seq<Token>): Parsed {
    match PLine(ts)
    case Failed => Failed
    case Parsed(c, rest) => if rest == [] then Parsed(c, []) else Failed
  }

  /** Every tree that can be typed is what its text parses to. */
  lemma RoundTrip(t: Cmd<string>)
    requires Typable(t)
    ensures PCmd(Tokens(Unparse(t))) == Parsed(t, [])
  {
    LineGood(t);
    TextTrip(ULine(t));
    LineTrip(t, []);
    assert ULine(t) + [] == ULine(t);
  }

  // ----- Only such trees come out -----

  lemma {:induction false} RedirsTypable(cmd: Cmd<string>, ts: seq<Token>)
    requires Typable(cmd) && AllGood(ts)
    ensures var r := PRedirs(cmd, ts); r.Parsed? ==> Typable(r.cmd) && AllGood(r.rest)
    decreases |ts|
  {
    if AtRedir(ts) && |ts| >= 2 && ts[1].Word? {
      var r := RedirOf(ts[0].c, ts[1].s);
      assert GoodToken(ts[1]);
      RedirsTypable(Redir(cmd, r.file, r.mode, r.fd), ts[2..]);
    }
  }

  predicate GoodRedir(r: Redirection) {
    GoodWord(r.file) && ((r.mode == O_RDONLY && r.fd == 0) || (r.mode == O_WRITE && r.fd == 1))
  }

  lemma {:induction false} WrapTypable(cmd: Cmd<string>, rs: seq<Redirection>)
    requires Typable(cmd) && forall k :: 0 <= k < |rs| ==> GoodRedir(rs[k])
    ensures Typable(Wrap(cmd, rs))
  {
    if rs != [] {
      WrapTypable(cmd, rs[..|rs| - 1]);
      assert GoodRedir(rs[|rs| - 1]);
    }
  }

  lemma {:induction false} ItemsTypable(argv: seq<string>, rs: seq<Redirection>, ts: seq<Token>)
    requires AllGood(ts) && |argv| < MAXARGS && (forall k :: 0 <= k < |argv| ==> GoodWord(argv[k]))
    requires forall k :: 0 <= k < |rs| ==> GoodRedir(rs[k])
    ensures var r := PItems(argv, rs, ts); r.Parsed? ==> Typable(r.cmd) && AllGood(r.rest)
    decreases |ts|
  {
    if AtRedir(ts) {
      if |ts| >= 2 && ts[1].Word? {
        assert GoodToken(ts[1]);
        ItemsTypable(argv, rs + [RedirOf(ts[0].c, ts[1].s)], ts[2..]);
      }
    } else if AtEnd(ts) {
      WrapTypable(Exec(argv), rs);
    } else if ts[0].Word? && |argv| + 1 < MAXARGS {
      assert GoodToken(ts[0]);
      ItemsTypable(argv + [ts[0].s], rs, ts[1..]);
    }
  }

  lemma {:induction false} LineTypable(ts: seq<Token>, level: nat)
    requires AllGood(ts) && level <= 2
    ensures var r := if level == 0 then PExec(ts) else if level == 1 then PPipe(ts) else PLine(ts);
      r.Parsed? ==> Typable(r.cmd) && AllGood(r.rest)
    decreases |ts|, level
  {
    if level == 0 {
      if !Head(ts, '(') {
        ItemsTypable([], [], ts);
      } else {
        LineTypable(ts[1..], 2);
        var r := PLine(ts[1..]);
        if r.Parsed? && Head(r.rest, ')') {
          RedirsTypable(r.cmd, r.rest[1..]);
        }
      }
    } else if level == 1 {
      LineTypable(ts, 0);
      var r := PExec(ts);
      if r.Parsed? && Head(r.rest, '|') {
        LineTypable(r.rest[1..], 1);
      }
    } else {
      LineTypable(ts, 1);
      var r := PPipe(ts);
      if r.Parsed? {
        BacksTypable(r.cmd, r.rest);
        var (d, rest) := PBacks(r.cmd, r.rest);
        if Head(rest, ';') {
          LineTypable(rest[1..], 2);
        }
      }
    }
  }

  lemma {:induction false} BacksTypable(c: Cmd<string>, ts: seq<Token>)
    requires Typable(c) && AllGood(ts)
    ensures Typable(PBacks(c, ts).0) && AllGood(PBacks(c, ts).1)
    decreases |ts|
  {
    if Head(ts, '&') {
      BacksTypable(Back(c), ts[1..]);
    }
  }

  lemma {:induction false} TokensGood(s: string)
    ensures AllGood(Tokens(s))
    decreases |s|
  {
    if s != "" {
      TokensGood(s[1..]);
      if |s| > 1 {
        TokensGood(s[2..]);
      }
      if WordChar(s[0]) {
        TokensGood(s[WordLength(s)..]);
      }
    }
  }

  /** A line that parses means the same as the canonical text of its tree. */
  lemma ParsedHasText(s: string)
    requires PCmd(Tokens(s)).Parsed?
    ensures var t := PCmd(Tokens(s)).cmd; Typable(t) && PCmd(Tokens(Unparse(t))) == Parsed(t, [])
  {
    TokensGood(s);
    LineTypable(Tokens(s), 2);
    RoundTrip(PCmd(Tokens(s)).cmd);
  }

  // ----- The three redirections -----

  /** ts with every >> replaced by >. */
  function Replaced(ts: seq<Token>): (r: seq<Token>)
    ensures |r| == |ts| && forall k :: 0 <= k < |ts| ==> r[k] == if ts[k] == Sym('+') then Sym('>') else ts[k]
  {
    seq(|ts|, k requires 0 <= k < |ts| => if ts[k] == Sym('+') then Sym('>') else ts[k])
  }

  function ReplacedRest(p: Parsed): Parsed {
    if p.Failed? then Failed else Parsed(p.cmd, Replaced(p.rest))
  }

  lemma ReplacedTail(ts: seq<Token>, n: nat)
    requires n <= |ts|
    ensures Replaced(ts[n..]) == Replaced(ts)[n..]
  {
  }

  lemma ReplacedHead(ts: seq<Token>)
    ensures forall c :: c != '+' && c != '>' ==> (Head(Replaced(ts), c) <==> Head(ts, c))
    ensures AtRedir(Replaced(ts)) <==> AtRedir(ts)
    ensures AtEnd(Replaced(ts)) <==> AtEnd(ts)
  {
    if ts != [] {
      assert Replaced(ts)[0] == if ts[0] == Sym('+') then Sym('>') else ts[0];
    }
  }

  lemma {:induction false} ReplacedRedirs(cmd: Cmd<string>, ts: seq<Token>)
    ensures PRedirs(cmd, Replaced(ts)) == ReplacedRest(PRedirs(cmd, ts))
    decreases |ts|
  {
    ReplacedHead(ts);
    if AtRedir(ts) && |ts| >= 2 && ts[1].Word? {
      var r := RedirOf(ts[0].c, ts[1].s);
      ReplacedTail(ts, 2);
      ReplacedRedirs(Redir(cmd, r.file, r.mode, r.fd), ts[2..]);
    }
  }

  lemma {:induction false} ReplacedItems(argv: seq<string>, rs: seq<Redirection>, ts: seq<Token>)
    ensures PItems(argv, rs, Replaced(ts)) == ReplacedRest(PItems(argv, rs, ts))
    decreases |ts|
  {
    ReplacedHead(ts);
    if AtRedir(ts) {
      if |ts| >= 2 && ts[1].Word? {
        ReplacedTail(ts, 2);
        ReplacedItems(argv, rs + [RedirOf(ts[0].c, ts[1].s)], ts[2..]);
      }
    } else if !AtEnd(ts) && ts[0].Word? && |argv| + 1 < MAXARGS {
      ReplacedTail(ts, 1);
      ReplacedItems(argv + [ts[0].s], rs, ts[1..]);
    }
  }

  lemma {:induction false} ReplacedBacks(c: Cmd<string>, ts: seq<Token>)
    ensures PBacks(c, Replaced(ts)) == (PBacks(c, ts).0, Replaced(PBacks(c, ts).1))
    decreases |ts|
  {
    ReplacedHead(ts);
    if Head(ts, '&') {
      ReplacedTail(ts, 1);
      ReplacedBacks(Back(c), ts[1..]);
    }
  }

  lemma {:induction false} ReplacedExec(ts: seq<Token>)
    ensures PExec(Replaced(ts)) == ReplacedRest(PExec(ts))
    decreases |ts|, 0
  {
    ReplacedHead(ts);
    if !Head(ts, '(') {
      ReplacedItems([], [], ts);
    } else {
      ReplacedTail(ts, 1);
      ReplacedLine(ts[1..]);
      var p := PLine(ts[1..]);
      if p.Parsed? {
        ReplacedHead(p.rest);
        if Head(p.rest, ')') {
          ReplacedTail(p.rest, 1);
          ReplacedRedirs(p.cmd, p.rest[1..]);
        }
      }
    }
  }

  lemma {:induction false} ReplacedPipe(ts: seq<Token>)
    ensures PPipe(Replaced(ts)) == ReplacedRest(PPipe(ts))
    decreases |ts|, 1
  {
    ReplacedExec(ts);
    var p := PExec(ts);
    if p.Parsed? {
      ReplacedHead(p.rest);
      if Head(p.rest, '|') {
        ReplacedTail(p.rest, 1);
        ReplacedPipe(p.rest[1..]);
      }
    }
  }

  lemma {:induction false} ReplacedLine(ts: seq<Token>)
    ensures PLine(Replaced(ts)) == ReplacedRest(PLine(ts))
    decreases |ts|, 2
  {
    ReplacedPipe(ts);
    var p := PPipe(ts);
    if p.Parsed? {
      ReplacedBacks(p.cmd, p.rest);
      var rest := PBacks(p.cmd, p.rest).1;
      ReplacedHead(rest);
      if Head(rest, ';') {
        ReplacedTail(rest, 1);
        ReplacedLine(rest[1..]);
      }
    }
  }

  /** >> opens the file as > does: neither truncates it. */
  lemma AppendIsWrite(ts: seq<Token>)
    ensures PCmd(Replaced(ts)) == PCmd(ts)
  {
    ReplacedLine(ts);
  }

  /** A command and one redirection more. */
  lemma {:induction false} OneMore(t: Cmd<string>, c: char, file: string, mode: nat, fd: nat)
    requires Typable(t) && AtRedir([Sym(c)]) && RedirOf(c, file) == Redirection(file, mode, fd)
    ensures PCmd(UExec(t) + [Sym(c), Word(file)]) == Parsed(Redir(t, file, mode, fd), [])
  {
    var ts, u := [Sym(c), Word(file)], Redir(t, file, mode, fd);
    assert Head([Sym(c)], c) && Head(ts, c);
    ExecTrip(t, ts);
    assert ts[2..] == [];
    assert After(t, ts) == After(u, []);
    AfterEnd(u, []);
    assert PPipe(UExec(t) + ts) == Parsed(u, []);
  }

  lemma {:induction false} TextConcat(a: seq<Token>, b: seq<Token>)
    ensures TextOf(a + b) == TextOf(a) + TextOf(b)
  {
    if a == [] {
      assert a + b == b;
    } else {
      assert (a + b)[1..] == a[1..] + b;
      TextConcat(a[1..], b);
    }
  }

  lemma OneMoreText(t: Cmd<string>, c: char, file: string)
    requires Typable(t) && GoodWord(file) && AtRedir([Sym(c)])
    ensures Tokens(TextOf(UExec(t)) + Spelled(Sym(c)) + " " + file + " ") == UExec(t) + [Sym(c), Word(file)]
  {
    var ts := [Sym(c), Word(file)];
    ExecGood(t);
    TextConcat(UExec(t), ts);
    TextTrip(UExec(t) + ts);
    assert ts[1..] == [Word(file)] && [Word(file)][1..] == [];
    assert TextOf([Word(file)]) == file + " ";
    assert TextOf(ts) == Spelled(Sym(c)) + " " + (file + " ");
    Four(TextOf(UExec(t)), Spelled(Sym(c)), " ", file, " ");
  }

  lemma Four(a: string, b: string, c: string, d: string, e: string)
    ensures a + (b + c + (d + e)) == a + b + c + d + e
  {
  }

  /** Behind the text of a command, `< file` opens the file for reading as descriptor 0;
      `> file` and `>> file` open it for writing, making it if need be, as descriptor 1. */
  lemma RedirectedText(t: Cmd<string>, file: string)
    requires Typable(t) && GoodWord(file)
    ensures PCmd(Tokens(TextOf(UExec(t)) + "<" + " " + file + " ")) == Parsed(Redir(t, file, 0, 0), [])
    ensures PCmd(Tokens(TextOf(UExec(t)) + ">" + " " + file + " ")) == Parsed(Redir(t, file, 0x201, 1), [])
    ensures PCmd(Tokens(TextOf(UExec(t)) + ">>" + " " + file + " ")) == Parsed(Redir(t, file, 0x201, 1), [])
  {
    OneMoreText(t, '<', file);
    OneMore(t, '<', file, 0, 0);
    OneMoreText(t, '>', file);
    OneMore(t, '>', file, 0x201, 1);
    OneMoreText(t, '+', file);
    OneMore(t, '+', file, 0x201, 1);
  }

  // ----- The operators -----

  lemma TextAround(a: seq<Token>, c: char, b: seq<Token>, op: string)
    requires op == Spelled(Sym(c)) + " "
    ensures TextOf(a + [Sym(c)] + b) == TextOf(a) + op + TextOf(b)
  {
    TextConcat(a + [Sym(c)], b);
    TextConcat(a, [Sym(c)]);
    assert [Sym(c)][1..] == [];
    assert TextOf([Sym(c)]) == op;
  }

  lemma PipeText(l: Cmd<string>, r: Cmd<string>)
    requires Typable(l) && Typable(r)
    ensures PCmd(Tokens(TextOf(UExec(l)) + "| " + TextOf(UPipe(r)))) == Parsed(Pipe(l, r), [])
  {
    TextAround(UExec(l), '|', UPipe(r), "| ");
    var t := Pipe(l, r);
    assert ULine(t) == UBack(t) == UPipe(t) == UExec(l) + [Sym('|')] + UPipe(r);
    RoundTrip(Pipe(l, r));
  }

  lemma ListText(l: Cmd<string>, r: Cmd<string>)
    requires Typable(l) && Typable(r)
    ensures PCmd(Tokens(TextOf(UBack(l)) + "; " + TextOf(ULine(r)))) == Parsed(List(l, r), [])
  {
    TextAround(UBack(l), ';', ULine(r), "; ");
    assert ULine(List(l, r)) == UBack(l) + [Sym(';')] + ULine(r);
    RoundTrip(List(l, r));
  }

  lemma BackText(t: Cmd<string>)
    requires Typable(t)
    ensures PCmd(Tokens(TextOf(UBack(t)) + "& ")) == Parsed(Back(t), [])
  {
    TextAround(UBack(t), '&', [], "& ");
    assert UBack(t) + [Sym('&')] + [] == ULine(Back(t)) && TextOf(UBack(t)) + "& " + "" == TextOf(UBack(t)) + "& ";
    RoundTrip(Back(t));
  }

  /** What the operators make of the commands around them. */
  lemma OperatorText(l: Cmd<string>, r: Cmd<string>)
    requires Typable(l) && Typable(r)
    ensures PCmd(Tokens(TextOf(UExec(l)) + "| " + TextOf(UPipe(r)))) == Parsed(Pipe(l, r), [])
    ensures PCmd(Tokens(TextOf(UBack(l)) + "; " + TextOf(ULine(r)))) == Parsed(List(l, r), [])
    ensures PCmd(Tokens(TextOf(UBack(l)) + "& ")) == Parsed(Back(l), [])
    ensures PCmd(Tokens("( " + TextOf(ULine(l)) + ") ")) == Parsed(l, [])
  {
    PipeText(l, r);
    ListText(l, r);
    BackText(l);
    InParentheses(l);
  }

  lemma InParentheses(t: Cmd<string>)
    requires Typable(t)
    ensures PCmd(Tokens("( " + TextOf(ULine(t)) + ") ")) == Parsed(t, [])
  {
    var line, all := ULine(t), [Sym('(')] + ULine(t) + [Sym(')')];
    TextAround([], '(', line, "( ");
    TextAround([Sym('(')] + line, ')', [], ") ");
    assert [] + [Sym('(')] + line == [Sym('(')] + line && "" + "( " + TextOf(line) == "( " + TextOf(line);
    assert all + [] == all && "( " + TextOf(line) + ") " + "" == "( " + TextOf(line) + ") ";
    LineGood(t);
    TextTrip(all);
    LineTrip(t, [Sym(')')]);
    Inside(line, []);
    assert all + [] == all && [Sym(')')] + [] == [Sym(')')];
    assert [Sym(')')][1..] == [];
    assert PExec(all) == Parsed(t, []);
    assert PPipe(all) == Parsed(t, []);
  }

  // ----- Blanks -----

  /** The characters of `whitespace`. */
  predicate Blank(g: string) {
    forall k :: 0 <= k < |g| ==> g[k] in [' ', '\t', '\r', '\n', '\U{0b}']
  }

  /** Tokens that would be read as one if nothing stood between them. */
  predicate Sticks(t: Token, u: Token) {
    (t.Word? && u.Word?) || (t == Sym('>') && (u == Sym('>') || u == Sym('+')))
  }

  /** gaps[k] follows token k. */
  function SpacedText(ts: seq<Token>, gaps: seq<string>): string
    requires |gaps| == |ts|
  {
    if ts == [] then "" else Spelled(ts[0]) + (gaps[0] + SpacedText(ts[1..], gaps[1..]))
  }

  lemma {:induction false} SkipBlanks(g: string, s: string)
    requires Blank(g)
    ensures Tokens(g + s) == Tokens(s)
  {
    if g == "" {
      assert g + s == s;
    } else {
      assert (g + s)[1..] == g[1..] + s;
      SkipBlanks(g[1..], s);
    }
  }

  /** s does not go on with a character that belongs to t. */
  predicate Ends(t: Token, s: string) {
    s == "" || (if t.Word? then !WordChar(s[0]) else t == Sym('>') ==> s[0] != '>')
  }

  lemma TokenBefore(t: Token, s: string)
    requires GoodToken(t) && Ends(t, s)
    ensures Tokens(Spelled(t) + s) == [t] + Tokens(s)
  {
    var all := Spelled(t) + s;
    match t
    case Word(w) =>
      WordEnds(w, s);
      assert all[|w|..] == s && all[..|w|] == w && all[0] == w[0];
    case Sym(c) =>
      if c == '+' {
        assert all[2..] == s;
      } else {
        assert all[1..] == s;
      }
  }

  lemma SpacedEnds(t: Token, g: string, ts: seq<Token>, gaps: seq<string>)
    requires |gaps| == |ts| && Blank(g) && GoodToken(t) && AllGood(ts) && (ts != [] && Sticks(t, ts[0]) ==> g != "")
    ensures Ends(t, g + SpacedText(ts, gaps))
  {
    var s := SpacedText(ts, gaps);
    if g != "" {
      assert (g + s)[0] == g[0];
    } else if ts != [] {
      assert g + s == s && GoodToken(ts[0]) && s[0] == Spelled(ts[0])[0];
    }
  }

  /** Blanks may be left out or put in at will: a line is read as the same tokens however
      many there are between them, as long as there is one where two tokens would stick. */
  lemma {:induction false} SpacedTrip(ts: seq<Token>, gaps: seq<string>)
    requires |gaps| == |ts| && AllGood(ts) && forall k :: 0 <= k < |gaps| ==> Blank(gaps[k])
    requires forall k :: 0 <= k < |ts| - 1 && Sticks(ts[k], ts[k + 1]) ==> gaps[k] != ""
    ensures Tokens(SpacedText(ts, gaps)) == ts
  {
    if ts != [] {
      SpacedTrip(ts[1..], gaps[1..]);
      SpacedEnds(ts[0], gaps[0], ts[1..], gaps[1..]);
      TokenBefore(ts[0], gaps[0] + SpacedText(ts[1..], gaps[1..]));
      SkipBlanks(gaps[0], SpacedText(ts[1..], gaps[1..]));
    }
  }
}
