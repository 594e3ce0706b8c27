/** The parser undoes the printer: every well-formed command is read back as it was, and what the parser
accepts is well formed. */
module ShellRoundTrip {

  import opened Common
  import opened ShellGrammar

  // Nothing to skip at the front.
  ghost predicate Tight(r: string) {
    r == "" || !Space(r[0])
  }

  // r is empty or begins with one of toks.
  ghost predicate Begins(r: string, toks: set<char>) {
    r == "" || r[0] in toks
  }

  lemma {:induction false} WordAt(w: string, post: string)
    requires forall i | 0 <= i < |w| :: Plain(w[i])
    requires post == "" || Space(post[0]) || Symbol(post[0])
    ensures WordLength(w + post) == |w|
  {
    if w == "" {
      assert w + post == post;
    } else {
      WordAt(w[1..], post);
      assert (w + post)[1..] == w[1..] + post;
    }
  }

  lemma TokenWord(w: string, post: string)
    requires IsWord(w) && (post == "" || Space(post[0]) || Symbol(post[0]))
    ensures GetToken(w + post) == Token('a', w, Skip(post))
  {
    WordAt(w, post);
    assert (w + post)[0] == w[0] && Plain(w[0]);
    assert (w + post)[..|w|] == w && (w + post)[|w|..] == post;
  }

  // A symbol other than > followed by anything, or > not followed by another.
  lemma TokenSymbol(c: char, post: string)
    requires Symbol(c) && (c == '>' ==> post == "" || post[0] != '>')
    ensures GetToken([c] + post) == Token(c, [c], Skip(post))
  {
    assert ([c] + post)[1..] == post && ([c] + post)[..1] == [c];
  }

  // The characters that are neither white space nor symbols nor the end of a string.
  ghost predicate Ordinary(w: string) {
    && w != ""
    && forall k | 0 <= k < |w| :: w[k] !in {' ', '\t', '\r', '\n', '\U{B}', '<', '|', '>', '&', ';', '(', ')', '\0'}
  }

  /** A word is cut off by any of the five blank characters, in front of it and behind, and they are dropped. */
  lemma BlanksEndWord(w: string, b: char, c: char, r: string)
    requires Ordinary(w) && b in {' ', '\t', '\r', '\n', '\U{B}'} && c in {' ', '\t', '\r', '\n', '\U{B}'}
    requires r == "" || r[0] !in {' ', '\t', '\r', '\n', '\U{B}'}
    ensures GetToken(w + ([c] + r)) == GetToken([b] + (w + ([c] + r))) == Token('a', w, r)
  {
    TokenWord(w, [c] + r);
    assert ([c] + r)[1..] == r && ([b] + (w + ([c] + r)))[1..] == w + ([c] + r);
    assert Skip([c] + r) == r && Skip(w + ([c] + r)) == w + ([c] + r);
  }

  /** A word is cut off by any of the seven symbols, which is left for the next token. */
  lemma SymbolsEndWord(w: string, c: char, r: string)
    requires Ordinary(w) && c in {'<', '|', '>', '&', ';', '(', ')'}
    ensures GetToken(w + ([c] + r)) == Token('a', w, [c] + r)
    ensures GetToken([c] + r).text == if c == '>' && r != "" && r[0] == '>' then ">>" else [c]
  {
    TokenWord(w, [c] + r);
    assert Skip([c] + r) == [c] + r;
    assert ([c] + r)[..1] == [c] && (r != "" ==> ([c] + r)[..2] == [c, r[0]]);
  }

  function PrintRedirs(rs: seq<Redirection<string>>, post: string): string {
    if rs == [] then post else [Op(rs[0].out)] + (rs[0].file + (" " + PrintRedirs(rs[1..], post)))
  }

  ghost predicate Files(rs: seq<Redirection<string>>) {
    forall i | 0 <= i < |rs| :: IsWord(rs[i].file)
  }

  // One step of the redirection loop, and its end.
  lemma RedirsStep(r: string, op: Token, file: Token)
    requires Tight(r) && r != "" && (r[0] == '<' || r[0] == '>')
    requires op == GetToken(r) && file == GetToken(op.rest) && file.kind == 'a'
    ensures ParseRedirs(r) == var p := ParseRedirs(file.rest);
                              if p.None? then None else Some(([Redirection(file.text, op.kind != '<')] + p.value.0,
                                                              p.value.1))
  {
  }

  lemma RedirsStop(r: string)
    requires Tight(r) && (r == "" || (r[0] != '<' && r[0] != '>'))
    ensures ParseRedirs(r) == Some(([], r))
  {
  }

  lemma SkipBlank(r: string)
    requires Tight(r)
    ensures Skip(" " + r) == r
  {
  }

  // A word and the blank after it.
  lemma TokenBlank(w: string, post: string)
    requires IsWord(w) && Tight(post)
    ensures GetToken(w + (" " + post)) == Token('a', w, post)
    ensures (w + (" " + post))[0] == w[0] && Plain(w[0])
  {
    TokenWord(w, " " + post);
    SkipBlank(post);
  }

  lemma TokenSymbolWord(c: char, w: string, post: string)
    requires Symbol(c) && IsWord(w)
    ensures GetToken([c] + (w + post)) == Token(c, [c], w + post)
  {
  }

  lemma {:induction false} RedirsParse(rs: seq<Redirection<string>>, post: string)
    requires Files(rs) && Begins(post, {'|', ')', '&', ';'})
    ensures ParseRedirs(PrintRedirs(rs, post)) == Some((rs, post))
    ensures Begins(PrintRedirs(rs, post), {'|', ')', '&', ';', '<', '>'})
  {
    hide ParseRedirs, GetToken;
    if rs == [] {
      RedirsStop(post);
    } else {
      var op, tail := Op(rs[0].out), PrintRedirs(rs[1..], post);
      RedirsParse(rs[1..], post);
      TokenSymbolWord(op, rs[0].file, " " + tail);
      TokenBlank(rs[0].file, tail);
      RedirsStep(PrintRedirs(rs, post), Token(op, [op], rs[0].file + (" " + tail)), Token('a', rs[0].file, tail));
      assert rs == [rs[0]] + rs[1..];
    }
  }

  // One step of the argument loop, and its end.
  lemma ArgsStep(done: seq<string>, rs0: seq<Redirection<string>>, r: string, t: Token, rs: seq<Redirection<string>>,
                 r': string)
    requires r != "" && Plain(r[0]) && t == GetToken(r) && t.kind == 'a' && |done| < 9
             && ParseRedirs(t.rest) == Some((rs, r'))
    ensures ParseArgs(done, rs0, r) == ParseArgs(done + [t.text], rs0 + rs, r')
  {
  }

  lemma ArgsStop(done: seq<string>, rs: seq<Redirection<string>>, post: string)
    requires Begins(post, {'|', ')', '&', ';'})
    ensures ParseArgs(done, rs, post) == Some((Wrap(Exec(done), rs), post))
  {
  }

  // Arguments still to come, and after the last one redirections.
  lemma {:induction false} ArgsParse(done: seq<string>, ws: seq<string>, rs: seq<Redirection<string>>, post: string)
    requires ws != [] && |done| + |ws| <= 9 && (forall i | 0 <= i < |ws| :: IsWord(ws[i])) && Files(rs)
             && Begins(post, {'|', ')', '&', ';'})
    ensures ParseArgs(done, [], PrintArgs(ws, PrintRedirs(rs, post))) == Some((Wrap(Exec(done + ws), rs), post))
    ensures PrintArgs(ws, PrintRedirs(rs, post)) != "" && Plain(PrintArgs(ws, PrintRedirs(rs, post))[0])
    decreases |ws|
  {
    hide ParseArgs, ParseRedirs, GetToken;
    var none: seq<Redirection<string>> := [];
    var last := PrintRedirs(rs, post);
    var tail := PrintArgs(ws[1..], last);
    RedirsParse(rs, post);
    assert done + ws == done + [ws[0]] + ws[1..] && none + rs == rs && none + none == none;
    if |ws| == 1 {
      TokenBlank(ws[0], last);
      ArgsStep(done, none, PrintArgs(ws, last), Token('a', ws[0], last), rs, post);
      assert done + ws == done + [ws[0]];
      ArgsStop(done + ws, rs, post);
    } else {
      ArgsParse(done + [ws[0]], ws[1..], rs, post);
      TokenBlank(ws[0], tail);
      RedirsStop(tail);
      ArgsStep(done, none, PrintArgs(ws, last), Token('a', ws[0], tail), none, tail);
    }
  }

  // A command without its outer redirections, and those, innermost first.
  function Core(c: Cmd<string>): Cmd<string> {
    if c.Redir? then Core(c.cmd) else c
  }

  function Redirs(c: Cmd<string>): seq<Redirection<string>> {
    if c.Redir? then Redirs(c.cmd) + [Redirection(c.file, c.out)] else []
  }

  lemma {:induction false} WrapLast<T>(c: Cmd<T>, rs: seq<Redirection<T>>, x: Redirection<T>)
    ensures Wrap(c, rs + [x]) == Redir(Wrap(c, rs), x.file, x.out)
    decreases |rs|
  {
    if rs != [] {
      assert (rs + [x])[1..] == rs[1..] + [x];
      WrapLast(Redir(c, rs[0].file, rs[0].out), rs[1..], x);
    }
  }

  lemma {:induction false} PrintRedirsLast(rs: seq<Redirection<string>>, x: Redirection<string>, post: string)
    ensures PrintRedirs(rs + [x], post) == PrintRedirs(rs, [Op(x.out)] + (x.file + (" " + post)))
  {
    if rs == [] {
      assert (rs + [x])[1..] == [];
    } else {
      assert (rs + [x])[1..] == rs[1..] + [x];
      PrintRedirsLast(rs[1..], x, post);
    }
  }

  lemma {:induction false} Unwrapped(c: Cmd<string>, post: string)
    requires WellFormed(c)
    ensures c == Wrap(Core(c), Redirs(c)) && !Core(c).Redir? && WellFormed(Core(c)) && Files(Redirs(c))
    ensures PrintUnit(c, post) == PrintUnit(Core(c), PrintRedirs(Redirs(c), post))
    ensures Core(c) == c || Core(c) < c
  {
    if c.Redir? {
      var x := Redirection(c.file, c.out);
      Unwrapped(c.cmd, [Op(c.out)] + (c.file + (" " + post)));
      WrapLast(Core(c.cmd), Redirs(c.cmd), x);
      PrintRedirsLast(Redirs(c.cmd), x, post);
    }
  }

  // A block: the command in parentheses, then its redirections.
  lemma BlockStep(r: string, c: Cmd<string>, r1: string, rs: seq<Redirection<string>>, post: string)
    requires Tight(r) && ParseLine(r) == Some((c, ")" + r1)) && Tight(r1) && ParseRedirs(r1) == Some((rs, post))
    ensures ParseExec("(" + r) == Some((Wrap(c, rs), post))
  {
    TokenSymbol('(', r);
    TokenSymbol(')', r1);
    assert Peek("(" + r, {'('}) && Peek(")" + r1, {')'});
  }

  lemma ExecStep(r: string, rs: seq<Redirection<string>>, r1: string)
    requires Tight(r) && (r == "" || r[0] != '(') && ParseRedirs(r) == Some((rs, r1))
    ensures ParseExec(r) == ParseArgs([], rs, r1)
  {
  }

  // Nothing the printer writes begins with white space.
  lemma {:induction false} PrintTight(c: Cmd<string>, level: nat, post: string)
    requires WellFormed(c) && Tight(post) && level < 4
    ensures level == 0 ==> Tight(PrintUnit(c, post))
    ensures level == 1 ==> Tight(PrintPipe(c, post))
    ensures level == 2 ==> Tight(PrintBack(c, post))
    ensures level == 3 ==> Tight(PrintLine(c, post))
    decreases c, Above(c, level)
  {
    if level > Level(c) || (level < Level(c) && level > 0) {
      PrintTight(c, level - 1, post);
    } else if level == Level(c) {
      match c
      case Exec(argv) => assert argv != [] ==> Plain(argv[0][0]);
      case Redir(d, file, out) => PrintTight(d, 0, [Op(out)] + (file + (" " + post)));
      case Pipe(l, r) => PrintTight(l, 0, "|" + PrintPipe(r, post));
      case Back(d) => PrintTight(d, 2, "&" + post);
      case List(l, r) => PrintTight(l, 2, ";" + PrintLine(r, post));
    }
  }

  // A simple command with its redirections.
  lemma SimpleParse(argv: seq<string>, rs: seq<Redirection<string>>, post: string)
    requires |argv| <= 9 && (forall i | 0 <= i < |argv| :: IsWord(argv[i])) && Files(rs)
             && Begins(post, {'|', ')', '&', ';'})
    ensures ParseExec(PrintArgs(argv, PrintRedirs(rs, post))) == Some((Wrap(Exec(argv), rs), post))
  {
    RedirsParse(rs, post);
    if argv == [] {
      ExecStep(PrintRedirs(rs, post), rs, post);
      ArgsStop([], rs, post);
    } else {
      var none: seq<Redirection<string>> := [];
      ArgsParse([], argv, rs, post);
      assert [] + argv == argv;
      RedirsStop(PrintArgs(argv, PrintRedirs(rs, post)));
      ExecStep(PrintArgs(argv, PrintRedirs(rs, post)), none, PrintArgs(argv, PrintRedirs(rs, post)));
    }
  }

  lemma {:induction false} UnitParse(c: Cmd<string>, post: string)
    requires WellFormed(c) && Begins(post, {'|', ')', '&', ';'})
    ensures ParseExec(PrintUnit(c, post)) == Some((c, post))
    decreases c, Above(c, 0)
  {
    var core, rs := Core(c), Redirs(c);
    Unwrapped(c, post);
    if core.Exec? {
      SimpleParse(core.argv, rs, post);
    } else {
      var tail := PrintRedirs(rs, post);
      RedirsParse(rs, post);
      LineParse(core, ")" + tail);
      PrintTight(core, 3, ")" + tail);
      BlockStep(PrintLine(core, ")" + tail), core, tail, rs, post);
    }
  }

  lemma PipeStep(r: string, l: Cmd<string>, r1: string, c: Cmd<string>, post: string)
    requires ParseExec(r) == Some((l, "|" + r1)) && Tight(r1) && ParsePipe(r1) == Some((c, post))
    ensures ParsePipe(r) == Some((Pipe(l, c), post))
  {
  }

  lemma {:induction false} PipeParse(c: Cmd<string>, post: string)
    requires WellFormed(c) && Begins(post, {')', '&', ';'})
    ensures ParsePipe(PrintPipe(c, post)) == Some((c, post))
    decreases c, Above(c, 1)
  {
    if c.Pipe? {
      var tail := PrintPipe(c.right, post);
      UnitParse(c.left, "|" + tail);
      PipeParse(c.right, post);
      PrintTight(c.right, 1, post);
      PipeStep(PrintPipe(c, post), c.left, tail, c.right, post);
    } else {
      UnitParse(c, post);
    }
  }

  // The pipeline inside, and then one & after the other.
  lemma {:induction false} BackParse(c: Cmd<string>, post: string)
    requires WellFormed(c) && Begins(post, {')', '&', ';'})
    ensures var p := ParsePipe(PrintBack(c, post)); p.Some? && ParseBacks(p.value.0, p.value.1) == ParseBacks(c, post)
    decreases c, Above(c, 2)
  {
    if c.Back? {
      BackParse(c.cmd, "&" + post);
      TokenSymbol('&', post);
      assert Peek("&" + post, {'&'});
    } else {
      PipeParse(c, post);
    }
  }

  lemma LineStep(r: string, p: (Cmd<string>, string), c: Cmd<string>, r1: string, d: Cmd<string>, post: string)
    requires ParsePipe(r) == Some(p) && ParseBacks(p.0, p.1) == (c, ";" + r1) && Tight(r1)
             && ParseLine(r1) == Some((d, post))
    ensures ParseLine(r) == Some((List(c, d), post))
  {
    TokenSymbol(';', r1);
    assert Peek(";" + r1, {';'});
  }

  lemma BacksStop(c: Cmd<string>, r: string)
    requires Begins(r, {')', ';'})
    ensures ParseBacks(c, r) == (c, r)
  {
  }

  lemma {:induction false} LineParse(c: Cmd<string>, post: string)
    requires WellFormed(c) && Begins(post, {')'})
    ensures ParseLine(PrintLine(c, post)) == Some((c, post))
    decreases c, Above(c, 3)
  {
    if c.List? {
      var tail := PrintLine(c.right, post);
      BackParse(c.left, ";" + tail);
      BacksStop(c.left, ";" + tail);
      LineParse(c.right, post);
      PrintTight(c.right, 3, post);
      LineStep(PrintLine(c, post), ParsePipe(PrintLine(c, post)).value, c.left, tail, c.right, post);
    } else {
      BackParse(c, post);
      BacksStop(c, post);
    }
  }

  /** Every well-formed command, printed and parsed, is itself again. */
  lemma RoundTrip(c: Cmd<string>)
    requires WellFormed(c)
    ensures ParseCmd(Print(c)) == Some(c)
  {
    LineParse(c, "");
  }

  ghost predicate NoNul(r: string) {
    forall i | 0 <= i < |r| :: r[i] != '\0'
  }

  lemma {:induction false} SkipNoNul(r: string)
    requires NoNul(r)
    ensures NoNul(Skip(r))
  {
    if r != "" && Space(r[0]) {
      SkipNoNul(r[1..]);
    }
  }

  lemma {:induction false} WordPlain(r: string)
    requires NoNul(r)
    ensures forall i | 0 <= i < WordLength(r) :: Plain(r[i])
  {
    if r != "" && !Space(r[0]) && !Symbol(r[0]) {
      WordPlain(r[1..]);
      forall i | 0 <= i < WordLength(r) ensures Plain(r[i]) {
        assert i > 0 ==> r[i] == r[1..][i - 1];
      }
    }
  }

  lemma TokenNoNul(r: string)
    requires NoNul(r)
    ensures NoNul(GetToken(r).rest) && (GetToken(r).kind == 'a' ==> IsWord(GetToken(r).text))
  {
    SkipNoNul(r);
    SkipShrinks(r);
    var r1 := Skip(r);
    WordPlain(r1);
    SkipNoNul(r1[TokenLength(r1)..]);
  }

  lemma {:induction false} RedirsWellFormed(r: string)
    requires NoNul(r) && ParseRedirs(r).Some?
    ensures Files(ParseRedirs(r).value.0) && NoNul(ParseRedirs(r).value.1)
    decreases |r|
  {
    SkipNoNul(r);
    if Peek(r, {'<', '>'}) {
      var op := GetToken(Skip(r));
      TokenNoNul(Skip(r));
      TokenNoNul(op.rest);
      SkipShrinks(r);
      RedirsWellFormed(GetToken(op.rest).rest);
    }
  }

  lemma {:induction false} WrapWellFormed(c: Cmd<string>, rs: seq<Redirection<string>>)
    requires WellFormed(c) && Files(rs)
    ensures WellFormed(Wrap(c, rs))
    decreases |rs|
  {
    if rs != [] {
      WrapWellFormed(Redir(c, rs[0].file, rs[0].out), rs[1..]);
    }
  }

  lemma {:induction false} ArgsWellFormed(argv: seq<string>, rs: seq<Redirection<string>>, r: string)
    requires NoNul(r) && WellFormed(Exec(argv)) && Files(rs) && ParseArgs(argv, rs, r).Some?
    ensures WellFormed(ParseArgs(argv, rs, r).value.0) && NoNul(ParseArgs(argv, rs, r).value.1)
    decreases |r|
  {
    SkipNoNul(r);
    SkipShrinks(r);
    WrapWellFormed(Exec(argv), rs);
    var t := GetToken(Skip(r));
    TokenNoNul(Skip(r));
    if !Peek(r, {'|', ')', '&', ';'}) && t.kind == 'a' {
      RedirsWellFormed(t.rest);
      var p := ParseRedirs(t.rest).value;
      ArgsWellFormed(argv + [t.text], rs + p.0, p.1);
    }
  }

  lemma {:induction false} ExecWellFormed(r: string)
    requires NoNul(r) && ParseExec(r).Some?
    ensures WellFormed(ParseExec(r).value.0) && NoNul(ParseExec(r).value.1)
    decreases |r|, 0
  {
    SkipNoNul(r);
    SkipShrinks(r);
    TokenNoNul(Skip(r));
    if Peek(r, {'('}) {
      var inner := GetToken(Skip(r)).rest;
      LineWellFormed(inner);
      var p := ParseLine(inner).value;
      SkipNoNul(p.1);
      TokenNoNul(Skip(p.1));
      RedirsWellFormed(GetToken(Skip(p.1)).rest);
      WrapWellFormed(p.0, ParseRedirs(GetToken(Skip(p.1)).rest).value.0);
    } else {
      RedirsWellFormed(Skip(r));
      var q := ParseRedirs(Skip(r)).value;
      ArgsWellFormed([], q.0, q.1);
    }
  }

  lemma {:induction false} PipeWellFormed(r: string)
    requires NoNul(r) && ParsePipe(r).Some?
    ensures WellFormed(ParsePipe(r).value.0) && NoNul(ParsePipe(r).value.1)
    decreases |r|, 1
  {
    ExecWellFormed(r);
    var p := ParseExec(r).value;
    SkipNoNul(p.1);
    SkipShrinks(p.1);
    TokenNoNul(Skip(p.1));
    if Peek(p.1, {'|'}) {
      PipeWellFormed(GetToken(Skip(p.1)).rest);
    }
  }

  lemma {:induction false} BacksWellFormed(c: Cmd<string>, r: string)
    requires NoNul(r) && WellFormed(c)
    ensures WellFormed(ParseBacks(c, r).0) && NoNul(ParseBacks(c, r).1)
    decreases |r|
  {
    SkipNoNul(r);
    SkipShrinks(r);
    TokenNoNul(Skip(r));
    if Peek(r, {'&'}) {
      BacksWellFormed(Back(c), GetToken(Skip(r)).rest);
    }
  }

  lemma {:induction false} LineWellFormed(r: string)
    requires NoNul(r) && ParseLine(r).Some?
    ensures WellFormed(ParseLine(r).value.0) && NoNul(ParseLine(r).value.1)
    decreases |r|, 2
  {
    PipeWellFormed(r);
    var p := ParsePipe(r).value;
    BacksWellFormed(p.0, p.1);
    var r1 := ParseBacks(p.0, p.1).1;
    SkipNoNul(r1);
    SkipShrinks(r1);
    TokenNoNul(Skip(r1));
    if Peek(r1, {';'}) {
      LineWellFormed(GetToken(Skip(r1)).rest);
    }
  }

  /** Whatever the parser accepts is well formed, so printing it and parsing again gives the same. */
  lemma ParseStable(s: string)
    requires NoNul(s) && ParseCmd(s).Some?
    ensures WellFormed(ParseCmd(s).value) && ParseCmd(Print(ParseCmd(s).value)) == ParseCmd(s)
  {
    LineWellFormed(s);
    RoundTrip(ParseCmd(s).value);
  }

  /** What the operators of a line mean: pipes nest to the right, redirections go around what stands before them, `<` is
      for input and `>` for output, `;` joins, `&` is for the background and parentheses bind. */
  lemma LineShapes(a: string, b: string, c: string)
    requires Ordinary(a) && Ordinary(b) && Ordinary(c)
    ensures ParseCmd(a + (" |" + (b + (" |" + (c + " "))))) == Some(Pipe(Exec([a]), Pipe(Exec([b]), Exec([c]))))
    ensures ParseCmd(a + (" <" + (b + (" >" + (c + " "))))) == Some(Redir(Redir(Exec([a]), b, false), c, true))
    ensures ParseCmd(a + (" ;" + (b + " &"))) == Some(List(Exec([a]), Back(Exec([b]))))
    ensures ParseCmd("(" + (a + (" ;" + (b + (" )|" + (c + " ")))))) == Some(Pipe(List(Exec([a]), Exec([b])),
                                                                                  Exec([c])))
    ensures ParseCmd(a + (" " + (b + (" " + (c + " "))))) == Some(Exec([a, b, c]))
  {
    PipeShape(a, b, c);
    RedirShape(a, b, c);
    ListShape(a, b);
    BlockShape(a, b, c);
    ArgsShape(a, b, c);
  }

  // A simple command is printed alike at every level.
  lemma ExecPrints(ws: seq<string>, post: string)
    ensures var c, s := Exec(ws), PrintArgs(ws, post);
            PrintUnit(c, post) == PrintPipe(c, post) == PrintBack(c, post) == PrintLine(c, post) == s
    ensures |ws| == 1 ==> PrintArgs(ws, post) == ws[0] + (" " + post)
  {
    var c := Exec(ws);
    assert PrintUnit(c, post) == PrintArgs(ws, post);
    assert PrintPipe(c, post) == PrintUnit(c, post);
    assert PrintBack(c, post) == PrintPipe(c, post);
    assert |ws| == 1 ==> ws[1..] == [];
  }

  lemma PipeShape(a: string, b: string, c: string)
    requires Ordinary(a) && Ordinary(b) && Ordinary(c)
    ensures ParseCmd(a + (" |" + (b + (" |" + (c + " "))))) == Some(Pipe(Exec([a]), Pipe(Exec([b]), Exec([c]))))
  {
    var cmd := Pipe(Exec([a]), Pipe(Exec([b]), Exec([c])));
    RoundTrip(cmd);
    ExecPrints([c], "");
    var last := c + (" " + "");
    ExecPrints([b], "|" + last);
    var mid := b + (" " + ("|" + last));
    ExecPrints([a], "|" + mid);
    assert PrintPipe(cmd.right, "") == PrintUnit(Exec([b]), "|" + PrintPipe(Exec([c]), ""));
    assert PrintPipe(cmd, "") == PrintUnit(Exec([a]), "|" + PrintPipe(cmd.right, ""));
    assert Print(cmd) == PrintBack(cmd, "") == PrintPipe(cmd, "");
    assert a + (" " + ("|" + mid)) == a + (" |" + (b + (" |" + (c + " "))));
  }

  lemma RedirShape(a: string, b: string, c: string)
    requires Ordinary(a) && Ordinary(b) && Ordinary(c)
    ensures ParseCmd(a + (" <" + (b + (" >" + (c + " "))))) == Some(Redir(Redir(Exec([a]), b, false), c, true))
  {
    var cmd := Redir(Redir(Exec([a]), b, false), c, true);
    RoundTrip(cmd);
    var out := ['>'] + (c + (" " + ""));
    var both := ['<'] + (b + (" " + out));
    ExecPrints([a], both);
    assert PrintUnit(cmd, "") == PrintUnit(cmd.cmd, out) == PrintUnit(Exec([a]), both);
    assert Print(cmd) == PrintBack(cmd, "") == PrintPipe(cmd, "") == PrintUnit(cmd, "");
    assert a + (" " + both) == a + (" <" + (b + (" >" + (c + " "))));
  }

  lemma ListShape(a: string, b: string)
    requires Ordinary(a) && Ordinary(b)
    ensures ParseCmd(a + (" ;" + (b + " &"))) == Some(List(Exec([a]), Back(Exec([b]))))
  {
    var cmd := List(Exec([a]), Back(Exec([b])));
    RoundTrip(cmd);
    ExecPrints([b], "&" + "");
    var rest := b + (" " + ("&" + ""));
    ExecPrints([a], ";" + rest);
    assert PrintBack(cmd.right, "") == PrintBack(Exec([b]), "&" + "");
    assert Print(cmd) == PrintBack(Exec([a]), ";" + PrintLine(cmd.right, ""));
    assert a + (" " + (";" + rest)) == a + (" ;" + (b + " &"));
  }

  lemma BlockShape(a: string, b: string, c: string)
    requires Ordinary(a) && Ordinary(b) && Ordinary(c)
    ensures ParseCmd("(" + (a + (" ;" + (b + (" )|" + (c + " ")))))) == Some(Pipe(List(Exec([a]), Exec([b])),
                                                                                  Exec([c])))
  {
    var cmd := Pipe(List(Exec([a]), Exec([b])), Exec([c]));
    RoundTrip(cmd);
    ExecPrints([c], "");
    var last := "|" + (c + (" " + ""));
    ExecPrints([b], ")" + last);
    var mid := b + (" " + (")" + last));
    ExecPrints([a], ";" + mid);
    assert PrintLine(cmd.left, ")" + last) == PrintBack(Exec([a]), ";" + PrintLine(Exec([b]), ")" + last));
    assert PrintUnit(cmd.left, last) == "(" + PrintLine(cmd.left, ")" + last);
    assert PrintPipe(cmd, "") == PrintUnit(cmd.left, "|" + PrintPipe(Exec([c]), ""));
    assert Print(cmd) == PrintBack(cmd, "") == PrintPipe(cmd, "");
    assert "(" + (a + (" " + (";" + mid))) == "(" + (a + (" ;" + (b + (" )|" + (c + " ")))));
  }

  lemma ArgsShape(a: string, b: string, c: string)
    requires Ordinary(a) && Ordinary(b) && Ordinary(c)
    ensures ParseCmd(a + (" " + (b + (" " + (c + " "))))) == Some(Exec([a, b, c]))
  {
    var cmd := Exec([a, b, c]);
    RoundTrip(cmd);
    ExecPrints([c], "");
    assert [a, b, c][1..] == [b, c] && [b, c][1..] == [c];
    ExecPrints([a, b, c], "");
    assert Print(cmd) == a + (" " + PrintArgs([b, c], "")) && PrintArgs([b, c], "") == b + (" " + PrintArgs([c], ""));
    assert c + (" " + "") == c + " ";
  }
}
