/** The shell's parser on its input buffer: loops that move a cursor, words as places in the buffer, and
the pass that ends every word with a NUL in place. */
module ShellParser {

  import opened Common
  import opened ShellGrammar
  import opened ShellRoundTrip

  // The word from lo up to hi.
  datatype Span = Span(lo: nat, hi: nat)

  /** A word of the text: plain characters, with something else or the end behind it. */
  ghost predicate SpanOk(text: string, w: Span) {
    && w.lo < w.hi <= |text| && (forall i | w.lo <= i < w.hi :: Plain(text[i]))
    && (w.hi == |text| || !Plain(text[w.hi]))
  }

  function Word(text: string, w: Span): string {
    if w.lo <= w.hi <= |text| then text[w.lo..w.hi] else ""
  }

  function Words(text: string, ws: seq<Span>): seq<string> {
    seq(|ws|, i requires 0 <= i < |ws| => Word(text, ws[i]))
  }

  function Resolve(text: string, c: Cmd<Span>): Cmd<string> {
    match c
    case Exec(argv) => Exec(Words(text, argv))
    case Redir(d, file, out) => Redir(Resolve(text, d), Word(text, file), out)
    case Pipe(l, r) => Pipe(Resolve(text, l), Resolve(text, r))
    case List(l, r) => List(Resolve(text, l), Resolve(text, r))
    case Back(d) => Back(Resolve(text, d))
  }

  ghost predicate SpansOk(text: string, c: Cmd<Span>) {
    match c
    case Exec(argv) => forall i | 0 <= i < |argv| :: SpanOk(text, argv[i])
    case Redir(d, file, _) => SpansOk(text, d) && SpanOk(text, file)
    case Pipe(l, r) => SpansOk(text, l) && SpansOk(text, r)
    case List(l, r) => SpansOk(text, l) && SpansOk(text, r)
    case Back(d) => SpansOk(text, d)
  }

  function FilesOf(text: string, rs: seq<Redirection<Span>>): seq<Redirection<string>> {
    seq(|rs|, i requires 0 <= i < |rs| => Redirection(Word(text, rs[i].file), rs[i].out))
  }

  ghost predicate FilesOk(text: string, rs: seq<Redirection<Span>>) {
    forall i | 0 <= i < |rs| :: SpanOk(text, rs[i].file)
  }

  lemma {:induction false} ResolveWrap(text: string, c: Cmd<Span>, rs: seq<Redirection<Span>>)
    requires SpansOk(text, c) && FilesOk(text, rs)
    ensures Resolve(text, Wrap(c, rs)) == Wrap(Resolve(text, c), FilesOf(text, rs)) && SpansOk(text, Wrap(c, rs))
    decreases |rs|
  {
    if rs != [] {
      ResolveWrap(text, Redir(c, rs[0].file, rs[0].out), rs[1..]);
      assert FilesOf(text, rs)[1..] == FilesOf(text, rs[1..]);
    }
  }

  lemma Slices(text: string, q: nat, eq: nat)
    requires q <= eq <= |text|
    ensures text[q..][..eq - q] == text[q..eq] && text[q..][eq - q..] == text[eq..]
  {
  }

  lemma TokenIs(r0: string, r: string, n: nat, rest: string)
    requires r == Skip(r0) && n == TokenLength(r) && rest == Skip(r[n..])
    ensures GetToken(r0) == Token(Kind(r), r[..n], rest)
  {
  }

  lemma WordsAdd(text: string, ws: seq<Span>, w: Span)
    ensures Words(text, ws + [w]) == Words(text, ws) + [Word(text, w)]
  {
  }

  // One round of the argument loop.
  lemma ArgsIs(argv: seq<string>, rs: seq<Redirection<string>>, r: string, t: Token)
    requires t == GetToken(Skip(r))
    ensures Peek(r, {'|', ')', '&', ';'}) ==> ParseArgs(argv, rs, r) == Some((Wrap(Exec(argv), rs), Skip(r)))
    ensures !Peek(r, {'|', ')', '&', ';'}) && t.kind == '\0'
            ==> ParseArgs(argv, rs, r) == Some((Wrap(Exec(argv), rs), t.rest))
    ensures !Peek(r, {'|', ')', '&', ';'}) && t.kind != '\0' && (t.kind != 'a' || |argv| + 1 >= 10)
            ==> ParseArgs(argv, rs, r) == None
    ensures !Peek(r, {'|', ')', '&', ';'}) && t.kind == 'a' && |argv| + 1 < 10 ==>
            var p := ParseRedirs(t.rest);
            ParseArgs(argv, rs, r) == if p.None? then None else ParseArgs(argv + [t.text], rs + p.value.0, p.value.1)
  {
  }

  // What the parser has found agrees with the grammar's answer for the rest of the text.
  ghost predicate Found(text: string, ok: bool, c: Cmd<Span>, ps: nat, p: Option<(Cmd<string>, string)>) {
    && (ok <==> p.Some?)
    && (ok ==> ps <= |text| && p.value == (Resolve(text, c), text[ps..]) && SpansOk(text, c))
  }

  class Parser {
    const text: string
    var ps: nat

    ghost predicate Valid()
      reads this
    {
      ps <= |text| && NoNul(text)
    }

    constructor (text: string)
      requires NoNul(text)
      ensures Valid() && this.text == text && ps == 0
    {
      this.text, ps := text, 0;
    }

    // The first place from s on that is not white space.
    method SkipSpace(s: nat) returns (s': nat)
      requires s <= |text|
      ensures s <= s' <= |text| && text[s'..] == Skip(text[s..])
    {
      s' := s;
      while s' < |text| && Space(text[s'])
        invariant s <= s' <= |text| && Skip(text[s'..]) == Skip(text[s..])
      {
        assert text[s'..][1..] == text[s' + 1..];
        s' := s' + 1;
      }
    }

    // The end of the word at s.
    method SkipWord(s: nat) returns (s': nat)
      requires s <= |text|
      ensures s' == s + WordLength(text[s..])
      ensures s' == |text| || Space(text[s']) || Symbol(text[s'])
    {
      s' := s;
      while s' < |text| && !Space(text[s']) && !Symbol(text[s'])
        invariant s <= s' <= |text| && s' + WordLength(text[s'..]) == s + WordLength(text[s..])
      {
        assert text[s'..][1..] == text[s' + 1..];
        s' := s' + 1;
      }
    }

    method TokenAt(s: nat) returns (kind: char, e: nat)
      requires NoNul(text) && s <= |text| && (s == |text| || !Space(text[s]))
      ensures e == s + TokenLength(text[s..]) && kind == Kind(text[s..])
      ensures kind == 'a' ==> SpanOk(text, Span(s, e))
    {
      e := s;
      if s == |text| {
        kind := '\0';
      } else if text[s] == '>' {
        kind, e := '>', s + 1;
        if e < |text| && text[e] == '>' {
          kind, e := '+', e + 1;
        }
      } else if Symbol(text[s]) {
        kind, e := text[s], s + 1;
      } else {
        kind := 'a';
        e := SkipWord(s);
        WordPlain(text[s..]);
        forall i | s <= i < e ensures Plain(text[i]) {
          assert text[i] == text[s..][i - s];
        }
      }
    }

    method GetToken() returns (kind: char, q: nat, eq: nat)
      requires Valid()
      modifies this
      ensures Valid() && q <= eq <= |text| && ps >= old(ps)
      ensures ShellGrammar.GetToken(text[old(ps)..]) == Token(kind, text[q..eq], text[ps..])
      ensures kind == 'a' ==> SpanOk(text, Span(q, eq))
    {
      ghost var r := text[ps..];
      q := SkipSpace(ps);
      SkipShrinks(r);
      assert q < |text| ==> text[q] == text[q..][0];
      kind, eq := TokenAt(q);
      Slices(text, q, eq);
      ps := SkipSpace(eq);
      TokenIs(r, text[q..], eq - q, text[ps..]);
    }

    method Peek(toks: set<char>) returns (b: bool)
      requires Valid()
      modifies this
      ensures Valid() && ps >= old(ps) && text[ps..] == Skip(text[old(ps)..])
      ensures b == ShellGrammar.Peek(text[old(ps)..], toks)
    {
      ps := SkipSpace(ps);
      b := ps < |text| && text[ps] in toks;
    }

    // The redirections from here on, added to those in rs; false where the parser panics.
    method ParseRedirs(rs: seq<Redirection<Span>>) returns (ok: bool, rs': seq<Redirection<Span>>)
      requires Valid() && FilesOk(text, rs)
      modifies this
      ensures Valid() && ps >= old(ps)
      ensures var p := ShellGrammar.ParseRedirs(text[old(ps)..]);
              && (ok <==> p.Some?)
              && (ok ==> FilesOk(text, rs') && FilesOf(text, rs') == FilesOf(text, rs) + p.value.0
                         && text[ps..] == p.value.1)
    {
      rs' := rs;
      ghost var goal := ShellGrammar.ParseRedirs(text[ps..]);
      while true
        invariant Valid() && ps >= old(ps) && FilesOk(text, rs')
        invariant Continues(text, rs, rs', text[ps..], goal)
        decreases |text| - ps
      {
        ghost var r := text[ps..];
        var more := Peek({'<', '>'});
        SkipShrinks(r);
        if !more {
          return true, rs';
        }
        var tok, q, eq := GetToken();
        var kind;
        kind, q, eq := GetToken();
        if kind != 'a' {
          return false, rs';
        }
        var x := Redirection(Span(q, eq), tok != '<');
        ContinuesNext(text, rs, rs', r, x, text[ps..], goal);
        rs' := rs' + [x];
      }
    }

    // The arguments of a simple command, with redirections among them.
    method ParseArgs(rs0: seq<Redirection<Span>>) returns (ok: bool, c: Cmd<Span>)
      requires Valid() && FilesOk(text, rs0)
      modifies this
      ensures Valid() && ps >= old(ps)
      ensures Found(text, ok, c, ps, ShellGrammar.ParseArgs([], FilesOf(text, rs0), text[old(ps)..]))
    {
      var argv: seq<Span> := [];
      var rs := rs0;
      ghost var goal := ShellGrammar.ParseArgs([], FilesOf(text, rs0), text[ps..]);
      assert Words(text, []) == [];
      while true
        invariant Valid() && ps >= old(ps) && |argv| < 10 && FilesOk(text, rs) && SpansOk(text, Exec(argv))
        invariant ShellGrammar.ParseArgs(Words(text, argv), FilesOf(text, rs), text[ps..]) == goal
        decreases |text| - ps
      {
        ghost var r := text[ps..];
        ResolveWrap(text, Exec(argv), rs);
        ArgsIs(Words(text, argv), FilesOf(text, rs), r, ShellGrammar.GetToken(Skip(r)));
        var stop := Peek({'|', ')', '&', ';'});
        c := Wrap(Exec(argv), rs);
        if stop {
          return true, c;
        }
        var tok, q, eq := GetToken();
        if tok == '\0' {
          return true, c;
        }
        if tok != 'a' {
          return false, c;
        }
        WordsAdd(text, argv, Span(q, eq));
        argv := argv + [Span(q, eq)];
        if |argv| >= 10 {
          return false, c;
        }
        ok, rs := ParseRedirs(rs);
        if !ok {
          return false, c;
        }
      }
    }

    // A command in parentheses, with redirections behind it.
    method ParseBlock() returns (ok: bool, c: Cmd<Span>)
      requires Valid() && ShellGrammar.Peek(text[ps..], {'('}) && text[ps..] == Skip(text[ps..])
      modifies this
      ensures Valid() && ps >= old(ps)
      ensures Found(text, ok, c, ps, ShellGrammar.ParseExec(text[old(ps)..]))
      decreases |text| - ps, 0
    {
      ghost var r0 := text[ps..];
      var _, _, _ := GetToken();
      BlockIs(r0, text[ps..]);
      ok, c := ParseLine();
      if !ok {
        return;
      }
      var more := Peek({')'});
      if !more {
        return false, c;
      }
      var _, _, _ := GetToken();
      ghost var r := text[ps..];
      var rs;
      ok, rs := ParseRedirs([]);
      if ok {
        NoFiles(text, rs, ShellGrammar.ParseRedirs(r).value.0);
        ResolveWrap(text, c, rs);
        c := Wrap(c, rs);
      }
    }

    method ParseExec() returns (ok: bool, c: Cmd<Span>)
      requires Valid()
      modifies this
      ensures Valid() && ps >= old(ps)
      ensures Found(text, ok, c, ps, ShellGrammar.ParseExec(text[old(ps)..]))
      decreases |text| - ps, 1
    {
      ghost var r := text[ps..];
      var block := Peek({'('});
      SkipShrinks(r);
      if block {
        ok, c := ParseBlock();
        return;
      }
      ghost var r1 := text[ps..];
      ExecIs(r, r1);
      var rs;
      ok, rs := ParseRedirs([]);
      if !ok {
        return false, Exec([]);
      }
      NoFiles(text, rs, ShellGrammar.ParseRedirs(r1).value.0);
      ok, c := ParseArgs(rs);
    }

    method ParsePipe() returns (ok: bool, c: Cmd<Span>)
      requires Valid()
      modifies this
      ensures Valid() && ps >= old(ps)
      ensures Found(text, ok, c, ps, ShellGrammar.ParsePipe(text[old(ps)..]))
      decreases |text| - ps, 2
    {
      ok, c := ParseExec();
      if !ok {
        return;
      }
      var more := Peek({'|'});
      if more {
        var _, _, _ := GetToken();
        var d;
        ok, d := ParsePipe();
        c := Pipe(c, d);
      }
    }

    // The loop over & in parseline.
    method ParseBacks(c0: Cmd<Span>) returns (c: Cmd<Span>)
      requires Valid() && SpansOk(text, c0)
      modifies this
      ensures Valid() && ps >= old(ps) && SpansOk(text, c)
      ensures ShellGrammar.ParseBacks(Resolve(text, c0), text[old(ps)..]) == (Resolve(text, c), text[ps..])
    {
      c := c0;
      ghost var goal := ShellGrammar.ParseBacks(Resolve(text, c0), text[ps..]);
      while true
        invariant Valid() && ps >= old(ps) && SpansOk(text, c)
        invariant ShellGrammar.ParseBacks(Resolve(text, c), text[ps..]) == goal
        decreases |text| - ps
      {
        ghost var r := text[ps..];
        var more := Peek({'&'});
        SkipShrinks(r);
        if !more {
          return;
        }
        var _, _, _ := GetToken();
        c := Back(c);
      }
    }

    method ParseLine() returns (ok: bool, c: Cmd<Span>)
      requires Valid()
      modifies this
      ensures Valid() && ps >= old(ps)
      ensures Found(text, ok, c, ps, ShellGrammar.ParseLine(text[old(ps)..]))
      decreases |text| - ps, 3
    {
      ok, c := ParsePipe();
      if !ok {
        return;
      }
      c := ParseBacks(c);
      var more := Peek({';'});
      if more {
        var _, _, _ := GetToken();
        var d;
        ok, d := ParseLine();
        c := List(c, d);
      }
    }

    /** The whole input as one command, as the grammar says, or a panic. */
    method ParseCmd() returns (ok: bool, c: Cmd<Span>)
      requires Valid() && ps == 0
      modifies this
      ensures ok <==> ShellGrammar.ParseCmd(text).Some?
      ensures ok ==> ShellGrammar.ParseCmd(text) == Some(Resolve(text, c)) && SpansOk(text, c)
    {
      assert text[0..] == text;
      ok, c := ParseLine();
      if ok {
        var _ := Peek({});
        ok := ps == |text|;
      }
    }
  }

  lemma NoFiles(text: string, rs: seq<Redirection<Span>>, found: seq<Redirection<string>>)
    requires FilesOf(text, rs) == FilesOf(text, []) + found
    ensures FilesOf(text, rs) == found
  {
  }

  // What comes after an opening parenthesis.
  function Block(r: string): Option<(Cmd<string>, string)> {
    var p := ParseLine(r);
    if p.None? || !Peek(p.value.1, {')'}) then None
    else
      var q := ParseRedirs(GetToken(Skip(p.value.1)).rest);
      if q.None? then None else Some((Wrap(p.value.0, q.value.0), q.value.1))
  }

  lemma BlockIs(r: string, r1: string)
    requires Peek(r, {'('}) && r == Skip(r) && r1 == GetToken(r).rest
    ensures ParseExec(r) == Block(r1) && |r1| < |r|
  {
  }

  lemma ExecIs(r: string, r1: string)
    requires !Peek(r, {'('}) && r1 == Skip(r)
    ensures ParseExec(r) == var q := ParseRedirs(r1); if q.None? then None else ParseArgs([], q.value.0, q.value.1)
  {
  }

  // The redirections found so far and those still to be read make up the answer.
  ghost predicate Continues(text: string, rs: seq<Redirection<Span>>, rs': seq<Redirection<Span>>, r: string,
                            goal: Option<(seq<Redirection<string>>, string)>) {
    var p := ParseRedirs(r);
    (goal.Some? <==> p.Some?) && (p.Some? ==> FilesOf(text, rs) + goal.value.0 == FilesOf(text, rs') + p.value.0
                                              && goal.value.1 == p.value.1)
  }

  lemma RedirsUnfold(r: string, y: Redirection<string>, r': string)
    requires Peek(r, {'<', '>'})
    requires var op := GetToken(Skip(r)); var file := GetToken(op.rest);
             file.kind == 'a' && y == Redirection(file.text, op.kind != '<') && file.rest == r'
    ensures var p := ParseRedirs(r'); ParseRedirs(r) == if p.None? then None else Some(([y] + p.value.0, p.value.1))
  {
  }

  lemma Regroup<T>(a: seq<T>, y: T, b: seq<T>)
    ensures a + [y] + b == a + ([y] + b)
  {
  }

  lemma FilesAdd(text: string, rs: seq<Redirection<Span>>, x: Redirection<Span>)
    ensures FilesOf(text, rs + [x]) == FilesOf(text, rs) + [Redirection(Word(text, x.file), x.out)]
  {
  }

  lemma ContinuesNext(text: string, rs: seq<Redirection<Span>>, rs': seq<Redirection<Span>>, r: string,
                      x: Redirection<Span>, r': string, goal: Option<(seq<Redirection<string>>, string)>)
    requires Continues(text, rs, rs', r, goal) && Peek(r, {'<', '>'})
    requires var op := GetToken(Skip(r)); var file := GetToken(op.rest);
             file.kind == 'a' && file.text == Word(text, x.file) && x.out == (op.kind != '<') && file.rest == r'
    ensures Continues(text, rs, rs' + [x], r', goal)
  {
    var y := Redirection(Word(text, x.file), x.out);
    RedirsUnfold(r, y, r');
    FilesAdd(text, rs', x);
    if ParseRedirs(r').Some? {
      Regroup(FilesOf(text, rs'), y, ParseRedirs(r').value.0);
    }
  }

  /** The buffer still has every plain character of the text in its place; elsewhere NULs may have been
      written. */
  ghost predicate Intact(text: string, b: string) {
    && |b| == |text| + 1 && b[|text|] == '\0'
    && (forall i | 0 <= i < |text| :: b[i] == text[i] || (b[i] == '\0' && !Plain(text[i])))
  }

  // Every word of the command is followed by a NUL.
  ghost predicate Ended(b: string, c: Cmd<Span>) {
    match c
    case Exec(argv) => forall i | 0 <= i < |argv| :: EndsAt(b, argv[i])
    case Redir(d, file, _) => Ended(b, d) && EndsAt(b, file)
    case Pipe(l, r) => Ended(b, l) && Ended(b, r)
    case List(l, r) => Ended(b, l) && Ended(b, r)
    case Back(d) => Ended(b, d)
  }

  ghost predicate EndsAt(b: string, w: Span) {
    w.hi < |b| && b[w.hi] == '\0'
  }

  // Only NULs have been written.
  ghost predicate OnlyNuls(b: string, b': string) {
    |b'| == |b| && forall i | 0 <= i < |b| :: b'[i] == b[i] || b'[i] == '\0'
  }

  lemma {:induction false} EndedKept(b: string, b': string, c: Cmd<Span>)
    requires Ended(b, c) && OnlyNuls(b, b')
    ensures Ended(b', c)
  {
    match c
    case Exec(argv) =>
      forall i | 0 <= i < |argv| ensures EndsAt(b', argv[i]) {
        assert EndsAt(b, argv[i]);
      }
    case Redir(d, _, _) => EndedKept(b, b', d);
    case Pipe(l, r) =>
      EndedKept(b, b', l);
      EndedKept(b, b', r);
    case List(l, r) =>
      EndedKept(b, b', l);
      EndedKept(b, b', r);
    case Back(d) => EndedKept(b, b', d);
  }

  method EndWord(buf: array<char>, w: Span, ghost text: string)
    requires Intact(text, buf[..]) && SpanOk(text, w)
    modifies buf
    ensures Intact(text, buf[..]) && OnlyNuls(old(buf[..]), buf[..]) && EndsAt(buf[..], w)
  {
    buf[w.hi] := '\0';
  }

  /** Write a NUL behind every word of the command. No word is altered. */
  method NulTerminate(buf: array<char>, c: Cmd<Span>, ghost text: string)
    requires Intact(text, buf[..]) && SpansOk(text, c)
    modifies buf
    ensures Intact(text, buf[..]) && OnlyNuls(old(buf[..]), buf[..]) && Ended(buf[..], c)
    decreases c
  {
    match c {
      case Exec(argv) =>
        var i := 0;
        while i < |argv|
          invariant 0 <= i <= |argv| && Intact(text, buf[..]) && OnlyNuls(old(buf[..]), buf[..])
          invariant forall j | 0 <= j < i :: EndsAt(buf[..], argv[j])
        {
          EndWord(buf, argv[i], text);
          i := i + 1;
        }
      case Redir(d, file, _) =>
        NulTerminate(buf, d, text);
        ghost var b := buf[..];
        EndWord(buf, file, text);
        EndedKept(b, buf[..], d);
      case Pipe(l, r) =>
        NulTerminate(buf, l, text);
        ghost var b := buf[..];
        NulTerminate(buf, r, text);
        EndedKept(b, buf[..], l);
      case List(l, r) =>
        NulTerminate(buf, l, text);
        ghost var b := buf[..];
        NulTerminate(buf, r, text);
        EndedKept(b, buf[..], l);
      case Back(d) =>
        NulTerminate(buf, d, text);
    }
  }

  // The string a C program reads at p.
  function CString(b: string, p: nat): string
    decreases |b| - p
  {
    if p >= |b| || b[p] == '\0' then "" else [b[p]] + CString(b, p + 1)
  }

  // The command with its words read from the buffer.
  function Read(b: string, c: Cmd<Span>): Cmd<string> {
    match c
    case Exec(argv) => Exec(seq(|argv|, i requires 0 <= i < |argv| => CString(b, argv[i].lo)))
    case Redir(d, file, out) => Redir(Read(b, d), CString(b, file.lo), out)
    case Pipe(l, r) => Pipe(Read(b, l), Read(b, r))
    case List(l, r) => List(Read(b, l), Read(b, r))
    case Back(d) => Back(Read(b, d))
  }

  lemma {:induction false} CStringIs(text: string, b: string, w: Span, p: nat)
    requires Intact(text, b) && SpanOk(text, w) && EndsAt(b, w) && w.lo <= p <= w.hi
    ensures CString(b, p) == text[p..w.hi]
    decreases w.hi - p
  {
    if p < w.hi {
      CStringIs(text, b, w, p + 1);
      assert Plain(text[p]) && text[p..w.hi] == [text[p]] + text[p + 1..w.hi];
    }
  }

  /** After the pass each word of the command is a C string equal to its token. */
  lemma {:induction false} ReadsBack(text: string, b: string, c: Cmd<Span>)
    requires Intact(text, b) && SpansOk(text, c) && Ended(b, c)
    ensures Read(b, c) == Resolve(text, c)
  {
    match c
    case Exec(argv) =>
      forall i | 0 <= i < |argv| ensures CString(b, argv[i].lo) == Word(text, argv[i]) {
        assert EndsAt(b, argv[i]) && SpanOk(text, argv[i]);
        CStringIs(text, b, argv[i], argv[i].lo);
      }
      assert Read(b, c).argv == Words(text, argv);
    case Redir(d, file, _) =>
      ReadsBack(text, b, d);
      CStringIs(text, b, file, file.lo);
    case Pipe(l, r) =>
      ReadsBack(text, b, l);
      ReadsBack(text, b, r);
    case List(l, r) =>
      ReadsBack(text, b, l);
      ReadsBack(text, b, r);
    case Back(d) => ReadsBack(text, b, d);
  }

  /** parsecmd on a NUL-terminated line: the command in the buffer is the one the grammar finds in the line. */
  method ParseBuffer(buf: array<char>) returns (ok: bool, c: Cmd<Span>)
    requires buf.Length > 0 && buf[buf.Length - 1] == '\0' && NoNul(buf[..buf.Length - 1])
    modifies buf
    ensures ok <==> ParseCmd(old(buf[..buf.Length - 1])).Some?
    ensures ok ==> Some(Read(buf[..], c)) == ParseCmd(old(buf[..buf.Length - 1]))
  {
    var text := buf[..buf.Length - 1];
    var parser := new Parser(text);
    ok, c := parser.ParseCmd();
    if ok {
      NulTerminate(buf, c, text);
      ReadsBack(text, buf[..], c);
    }
  }
}
