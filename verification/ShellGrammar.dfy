/** The shell's command language as functions on strings: the parser of sh.c, with None where it panics,
and a printer that it undoes. */
module ShellGrammar {

  import opened Common

  // Words are strings here, and places in the input for the parser that runs on a buffer.
  datatype Cmd<T> = Exec(argv: seq<T>) | Redir(cmd: Cmd<T>, file: T, out: bool)
                  | Pipe(left: Cmd<T>, right: Cmd<T>) | List(left: Cmd<T>, right: Cmd<T>) | Back(cmd: Cmd<T>)

  datatype Redirection<T> = Redirection(file: T, out: bool)

  predicate Space(c: char) { c == ' ' || c == '\t' || c == '\r' || c == '\n' || c == '\U{B}' }
  predicate Symbol(c: char) { c == '<' || c == '|' || c == '>' || c == '&' || c == ';' || c == '(' || c == ')' }
  predicate Plain(c: char) { !Space(c) && !Symbol(c) && c != '\0' }

  function Skip(r: string): string {
    if r != "" && Space(r[0]) then Skip(r[1..]) else r
  }

  // The length of the word at the front.
  function WordLength(r: string): nat
    ensures WordLength(r) <= |r|
  {
    if r != "" && !Space(r[0]) && !Symbol(r[0]) then 1 + WordLength(r[1..]) else 0
  }

  // The kind of token at the front, where 'a' is a word, '+' is >> and NUL the end; its text; and what follows.
  datatype Token = Token(kind: char, text: string, rest: string)

  function TokenLength(r: string): nat
    ensures TokenLength(r) <= |r| && (r != "" && !Space(r[0]) && r[0] != '\0' ==> TokenLength(r) > 0)
  {
    if r == "" || r[0] == '\0' then 0
    else if r[0] == '>' then if |r| > 1 && r[1] == '>' then 2 else 1
    else if Symbol(r[0]) then 1
    else WordLength(r)
  }

  function Kind(r: string): char {
    if r == "" then '\0' else if r[0] == '>' && |r| > 1 && r[1] == '>' then '+' else if Symbol(r[0])
        || r[0] == '\0' then r[0] else 'a'
  }

  function GetToken(r0: string): (t: Token)
    ensures |t.rest| <= |r0|
    ensures t.kind != '\0' ==> |t.rest| < |r0|
  {
    var r := Skip(r0);
    SkipShrinks(r0);
    var n := TokenLength(r);
    SkipShrinks(r[n..]);
    Token(Kind(r), r[..n], Skip(r[n..]))
  }

  lemma {:induction false} SkipShrinks(r: string)
    ensures |Skip(r)| <= |r| && (Skip(r) == "" || !Space(Skip(r)[0]))
  {
    if r != "" && Space(r[0]) {
      SkipShrinks(r[1..]);
    }
  }

  // The next character that is not white space is one of toks.
  predicate Peek(r: string, toks: set<char>) {
    Skip(r) != "" && Skip(r)[0] != '\0' && Skip(r)[0] in toks
  }

  function ParseRedirs(r: string): (p: Option<(seq<Redirection<string>>, string)>)
    ensures p.Some? ==> |p.value.1| <= |r|
    decreases |r|
  {
    SkipShrinks(r);
    if Peek(r, {'<', '>'}) then
      var op := GetToken(Skip(r));
      var file := GetToken(op.rest);
      if file.kind != 'a' then None
      else
        var p := ParseRedirs(file.rest);
        if p.None? then None else Some(([Redirection(file.text, op.kind != '<')] + p.value.0, p.value.1))
    else Some(([], Skip(r)))
  }

  /** `>>` is read as `>` is, whatever follows. */
  lemma AppendIsWrite(r: string)
    requires r == "" || r[0] != '>'
    ensures ParseRedirs(">>" + r) == ParseRedirs(">" + r)
  {
    var s, t := ">>" + r, ">" + r;
    assert Skip(s) == s && Skip(t) == t && s[2..] == r && t[1..] == r;
    assert GetToken(s) == Token('+', ">>", Skip(r)) && GetToken(t) == Token('>', ">", Skip(r));
  }

  function Wrap<T>(c: Cmd<T>, rs: seq<Redirection<T>>): Cmd<T>
    decreases |rs|
  {
    if rs == [] then c else Wrap(Redir(c, rs[0].file, rs[0].out), rs[1..])
  }

  function ParseArgs(argv: seq<string>, rs: seq<Redirection<string>>, r: string): (p: Option<(Cmd<string>, string)>)
    ensures p.Some? ==> |p.value.1| <= |r|
    decreases |r|
  {
    SkipShrinks(r);
    if Peek(r, {'|', ')', '&', ';'}) then Some((Wrap(Exec(argv), rs), Skip(r)))
    else
      var t := GetToken(Skip(r));
      if t.kind == '\0' then Some((Wrap(Exec(argv), rs), t.rest))
      else if t.kind != 'a' || |argv| + 1 >= 10 then None
      else
        var p := ParseRedirs(t.rest);
        if p.None? then None else ParseArgs(argv + [t.text], rs + p.value.0, p.value.1)
  }

  function ParseExec(r: string): (p: Option<(Cmd<string>, string)>)
    ensures p.Some? ==> |p.value.1| <= |r|
    decreases |r|, 0
  {
    SkipShrinks(r);
    if Peek(r, {'('}) then
      var p := ParseLine(GetToken(Skip(r)).rest);
      if p.None? || !Peek(p.value.1, {')'}) then None
      else
        SkipShrinks(p.value.1);
        var q := ParseRedirs(GetToken(Skip(p.value.1)).rest);
        if q.None? then None else Some((Wrap(p.value.0, q.value.0), q.value.1))
    else
      var q := ParseRedirs(Skip(r));
      if q.None? then None else ParseArgs([], q.value.0, q.value.1)
  }

  function ParsePipe(r: string): (p: Option<(Cmd<string>, string)>)
    ensures p.Some? ==> |p.value.1| <= |r|
    decreases |r|, 1
  {
    var p := ParseExec(r);
    if p.None? then None
    else
      SkipShrinks(p.value.1);
      if Peek(p.value.1, {'|'}) then
        var q := ParsePipe(GetToken(Skip(p.value.1)).rest);
        if q.None? then None else Some((Pipe(p.value.0, q.value.0), q.value.1))
      else Some((p.value.0, Skip(p.value.1)))
  }

  // Each & at the front puts what precedes it in the background.
  function ParseBacks(c: Cmd<string>, r: string): (p: (Cmd<string>, string))
    ensures |p.1| <= |r|
    decreases |r|
  {
    SkipShrinks(r);
    if Peek(r, {'&'}) then ParseBacks(Back(c), GetToken(Skip(r)).rest) else (c, Skip(r))
  }

  function ParseLine(r: string): (p: Option<(Cmd<string>, string)>)
    ensures p.Some? ==> |p.value.1| <= |r|
    decreases |r|, 2
  {
    var p := ParsePipe(r);
    if p.None? then None
    else
      var (c, r1) := ParseBacks(p.value.0, p.value.1);
      SkipShrinks(r1);
      if Peek(r1, {';'}) then
        var q := ParseLine(GetToken(Skip(r1)).rest);
        if q.None? then None else Some((List(c, q.value.0), q.value.1))
      else Some((c, Skip(r1)))
  }

  // The whole input is one command.
  function ParseCmd(s: string): Option<Cmd<string>> {
    var p := ParseLine(s);
    if p.None? || Skip(p.value.1) != "" then None else Some(p.value.0)
  }

  ghost predicate IsWord(w: string) {
    w != "" && forall i | 0 <= i < |w| :: Plain(w[i])
  }

  /** What the parser can produce: at most nine arguments, and every word a plain one. */
  ghost predicate WellFormed(c: Cmd<string>) {
    match c
    case Exec(argv) => |argv| <= 9 && forall i | 0 <= i < |argv| :: IsWord(argv[i])
    case Redir(d, file, _) => WellFormed(d) && IsWord(file)
    case Pipe(l, r) => WellFormed(l) && WellFormed(r)
    case List(l, r) => WellFormed(l) && WellFormed(r)
    case Back(d) => WellFormed(d)
  }

  // The levels of the grammar from the inside out; a command is printed bare at its own level and in
  // parentheses once it comes back to it from below.
  function Level(c: Cmd<string>): nat {
    match c
    case Exec(_) => 0
    case Redir(_, _, _) => 0
    case Pipe(_, _) => 1
    case Back(_) => 2
    case List(_, _) => 3
  }

  function Above(c: Cmd<string>, level: nat): nat {
    if level >= Level(c) then level - Level(c) else level + 4 - Level(c)
  }

  // The printer, in front of what comes after: arguments and redirections each followed by a blank,
  // parentheses only where needed.
  function PrintArgs(argv: seq<string>, post: string): string {
    if argv == [] then post else argv[0] + (" " + PrintArgs(argv[1..], post))
  }

  function Op(out: bool): char {
    if out then '>' else '<'
  }

  function PrintUnit(c: Cmd<string>, post: string): string
    decreases c, Above(c, 0)
  {
    match c
    case Exec(argv) => PrintArgs(argv, post)
    case Redir(d, file, out) => PrintUnit(d, [Op(out)] + (file + (" " + post)))
    case _ => "(" + PrintLine(c, ")" + post)
  }

  function PrintPipe(c: Cmd<string>, post: string): string
    decreases c, Above(c, 1)
  {
    if c.Pipe? then PrintUnit(c.left, "|" + PrintPipe(c.right, post)) else PrintUnit(c, post)
  }

  function PrintBack(c: Cmd<string>, post: string): string
    decreases c, Above(c, 2)
  {
    if c.Back? then PrintBack(c.cmd, "&" + post) else PrintPipe(c, post)
  }

  function PrintLine(c: Cmd<string>, post: string): string
    decreases c, Above(c, 3)
  {
    if c.List? then PrintBack(c.left, ";" + PrintLine(c.right, post)) else PrintBack(c, post)
  }

  function Print(c: Cmd<string>): string {
    PrintLine(c, "")
  }
}
