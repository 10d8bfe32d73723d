/** The grammar of the shell's command lines, and what its sentences mean, without any of the parser: the parser
    accepts a line exactly when its tokens are a sentence, and gives what the sentence means. */
module ShellGrammar {
  import opened Shell

  // ---------- tokens ----------

  /** '+' is >>. */
  datatype Lexeme = Op(c: char) | W(w: string)

  function LexemeOf(b: string, t: Token): Lexeme {
    if t.kind == 'a' then W(Word(b, Span(t.q, t.eq))) else Op(t.kind)
  }

  /** What gettoken gives, one after the other, from p on. */
  function Lex(b: string, p: nat): (ls: seq<Lexeme>)
    requires p <= |b|
    ensures ls == [] <==> At(b, SkipWhite(b, p)) == NUL
    decreases |b| - p
  {
    var t := GetToken(b, p);
    if t.kind == NUL then [] else [LexemeOf(b, t)] + Lex(b, t.next)
  }

  // ---------- sentences ----------

  datatype Redirection = Redirection(op: char, file: string)
  datatype Item = Arg(w: string) | To(r: Redirection)

  /** A command: words and redirections in any order, or a block. */
  datatype Command = Simple(items: seq<Item>) | Block(line: Line, redirs: seq<Redirection>)
  datatype Pipeline = Single(cmd: Command) | Piped(cmd: Command, rest: Pipeline)

  /** Pipelines, each followed by any number of '&', with ';' between them. */
  datatype Line = Last(pipe: Pipeline, amps: nat) | Then(pipe: Pipeline, amps: nat, rest: Line)

  function RedirectionTokens(rs: seq<Redirection>): seq<Lexeme> {
    if rs == [] then [] else [Op(rs[0].op), W(rs[0].file)] + RedirectionTokens(rs[1..])
  }

  function ItemTokens(items: seq<Item>): seq<Lexeme> {
    if items == [] then []
    else (match items[0] case Arg(w) => [W(w)] case To(r) => [Op(r.op), W(r.file)]) + ItemTokens(items[1..])
  }

  function Amps(n: nat): seq<Lexeme> {
    if n == 0 then [] else [Op('&')] + Amps(n - 1)
  }

  function CommandTokens(c: Command): seq<Lexeme> {
    match c
    case Simple(items) => ItemTokens(items)
    case Block(line, redirs) => [Op('(')] + LineTokens(line) + ([Op(')')] + RedirectionTokens(redirs))
  }

  function PipelineTokens(p: Pipeline): seq<Lexeme> {
    match p
    case Single(cmd) => CommandTokens(cmd)
    case Piped(cmd, rest) => CommandTokens(cmd) + ([Op('|')] + PipelineTokens(rest))
  }

  function LineTokens(l: Line): seq<Lexeme> {
    match l
    case Last(pipe, amps) => PipelineTokens(pipe) + Amps(amps)
    case Then(pipe, amps, rest) => PipelineTokens(pipe) + (Amps(amps) + ([Op(';')] + LineTokens(rest)))
  }

  predicate RedirectionOk(r: Redirection) { r.op == '<' || r.op == '>' || r.op == '+' }

  function ArgsOf(items: seq<Item>): seq<string> {
    if items == [] then [] else (if items[0].Arg? then [items[0].w] else []) + ArgsOf(items[1..])
  }

  function RedirectionsOf(items: seq<Item>): seq<Redirection> {
    if items == [] then [] else (if items[0].To? then [items[0].r] else []) + RedirectionsOf(items[1..])
  }

  predicate CommandOk(c: Command) {
    match c
    case Simple(items) =>
      && |ArgsOf(items)| < 10
      && forall i :: 0 <= i < |items| ==> (items[i].To? ==> RedirectionOk(items[i].r))
    case Block(line, redirs) => LineOk(line) && RedirectionsOk(redirs)
  }

  predicate PipelineOk(p: Pipeline) {
    CommandOk(p.cmd) && (p.Piped? ==> PipelineOk(p.rest))
  }

  predicate LineOk(l: Line) {
    PipelineOk(l.pipe) && (l.Then? ==> LineOk(l.rest))
  }

  // ---------- what they mean ----------

  /** < reads standard input, > and >> write and create standard output. */
  function Redirect(t: Cmd<string>, r: Redirection): Cmd<string> {
    if r.op == '<' then Redir(t, r.file, 0, 0) else Redir(t, r.file, 0x201, 1)
  }

  /** The redirections around t, the first innermost. */
  function Wrap(t: Cmd<string>, rs: seq<Redirection>): Cmd<string> {
    if rs == [] then t else Redirect(Wrap(t, rs[..|rs| - 1]), rs[|rs| - 1])
  }

  function Backs(t: Cmd<string>, n: nat): Cmd<string> {
    if n == 0 then t else Back(Backs(t, n - 1))
  }

  function CommandMeans(c: Command): Cmd<string> {
    match c
    case Simple(items) => Wrap(Exec(ArgsOf(items)), RedirectionsOf(items))
    case Block(line, redirs) => Wrap(LineMeans(line), redirs)
  }

  function PipelineMeans(p: Pipeline): Cmd<string> {
    match p
    case Single(cmd) => CommandMeans(cmd)
    case Piped(cmd, rest) => Pipe(CommandMeans(cmd), PipelineMeans(rest))
  }

  function LineMeans(l: Line): Cmd<string> {
    match l
    case Last(pipe, amps) => Backs(PipelineMeans(pipe), amps)
    case Then(pipe, amps, rest) => List(Backs(PipelineMeans(pipe), amps), LineMeans(rest))
  }

  // ---------- tokens and the parser's tests ----------

  /** What stands at p decides what peek and gettoken say. */
  lemma {:induction false} Head(b: string, p: nat)
    requires p <= |b|
    ensures var s := SkipWhite(b, p);
            var t := GetToken(b, s);
            && GetToken(b, p) == t && Lex(b, s) == Lex(b, p)
            && (Lex(b, p) == [] <==> At(b, s) == NUL) && (Lex(b, p) == [] <==> t.kind == NUL)
            && (Lex(b, p) != [] ==> Lex(b, p) == [LexemeOf(b, t)] + Lex(b, t.next) && t.next > s)
            && (At(b, s) == '&' <==> Lex(b, p) != [] && Lex(b, p)[0] == Op('&'))
            && (At(b, s) == ';' <==> Lex(b, p) != [] && Lex(b, p)[0] == Op(';'))
            && (At(b, s) == '|' <==> Lex(b, p) != [] && Lex(b, p)[0] == Op('|'))
            && (At(b, s) == '(' <==> Lex(b, p) != [] && Lex(b, p)[0] == Op('('))
            && (At(b, s) == ')' <==> Lex(b, p) != [] && Lex(b, p)[0] == Op(')'))
            && (Angle(At(b, s)) <==>
                  Lex(b, p) != [] && Lex(b, p)[0].Op? && RedirectionOk(Redirection(Lex(b, p)[0].c, "")))
            && (t.kind == 'a' <==> Lex(b, p) != [] && Lex(b, p)[0].W?)
  {
  }

  lemma {:induction false} BacksMore(t: Cmd<string>, n: nat)
    ensures Backs(Back(t), n) == Back(Backs(t, n))
  {
    if n > 0 {
      BacksMore(t, n - 1);
    }
  }

  lemma {:induction false} WrapArg(t: Cmd<string>, rs: seq<Redirection>, w: string)
    ensures AddArg(Wrap(t, rs), w) == Wrap(AddArg(t, w), rs)
  {
    if rs != [] {
      WrapArg(t, rs[..|rs| - 1], w);
    }
  }

  lemma {:induction false} WrapArgc(t: Cmd<string>, rs: seq<Redirection>)
    ensures Argc(Wrap(t, rs)) == Argc(t)
  {
    if rs != [] {
      WrapArgc(t, rs[..|rs| - 1]);
    }
  }

  lemma {:induction false} WordsArg(b: string, c: Cmd<Span>, w: Span)
    ensures Words(b, AddArg(c, w)) == AddArg(Words(b, c), Word(b, w)) && Argc(Words(b, c)) == Argc(c)
  {
    match c
    case Exec(argv) => assert Strings(b, argv + [w]) == Strings(b, argv) + [Word(b, w)];
    case Redir(c1, _, _, _) => WordsArg(b, c1, w);
    case _ =>
  }

  // ---------- everything parsed is a sentence with its meaning ----------

  lemma {:induction false} Assoc(x: seq<Lexeme>, y: seq<Lexeme>, z: seq<Lexeme>)
    ensures x + (y + z) == x + y + z
  {
  }

  /** At a symbol: one token is taken. */
  lemma {:induction false} SymbolHead(b: string, p: nat)
    requires p <= |b| && Symbol(At(b, SkipWhite(b, p)))
    ensures var t := GetToken(b, SkipWhite(b, p));
            && Lex(b, p) == [Op(t.kind)] + Lex(b, t.next) && t.kind != 'a' && t.next > p
            && (At(b, SkipWhite(b, p)) != '>' ==> t.kind == At(b, SkipWhite(b, p)))
            && (Angle(At(b, SkipWhite(b, p))) ==> RedirectionOk(Redirection(t.kind, "")))
  {
    Head(b, p);
  }

  lemma {:induction false} WordHead(b: string, p: nat)
    requires p <= |b| && GetToken(b, p).kind == 'a'
    ensures var t := GetToken(b, p);
            GetToken(b, SkipWhite(b, p)) == t && Lex(b, p) == [W(Word(b, Span(t.q, t.eq)))] + Lex(b, t.next)
              && t.next > p
  {
    Head(b, p);
  }

  lemma {:induction false} SkipLex(b: string, p: nat)
    requires p <= |b|
    ensures SkipWhite(b, SkipWhite(b, p)) == SkipWhite(b, p) && Lex(b, SkipWhite(b, p)) == Lex(b, p)
  {
    Head(b, p);
  }

  /** One redirection. */
  lemma {:induction false} RedirStep(b: string, p: nat, c: Cmd<Span>) returns (one: Redirection, w: Span, next: nat)
    requires p <= |b| && ParseRedirs(b, p, c).Ok? && Angle(At(b, SkipWhite(b, p)))
    ensures RedirectionOk(one) && p < next <= |b| && one.file == Word(b, w)
    ensures ParseRedirs(b, next, Redirected(c, one.op, w)) == ParseRedirs(b, p, c)
    ensures Lex(b, p) == [Op(one.op), W(one.file)] + Lex(b, next)
  {
    var tok := GetToken(b, SkipWhite(b, p));
    var file := GetToken(b, tok.next);
    SymbolHead(b, p);
    WordHead(b, tok.next);
    w, next := Span(file.q, file.eq), file.next;
    one := Redirection(tok.kind, Word(b, w));
    assert [Op(one.op), W(one.file)] == [Op(one.op)] + [W(one.file)];
    Assoc([Op(one.op)], [W(one.file)], Lex(b, next));
  }

  lemma {:induction false} RedirectedWords(b: string, c: Cmd<Span>, one: Redirection, w: Span)
    requires RedirectionOk(one) && one.file == Word(b, w)
    ensures Words(b, Redirected(c, one.op, w)) == Redirect(Words(b, c), one)
  {
  }

  lemma {:induction false} RedirectionTokensMore(one: Redirection, rs: seq<Redirection>, rest: seq<Lexeme>)
    ensures RedirectionTokens([one] + rs) + rest == [Op(one.op), W(one.file)] + (RedirectionTokens(rs) + rest)
  {
    assert ([one] + rs)[1..] == rs;
    Assoc([Op(one.op), W(one.file)], RedirectionTokens(rs), rest);
  }

  predicate RedirectionsOk(rs: seq<Redirection>) { forall i :: 0 <= i < |rs| ==> RedirectionOk(rs[i]) }

  /** From p to where r ends stand the redirections rs, and r wraps them around what a had wrapped around t. */
  ghost predicate RedirsRead(b: string, p: nat, r: Parsed, t: Cmd<string>, a: seq<Redirection>, rs: seq<Redirection>) {
    && p <= |b| && r.Ok? && r.next <= |b| && RedirectionsOk(rs)
    && Lex(b, p) == RedirectionTokens(rs) + Lex(b, r.next) && Words(b, r.value) == Wrap(t, a + rs)
  }

  lemma {:induction false} RedirsJoin(b: string, p: nat, next: nat, r: Parsed, t: Cmd<string>, a: seq<Redirection>,
                                      one: Redirection, rest: seq<Redirection>)
    requires p <= |b| && next <= |b| && RedirectionOk(one) && Lex(b, p) == [Op(one.op), W(one.file)] + Lex(b, next)
    requires RedirsRead(b, next, r, t, a + [one], rest)
    ensures RedirsRead(b, p, r, t, a, [one] + rest)
  {
    RedirectionTokensMore(one, rest, Lex(b, r.next));
    AssocRedirections(a, [one], rest);
  }

  lemma {:induction false} RedirsNone(b: string, p: nat, c: Cmd<Span>, t: Cmd<string>, a: seq<Redirection>)
    requires p <= |b| && !Angle(At(b, SkipWhite(b, p))) && Words(b, c) == Wrap(t, a)
    ensures RedirsRead(b, p, ParseRedirs(b, p, c), t, a, [])
  {
    SkipLex(b, p);
    assert a + [] == a;
  }

  lemma {:induction false} WrapOne(t: Cmd<string>, a: seq<Redirection>, one: Redirection)
    ensures Wrap(t, a + [one]) == Redirect(Wrap(t, a), one)
  {
    assert (a + [one])[..|a|] == a;
  }

  lemma {:induction false} RedirsSound(b: string, p: nat, c: Cmd<Span>, r: Parsed, t: Cmd<string>, a: seq<Redirection>)
    returns (rs: seq<Redirection>)
    requires p <= |b| && r == ParseRedirs(b, p, c) && r.Ok? && Words(b, c) == Wrap(t, a)
    ensures RedirsRead(b, p, r, t, a, rs)
    decreases |b| - p
  {
    if Angle(At(b, SkipWhite(b, p))) {
      var one, w, next := RedirStep(b, p, c);
      RedirectedWords(b, c, one, w);
      WrapOne(t, a, one);
      var rest := RedirsSound(b, next, Redirected(c, one.op, w), r, t, a + [one]);
      RedirsJoin(b, p, next, r, t, a, one, rest);
      rs := [one] + rest;
    } else {
      RedirsNone(b, p, c, t, a);
      rs := [];
    }
  }

  lemma {:induction false} BackStep(b: string, p: nat, c: Cmd<Span>) returns (next: nat)
    requires p <= |b| && At(b, SkipWhite(b, p)) == '&'
    ensures next == GetToken(b, SkipWhite(b, p)).next && p < next <= |b|
    ensures ParseBacks(b, next, Back(c)) == ParseBacks(b, p, c)
  {
    next := GetToken(b, SkipWhite(b, p)).next;
  }

  ghost predicate BacksRead(b: string, p: nat, c: Cmd<Span>, r: Parsed, n: nat) {
    && p <= |b| && r.Ok? && r.next <= |b|
    && Lex(b, p) == Amps(n) + Lex(b, r.next) && Words(b, r.value) == Backs(Words(b, c), n)
  }

  lemma {:induction false} BacksJoin(b: string, p: nat, next: nat, c: Cmd<Span>, r: Parsed, m: nat)
    requires p <= |b| && At(b, SkipWhite(b, p)) == '&' && next == GetToken(b, SkipWhite(b, p)).next
    requires BacksRead(b, next, Back(c), r, m)
    ensures BacksRead(b, p, c, r, m + 1)
  {
    SymbolHead(b, p);
    BacksMore(Words(b, c), m);
    Assoc([Op('&')], Amps(m), Lex(b, r.next));
  }

  lemma {:induction false} BacksNone(b: string, p: nat, c: Cmd<Span>)
    requires p <= |b| && At(b, SkipWhite(b, p)) != '&'
    ensures BacksRead(b, p, c, ParseBacks(b, p, c), 0)
  {
    SkipLex(b, p);
  }

  lemma {:induction false} BackSound(b: string, p: nat, c: Cmd<Span>, r: Parsed) returns (n: nat)
    requires p <= |b| && r == ParseBacks(b, p, c) && At(b, SkipWhite(b, p)) == '&'
    ensures BacksRead(b, p, c, r, n)
    decreases |b| - p, 0
  {
    var next := BackStep(b, p, c);
    var m := BacksSound(b, next, Back(c), r);
    BacksJoin(b, p, next, c, r, m);
    n := m + 1;
  }

  lemma {:induction false} BacksSound(b: string, p: nat, c: Cmd<Span>, r: Parsed) returns (n: nat)
    requires p <= |b| && r == ParseBacks(b, p, c)
    ensures BacksRead(b, p, c, r, n)
    decreases |b| - p, 1
  {
    if At(b, SkipWhite(b, p)) == '&' {
      n := BackSound(b, p, c, r);
    } else {
      BacksNone(b, p, c);
      n := 0;
    }
  }

  // ---------- words and redirections in any order ----------

  /** parseexec from some point in a command without parentheses on. */
  function Tail(b: string, p: nat, ret: Cmd<Span>): (r: Parsed)
    requires p <= |b|
    ensures r.Ok? ==> p <= r.next <= |b|
  {
    var more := ParseRedirs(b, p, ret);
    if more.Err? then more else ParseArgs(b, more.next, more.value)
  }

  /** From p to where r ends stand these items, and r is the command with them added. */
  ghost predicate TailRead(b: string, p: nat, r: Parsed, ws: seq<string>, rs: seq<Redirection>, items: seq<Item>) {
    && p <= |b| && r.Ok? && r.next <= |b| && CommandOk(Simple(items)) && |ws| + |ArgsOf(items)| < 10
    && Lex(b, p) == ItemTokens(items) + Lex(b, r.next)
    && Words(b, r.value) == Wrap(Exec(ws + ArgsOf(items)), rs + RedirectionsOf(items))
  }

  lemma {:induction false} TailToStep(b: string, p: nat, ret: Cmd<Span>) returns (one: Redirection, w: Span, next: nat)
    requires p <= |b| && Tail(b, p, ret).Ok? && Angle(At(b, SkipWhite(b, p)))
    ensures RedirectionOk(one) && p < next <= |b| && one.file == Word(b, w)
    ensures Tail(b, next, Redirected(ret, one.op, w)) == Tail(b, p, ret)
    ensures Lex(b, p) == [Op(one.op), W(one.file)] + Lex(b, next)
  {
    one, w, next := RedirStep(b, p, ret);
  }

  /** An argument comes next. */
  predicate ArgNext(b: string, p: nat)
    requires p <= |b|
  {
    GetToken(b, p).kind == 'a'
  }

  lemma {:induction false} TailArgStep(b: string, p: nat, ret: Cmd<Span>)
    requires p <= |b| && ArgNext(b, p)
    ensures var t := GetToken(b, p);
            && Tail(b, p, ret) ==
               (if Argc(ret) + 1 >= MAXARGS then Err(TooManyArgs)
                else Tail(b, t.next, AddArg(ret, Span(t.q, t.eq))))
            && Lex(b, p) == [W(Word(b, Span(t.q, t.eq)))] + Lex(b, t.next) && p < t.next
  {
    WordHead(b, p);
    var s := SkipWhite(b, p);
    SkipLex(b, p);
    assert ParseRedirs(b, p, ret) == Ok(ret, s);
  }

  lemma {:induction false} TailEnd(b: string, p: nat, ret: Cmd<Span>)
    requires p <= |b| && !Angle(At(b, SkipWhite(b, p))) && !ArgNext(b, p)
    ensures Tail(b, p, ret).Ok? <==> At(b, SkipWhite(b, p)) != '('
    ensures Tail(b, p, ret).Ok? ==> Tail(b, p, ret).value == ret && Lex(b, Tail(b, p, ret).next) == Lex(b, p)
  {
    Head(b, p);
    SkipLex(b, p);
    var s := SkipWhite(b, p);
    assert ParseRedirs(b, p, ret) == Ok(ret, s);
    if At(b, s) == NUL {
      SkipLex(b, s);
    }
  }

  lemma {:induction false} ItemsTo(one: Redirection, items: seq<Item>)
    ensures var all := [To(one)] + items;
            && ItemTokens(all) == [Op(one.op), W(one.file)] + ItemTokens(items)
            && ArgsOf(all) == ArgsOf(items) && RedirectionsOf(all) == [one] + RedirectionsOf(items)
  {
    assert ([To(one)] + items)[1..] == items;
  }

  lemma {:induction false} ItemsArg(w: string, items: seq<Item>)
    ensures var all := [Arg(w)] + items;
            && ItemTokens(all) == [W(w)] + ItemTokens(items)
            && ArgsOf(all) == [w] + ArgsOf(items) && RedirectionsOf(all) == RedirectionsOf(items)
  {
    assert ([Arg(w)] + items)[1..] == items;
  }

  lemma {:induction false} AssocWords(x: seq<string>, y: seq<string>, z: seq<string>)
    ensures x + (y + z) == x + y + z
  {
  }

  lemma {:induction false} AssocRedirections(x: seq<Redirection>, y: seq<Redirection>, z: seq<Redirection>)
    ensures x + (y + z) == x + y + z
  {
  }

  lemma {:induction false} TailToJoin(b: string, p: nat, next: nat, r: Parsed, ws: seq<string>, rs: seq<Redirection>,
                                      one: Redirection, items: seq<Item>, all: seq<Item>)
    requires p <= |b| && next <= |b| && RedirectionOk(one) && Lex(b, p) == [Op(one.op), W(one.file)] + Lex(b, next)
    requires TailRead(b, next, r, ws, rs + [one], items) && all == [To(one)] + items
    ensures TailRead(b, p, r, ws, rs, all)
  {
    ItemsTo(one, items);
    Assoc([Op(one.op), W(one.file)], ItemTokens(items), Lex(b, r.next));
    AssocRedirections(rs, [one], RedirectionsOf(items));
  }

  lemma {:induction false} TailArgJoin(b: string, p: nat, next: nat, r: Parsed, ws: seq<string>, rs: seq<Redirection>,
                                       w: string, items: seq<Item>, all: seq<Item>)
    requires p <= |b| && next <= |b| && Lex(b, p) == [W(w)] + Lex(b, next)
    requires TailRead(b, next, r, ws + [w], rs, items) && all == [Arg(w)] + items
    ensures TailRead(b, p, r, ws, rs, all)
  {
    ItemsArg(w, items);
    Assoc([W(w)], ItemTokens(items), Lex(b, r.next));
    AssocWords(ws, [w], ArgsOf(items));
  }

  lemma {:induction false} TailNone(b: string, p: nat, r: Parsed, ret: Cmd<Span>, ws: seq<string>, rs: seq<Redirection>)
    requires p <= |b| && r.Ok? && r.next <= |b| && r.value == ret && Lex(b, r.next) == Lex(b, p)
    requires Words(b, ret) == Wrap(Exec(ws), rs) && |ws| < 10
    ensures TailRead(b, p, r, ws, rs, [])
  {
    assert ws + [] == ws && rs + [] == rs;
  }

  /** The arguments so far, and one more. */
  lemma {:induction false} MoreArgs(b: string, ret: Cmd<Span>, w: Span, ws: seq<string>, rs: seq<Redirection>)
    requires Words(b, ret) == Wrap(Exec(ws), rs)
    ensures Words(b, AddArg(ret, w)) == Wrap(Exec(ws + [Word(b, w)]), rs) && Argc(ret) == |ws|
  {
    WordsArg(b, ret, w);
    WrapArg(Exec(ws), rs, Word(b, w));
    WrapArgc(Exec(ws), rs);
  }

  lemma {:induction false} TailSound(b: string, p: nat, ret: Cmd<Span>, r: Parsed, ws: seq<string>,
                                     rs: seq<Redirection>)
    returns (items: seq<Item>)
    requires p <= |b| && r == Tail(b, p, ret) && r.Ok? && Words(b, ret) == Wrap(Exec(ws), rs) && |ws| < 10
    ensures TailRead(b, p, r, ws, rs, items)
    decreases |b| - p
  {
    if Angle(At(b, SkipWhite(b, p))) {
      var one, w, next := TailToStep(b, p, ret);
      RedirectedWords(b, ret, one, w);
      WrapOne(Exec(ws), rs, one);
      var rest := TailSound(b, next, Redirected(ret, one.op, w), r, ws, rs + [one]);
      items := [To(one)] + rest;
      TailToJoin(b, p, next, r, ws, rs, one, rest, items);
    } else if ArgNext(b, p) {
      items := TailArgSound(b, p, ret, r, ws, rs);
    } else {
      TailEnd(b, p, ret);
      TailNone(b, p, r, ret, ws, rs);
      items := [];
    }
  }

  lemma {:induction false} TailArgSound(b: string, p: nat, ret: Cmd<Span>, r: Parsed, ws: seq<string>,
                                        rs: seq<Redirection>)
    returns (items: seq<Item>)
    requires p <= |b| && r == Tail(b, p, ret) && r.Ok? && Words(b, ret) == Wrap(Exec(ws), rs) && |ws| < 10
             && ArgNext(b, p)
    ensures TailRead(b, p, r, ws, rs, items)
    decreases |b| - p, 0
  {
    var t := GetToken(b, p);
    var w := Span(t.q, t.eq);
    TailArgStep(b, p, ret);
    MoreArgs(b, ret, w, ws, rs);
    var rest := TailSound(b, t.next, AddArg(ret, w), r, ws + [Word(b, w)], rs);
    items := [Arg(Word(b, w))] + rest;
    TailArgJoin(b, p, t.next, r, ws, rs, Word(b, w), rest, items);
  }

  // ---------- every line parsed ----------

  ghost predicate CommandRead(b: string, p: nat, r: Parsed, c: Command) {
    && p <= |b| && r.Ok? && r.next <= |b| && CommandOk(c)
    && Lex(b, p) == CommandTokens(c) + Lex(b, r.next) && Words(b, r.value) == CommandMeans(c)
  }

  ghost predicate PipelineRead(b: string, p: nat, r: Parsed, c: Pipeline) {
    && p <= |b| && r.Ok? && r.next <= |b| && PipelineOk(c)
    && Lex(b, p) == PipelineTokens(c) + Lex(b, r.next) && Words(b, r.value) == PipelineMeans(c)
  }

  ghost predicate LineRead(b: string, p: nat, r: Parsed, c: Line) {
    && p <= |b| && r.Ok? && r.next <= |b| && LineOk(c)
    && Lex(b, p) == LineTokens(c) + Lex(b, r.next) && Words(b, r.value) == LineMeans(c)
  }

  lemma {:induction false} SimpleJoin(b: string, p: nat, r: Parsed, items: seq<Item>)
    requires TailRead(b, p, r, [], [], items)
    ensures CommandRead(b, p, r, Simple(items))
  {
    assert [] + ArgsOf(items) == ArgsOf(items) && [] + RedirectionsOf(items) == RedirectionsOf(items);
  }

  lemma {:induction false} BlockJoin(b: string, p: nat, p1: nat, inner: Parsed, p2: nat, r: Parsed, line: Line,
                                     redirs: seq<Redirection>)
    requires p <= |b| && p1 <= |b| && Lex(b, p) == [Op('(')] + Lex(b, p1) && LineRead(b, p1, inner, line)
    requires p2 <= |b| && Lex(b, inner.next) == [Op(')')] + Lex(b, p2)
    requires RedirsRead(b, p2, r, LineMeans(line), [], redirs)
    ensures CommandRead(b, p, r, Block(line, redirs))
  {
    var end := Lex(b, r.next);
    Assoc([Op(')')], RedirectionTokens(redirs), end);
    Assoc(LineTokens(line), [Op(')')] + RedirectionTokens(redirs), end);
    Assoc([Op('(')], LineTokens(line), [Op(')')] + RedirectionTokens(redirs) + end);
    Assoc([Op('(')] + LineTokens(line), [Op(')')] + RedirectionTokens(redirs), end);
    assert [] + redirs == redirs;
  }

  lemma {:induction false} SingleJoin(b: string, p: nat, r: Parsed, r1: Parsed, c: Command)
    requires CommandRead(b, p, r, c) && r1.Ok? && r1.value == r.value && r1.next <= |b|
             && Lex(b, r1.next) == Lex(b, r.next)
    ensures PipelineRead(b, p, r1, Single(c))
  {
  }

  lemma {:induction false} PipedJoin(b: string, p: nat, left: Parsed, p1: nat, right: Parsed, r: Parsed, c: Command,
                                     rest: Pipeline)
    requires CommandRead(b, p, left, c) && p1 <= |b| && Lex(b, left.next) == [Op('|')] + Lex(b, p1)
    requires PipelineRead(b, p1, right, rest) && r == Ok(Pipe(left.value, right.value), right.next)
    ensures PipelineRead(b, p, r, Piped(c, rest))
  {
    var end := Lex(b, r.next);
    Assoc([Op('|')], PipelineTokens(rest), end);
    Assoc(CommandTokens(c), [Op('|')] + PipelineTokens(rest), end);
  }

  lemma {:induction false} LastJoin(b: string, p: nat, first: Parsed, r: Parsed, c: Pipeline, n: nat)
    requires PipelineRead(b, p, first, c) && BacksRead(b, first.next, first.value, r, n)
    ensures LineRead(b, p, r, Last(c, n))
  {
    Assoc(PipelineTokens(c), Amps(n), Lex(b, r.next));
  }

  lemma {:induction false} ThenJoin(b: string, p: nat, first: Parsed, backs: Parsed, p1: nat, rest: Parsed, r: Parsed,
                                    c: Pipeline, n: nat, l: Line)
    requires PipelineRead(b, p, first, c) && BacksRead(b, first.next, first.value, backs, n)
    requires p1 <= |b| && Lex(b, backs.next) == [Op(';')] + Lex(b, p1) && LineRead(b, p1, rest, l)
    requires r == Ok(List(backs.value, rest.value), rest.next)
    ensures LineRead(b, p, r, Then(c, n, l))
  {
    var end := Lex(b, r.next);
    Assoc([Op(';')], LineTokens(l), end);
    Assoc(Amps(n), [Op(';')] + LineTokens(l), end);
    Assoc(PipelineTokens(c), Amps(n) + ([Op(';')] + LineTokens(l)), end);
  }

  lemma {:induction false} LineSound(b: string, p: nat) returns (l: Line)
    requires p <= |b| && ParseLine(b, p).Ok?
    ensures LineRead(b, p, ParseLine(b, p), l)
    decreases |b| - p, 4
  {
    var first := ParsePipe(b, p);
    var c := PipeSound(b, p);
    var backs := ParseBacks(b, first.next, first.value);
    var n := BacksSound(b, first.next, first.value, backs);
    BacksStop(b, first.next, first.value);
    if At(b, backs.next) == ';' {
      SymbolHead(b, backs.next);
      var p1 := GetToken(b, backs.next).next;
      var rest := LineSound(b, p1);
      ThenJoin(b, p, first, backs, p1, ParseLine(b, p1), ParseLine(b, p), c, n, rest);
      l := Then(c, n, rest);
    } else {
      LastJoin(b, p, first, backs, c, n);
      l := Last(c, n);
    }
  }

  lemma {:induction false} BacksStop(b: string, p: nat, c: Cmd<Span>)
    requires p <= |b|
    ensures var e := ParseBacks(b, p, c).next; SkipWhite(b, e) == e && At(b, e) != '&'
    decreases |b| - p
  {
    if At(b, SkipWhite(b, p)) == '&' {
      BacksStop(b, GetToken(b, SkipWhite(b, p)).next, Back(c));
    }
  }

  lemma {:induction false} PipeSound(b: string, p: nat) returns (c: Pipeline)
    requires p <= |b| && ParsePipe(b, p).Ok?
    ensures PipelineRead(b, p, ParsePipe(b, p), c)
    decreases |b| - p, 3
  {
    var left := ParseExec(b, p);
    var cmd := ExecSound(b, p);
    var s := SkipWhite(b, left.next);
    SkipLex(b, left.next);
    if At(b, s) == '|' {
      SymbolHead(b, left.next);
      var p1 := GetToken(b, s).next;
      var rest := PipeSound(b, p1);
      PipedJoin(b, p, left, p1, ParsePipe(b, p1), ParsePipe(b, p), cmd, rest);
      c := Piped(cmd, rest);
    } else {
      SingleJoin(b, p, left, ParsePipe(b, p), cmd);
      c := Single(cmd);
    }
  }

  lemma {:induction false} ExecSound(b: string, p: nat) returns (c: Command)
    requires p <= |b| && ParseExec(b, p).Ok?
    ensures CommandRead(b, p, ParseExec(b, p), c)
    decreases |b| - p, 2
  {
    var s := SkipWhite(b, p);
    SkipLex(b, p);
    if At(b, s) == '(' {
      c := BlockSound(b, s);
      assert CommandRead(b, p, ParseExec(b, p), c);
    } else {
      var r := ParseExec(b, p);
      assert Words(b, Exec([])) == Wrap(Exec([]), []);
      var items := TailSound(b, s, Exec([]), r, [], []);
      SimpleJoin(b, s, r, items);
      c := Simple(items);
    }
  }

  lemma {:induction false} BlockSound(b: string, p: nat) returns (c: Command)
    requires p <= |b| && At(b, p) == '(' && ParseBlock(b, p).Ok?
    ensures CommandRead(b, p, ParseBlock(b, p), c)
    decreases |b| - p, 1
  {
    SymbolHead(b, p);
    var p1 := GetToken(b, p).next;
    var inner := ParseLine(b, p1);
    var line := LineSound(b, p1);
    SymbolHead(b, inner.next);
    var p2 := GetToken(b, SkipWhite(b, inner.next)).next;
    var redirs := RedirsSound(b, p2, inner.value, ParseBlock(b, p), LineMeans(line), []);
    BlockJoin(b, p, p1, inner, p2, ParseBlock(b, p), line, redirs);
    c := Block(line, redirs);
  }

  // ---------- every sentence is parsed ----------

  /** The parse ends before the tokens rest, with tree t. */
  ghost predicate Gives(b: string, r: Parsed, rest: seq<Lexeme>, t: Cmd<string>) {
    r.Ok? && r.next <= |b| && Lex(b, r.next) == rest && Words(b, r.value) == t
  }

  predicate EndsLine(rest: seq<Lexeme>) { rest == [] || rest[0] == Op(')') }
  predicate EndsPipeline(rest: seq<Lexeme>) { EndsLine(rest) || rest[0] == Op('&') || rest[0] == Op(';') }
  predicate EndsCommand(rest: seq<Lexeme>) { EndsPipeline(rest) || rest[0] == Op('|') }

  lemma {:induction false} RedirForward(b: string, p: nat, c: Cmd<Span>, one: Redirection, more: seq<Lexeme>)
    returns (w: Span, next: nat)
    requires p <= |b| && RedirectionOk(one) && Lex(b, p) == [Op(one.op)] + ([W(one.file)] + more)
    ensures p < next <= |b| && Word(b, w) == one.file && Lex(b, next) == more
    ensures ParseRedirs(b, p, c) == ParseRedirs(b, next, Redirected(c, one.op, w))
  {
    AngleNext(b, p, one.op, [W(one.file)] + more);
    var tok := GetToken(b, SkipWhite(b, p));
    FileNext(b, tok.next, one.file, more);
    var file := GetToken(b, tok.next);
    w, next := Span(file.q, file.eq), file.next;
    RedirsStep(b, p, c, tok, file);
  }

  lemma {:induction false} AngleNext(b: string, p: nat, c: char, more: seq<Lexeme>)
    requires p <= |b| && Lex(b, p) == [Op(c)] + more && RedirectionOk(Redirection(c, ""))
    ensures var t := GetToken(b, SkipWhite(b, p));
            Angle(At(b, SkipWhite(b, p))) && t.kind == c && Lex(b, t.next) == more && p < t.next
  {
    Head(b, p);
    assert Lex(b, p)[0] == Op(c);
    SymbolHead(b, p);
    assert Lex(b, p)[1..] == more;
  }

  lemma {:induction false} FileNext(b: string, p: nat, w: string, more: seq<Lexeme>)
    requires p <= |b| && Lex(b, p) == [W(w)] + more
    ensures var t := GetToken(b, p);
            t.kind == 'a' && Word(b, Span(t.q, t.eq)) == w && Lex(b, t.next) == more && t.next > p
  {
    Head(b, p);
    assert Lex(b, p)[0] == W(w);
    WordHead(b, p);
    assert Lex(b, p)[1..] == more;
  }

  lemma {:induction false} RedirsStopped(b: string, p: nat, c: Cmd<Span>, rest: seq<Lexeme>)
    requires p <= |b| && Lex(b, p) == rest && EndsCommand(rest)
    ensures Gives(b, ParseRedirs(b, p, c), rest, Words(b, c))
  {
    Head(b, p);
  }

  lemma {:induction false} RedirsComplete(b: string, p: nat, c: Cmd<Span>, t: Cmd<string>, a: seq<Redirection>,
                                          rs: seq<Redirection>, rest: seq<Lexeme>)
    requires p <= |b| && Lex(b, p) == RedirectionTokens(rs) + rest && EndsCommand(rest) && RedirectionsOk(rs)
    requires Words(b, c) == Wrap(t, a)
    ensures Gives(b, ParseRedirs(b, p, c), rest, Wrap(t, a + rs))
    decreases |rs|, 1
  {
    if rs == [] {
      assert a + rs == a;
      RedirsStopped(b, p, c, rest);
    } else {
      assert rs == [rs[0]] + rs[1..];
      RedirsOneComplete(b, p, c, t, a, rs[0], rs[1..], rs, rest);
    }
  }

  lemma {:induction false} RedirsOneComplete(b: string, p: nat, c: Cmd<Span>, t: Cmd<string>, a: seq<Redirection>,
                                             one: Redirection, tail: seq<Redirection>, rs: seq<Redirection>,
                                             rest: seq<Lexeme>)
    requires p <= |b| && Lex(b, p) == RedirectionTokens(rs) + rest && EndsCommand(rest) && RedirectionsOk(rs)
    requires Words(b, c) == Wrap(t, a) && rs == [one] + tail
    ensures Gives(b, ParseRedirs(b, p, c), rest, Wrap(t, a + rs))
    decreases |rs|, 0
  {
    RedirectionTokensMore(one, tail, rest);
    AssocPair(Op(one.op), W(one.file), RedirectionTokens(tail) + rest);
    assert rs[0] == one;
    var w, next := RedirForward(b, p, c, one, RedirectionTokens(tail) + rest);
    RedirectedWords(b, c, one, w);
    WrapOne(t, a, one);
    RedirectionsTail(one, tail, rs);
    RedirsComplete(b, next, Redirected(c, one.op, w), t, a + [one], tail, rest);
    AssocRedirections(a, [one], tail);
  }

  lemma {:induction false} RedirectionsTail(one: Redirection, tail: seq<Redirection>, rs: seq<Redirection>)
    requires RedirectionsOk(rs) && rs == [one] + tail
    ensures RedirectionsOk(tail) && RedirectionOk(one)
  {
    forall i | 0 <= i < |tail| ensures RedirectionOk(tail[i]) { assert rs[i + 1] == tail[i]; }
    assert rs[0] == one;
  }

  lemma {:induction false} AssocPair(x: Lexeme, y: Lexeme, rest: seq<Lexeme>)
    ensures [x, y] + rest == [x] + ([y] + rest)
  {
  }

  lemma {:induction false} BacksComplete(b: string, p: nat, c: Cmd<Span>, n: nat, rest: seq<Lexeme>)
    requires p <= |b| && Lex(b, p) == Amps(n) + rest && (rest == [] || rest[0] != Op('&'))
    ensures Gives(b, ParseBacks(b, p, c), rest, Backs(Words(b, c), n))
    decreases n, 0
  {
    if n == 0 {
      assert Amps(n) + rest == rest;
      BacksStopped(b, p, c, rest);
    } else {
      BackComplete(b, p, c, n - 1, rest);
    }
  }

  lemma {:induction false} BacksStopped(b: string, p: nat, c: Cmd<Span>, rest: seq<Lexeme>)
    requires p <= |b| && Lex(b, p) == rest && (rest == [] || rest[0] != Op('&'))
    ensures Gives(b, ParseBacks(b, p, c), rest, Words(b, c))
  {
    Head(b, p);
  }

  lemma {:induction false} BackComplete(b: string, p: nat, c: Cmd<Span>, n: nat, rest: seq<Lexeme>)
    requires p <= |b| && Lex(b, p) == Amps(n + 1) + rest && (rest == [] || rest[0] != Op('&'))
    ensures Gives(b, ParseBacks(b, p, c), rest, Backs(Words(b, c), n + 1))
    decreases n, 1
  {
    var next := BackForward(b, p, c, n + 1, rest);
    BacksComplete(b, next, Back(c), n, rest);
    WordsBacks(b, c, n, ParseBacks(b, next, Back(c)), rest);
  }

  lemma {:induction false} WordsBacks(b: string, c: Cmd<Span>, n: nat, r: Parsed, rest: seq<Lexeme>)
    requires Gives(b, r, rest, Backs(Words(b, Back(c)), n))
    ensures Gives(b, r, rest, Backs(Words(b, c), n + 1))
  {
    BacksMore(Words(b, c), n);
  }

  lemma {:induction false} BackForward(b: string, p: nat, c: Cmd<Span>, n: nat, rest: seq<Lexeme>) returns (next: nat)
    requires p <= |b| && n > 0 && Lex(b, p) == Amps(n) + rest
    ensures p < next <= |b| && Lex(b, next) == Amps(n - 1) + rest && ParseBacks(b, p, c) == ParseBacks(b, next, Back(c))
  {
    Assoc([Op('&')], Amps(n - 1), rest);
    OpNext(b, p, '&', Amps(n - 1) + rest);
    next := GetToken(b, SkipWhite(b, p)).next;
  }

  /** The operator that the tokens say is there, and what follows it. */
  lemma {:induction false} OpNext(b: string, p: nat, c: char, more: seq<Lexeme>)
    requires p <= |b| && Lex(b, p) == [Op(c)] + more && (c == '&' || c == ';' || c == '|' || c == '(' || c == ')')
    ensures At(b, SkipWhite(b, p)) == c && Lex(b, GetToken(b, SkipWhite(b, p)).next) == more
    ensures p < GetToken(b, SkipWhite(b, p)).next
  {
    Head(b, p);
    assert Lex(b, p)[0] == Op(c);
    SymbolHead(b, p);
    assert Lex(b, p)[1..] == more;
  }

  lemma {:induction false} TailStopped(b: string, p: nat, ret: Cmd<Span>, rest: seq<Lexeme>)
    requires p <= |b| && Lex(b, p) == rest && EndsCommand(rest)
    ensures Gives(b, Tail(b, p, ret), rest, Words(b, ret))
  {
    Head(b, p);
    TailEnd(b, p, ret);
  }

  lemma {:induction false} TailComplete(b: string, p: nat, ret: Cmd<Span>, ws: seq<string>, rs: seq<Redirection>,
                                        items: seq<Item>, rest: seq<Lexeme>)
    requires p <= |b| && Lex(b, p) == ItemTokens(items) + rest && EndsCommand(rest) && CommandOk(Simple(items))
    requires |ws| + |ArgsOf(items)| < 10 && Words(b, ret) == Wrap(Exec(ws), rs)
    ensures Gives(b, Tail(b, p, ret), rest, Wrap(Exec(ws + ArgsOf(items)), rs + RedirectionsOf(items)))
    decreases |items|, 1
  {
    if items == [] {
      assert ws + [] == ws && rs + [] == rs;
      TailStopped(b, p, ret, rest);
    } else if items[0].To? {
      TailToComplete(b, p, ret, ws, rs, items[0].r, items[1..], items, rest);
    } else {
      TailArgComplete(b, p, ret, ws, rs, items[0].w, items[1..], items, rest);
    }
  }

  lemma {:induction false} TailToComplete(b: string, p: nat, ret: Cmd<Span>, ws: seq<string>, rs: seq<Redirection>,
                                          one: Redirection, tail: seq<Item>, items: seq<Item>, rest: seq<Lexeme>)
    requires p <= |b| && Lex(b, p) == ItemTokens(items) + rest && EndsCommand(rest) && CommandOk(Simple(items))
    requires |ws| + |ArgsOf(items)| < 10 && Words(b, ret) == Wrap(Exec(ws), rs) && items == [To(one)] + tail
    ensures Gives(b, Tail(b, p, ret), rest, Wrap(Exec(ws + ArgsOf(items)), rs + RedirectionsOf(items)))
    decreases |items|, 0
  {
    ItemsTo(one, tail);
    assert items[0] == To(one);
    AssocTwo(Op(one.op), W(one.file), ItemTokens(tail), rest);
    var w, next := RedirForward(b, p, ret, one, ItemTokens(tail) + rest);
    RedirectedWords(b, ret, one, w);
    WrapOne(Exec(ws), rs, one);
    TailOk(one, tail, items);
    TailComplete(b, next, Redirected(ret, one.op, w), ws, rs + [one], tail, rest);
    AssocRedirections(rs, [one], RedirectionsOf(tail));
  }

  lemma {:induction false} TailOk(one: Redirection, tail: seq<Item>, items: seq<Item>)
    requires CommandOk(Simple(items)) && items == [To(one)] + tail
    ensures CommandOk(Simple(tail)) && RedirectionOk(one)
  {
    ItemsTo(one, tail);
    forall i | 0 <= i < |tail| && tail[i].To? ensures RedirectionOk(tail[i].r) {
      assert items[i + 1] == tail[i];
    }
    assert items[0] == To(one);
  }

  lemma {:induction false} AssocTwo(x: Lexeme, y: Lexeme, z: seq<Lexeme>, rest: seq<Lexeme>)
    ensures [x, y] + z + rest == [x] + ([y] + (z + rest))
  {
  }

  lemma {:induction false} TailArgComplete(b: string, p: nat, ret: Cmd<Span>, ws: seq<string>, rs: seq<Redirection>,
                                           w: string, tail: seq<Item>, items: seq<Item>, rest: seq<Lexeme>)
    requires p <= |b| && Lex(b, p) == ItemTokens(items) + rest && EndsCommand(rest) && CommandOk(Simple(items))
    requires |ws| + |ArgsOf(items)| < 10 && Words(b, ret) == Wrap(Exec(ws), rs) && items == [Arg(w)] + tail
    ensures Gives(b, Tail(b, p, ret), rest, Wrap(Exec(ws + ArgsOf(items)), rs + RedirectionsOf(items)))
    decreases |items|, 0
  {
    ItemsArg(w, tail);
    Assoc([W(w)], ItemTokens(tail), rest);
    WordNext(b, p, w, ItemTokens(tail) + rest);
    var t := GetToken(b, p);
    var span := Span(t.q, t.eq);
    TailArgStep(b, p, ret);
    MoreArgs(b, ret, span, ws, rs);
    ArgTailOk(w, tail, items);
    TailComplete(b, t.next, AddArg(ret, span), ws + [w], rs, tail, rest);
    AssocWords(ws, [w], ArgsOf(tail));
  }

  lemma {:induction false} ArgTailOk(w: string, tail: seq<Item>, items: seq<Item>)
    requires CommandOk(Simple(items)) && items == [Arg(w)] + tail
    ensures CommandOk(Simple(tail))
  {
    ItemsArg(w, tail);
    forall i | 0 <= i < |tail| && tail[i].To? ensures RedirectionOk(tail[i].r) {
      assert items[i + 1] == tail[i];
    }
  }

  lemma {:induction false} WordNext(b: string, p: nat, w: string, more: seq<Lexeme>)
    requires p <= |b| && Lex(b, p) == [W(w)] + more
    ensures ArgNext(b, p)
    ensures var t := GetToken(b, p); Word(b, Span(t.q, t.eq)) == w && Lex(b, t.next) == more && t.next > p
  {
    Head(b, p);
    assert Lex(b, p)[0] == W(w);
    WordHead(b, p);
    assert Lex(b, p)[1..] == more;
  }

  lemma {:induction false} CommandComplete(b: string, p: nat, c: Command, rest: seq<Lexeme>)
    requires p <= |b| && Lex(b, p) == CommandTokens(c) + rest && EndsCommand(rest) && CommandOk(c)
    ensures Gives(b, ParseExec(b, p), rest, CommandMeans(c))
    decreases c, 1
  {
    match c
    case Simple(items) => SimpleComplete(b, p, items, rest);
    case Block(line, redirs) => BlockComplete(b, p, line, redirs, rest);
  }

  lemma {:induction false} SimpleComplete(b: string, p: nat, items: seq<Item>, rest: seq<Lexeme>)
    requires p <= |b| && Lex(b, p) == ItemTokens(items) + rest && EndsCommand(rest) && CommandOk(Simple(items))
    ensures Gives(b, ParseExec(b, p), rest, CommandMeans(Simple(items)))
  {
    var s := SkipWhite(b, p);
    SkipLex(b, p);
    NoParen(b, p, items, rest);
    assert Words(b, Exec([])) == Wrap(Exec([]), []);
    TailComplete(b, s, Exec([]), [], [], items, rest);
    SimpleEnd(b, p, items, rest);
  }

  lemma {:induction false} SimpleEnd(b: string, p: nat, items: seq<Item>, rest: seq<Lexeme>)
    requires p <= |b| && At(b, SkipWhite(b, p)) != '('
    requires Gives(b, Tail(b, SkipWhite(b, p), Exec([])), rest,
                   Wrap(Exec([] + ArgsOf(items)), [] + RedirectionsOf(items)))
    ensures Gives(b, ParseExec(b, p), rest, CommandMeans(Simple(items)))
  {
    assert [] + ArgsOf(items) == ArgsOf(items) && [] + RedirectionsOf(items) == RedirectionsOf(items);
    assert ParseExec(b, p) == Tail(b, SkipWhite(b, p), Exec([]));
  }

  lemma {:induction false} NoParen(b: string, p: nat, items: seq<Item>, rest: seq<Lexeme>)
    requires p <= |b| && Lex(b, p) == ItemTokens(items) + rest && EndsCommand(rest) && CommandOk(Simple(items))
    ensures At(b, SkipWhite(b, p)) != '('
  {
    Head(b, p);
    if items != [] {
      match items[0]
      case Arg(w) => assert Lex(b, p)[0] == W(w);
      case To(r) => assert Lex(b, p)[0] == Op(r.op);
    }
  }

  lemma {:induction false} BlockComplete(b: string, p: nat, line: Line, redirs: seq<Redirection>, rest: seq<Lexeme>)
    requires p <= |b| && Lex(b, p) == CommandTokens(Block(line, redirs)) + rest && EndsCommand(rest)
    requires LineOk(line) && RedirectionsOk(redirs)
    ensures Gives(b, ParseExec(b, p), rest, CommandMeans(Block(line, redirs)))
    decreases Block(line, redirs), 0
  {
    var close := [Op(')')] + (RedirectionTokens(redirs) + rest);
    BlockTokens(line, redirs, rest);
    OpNext(b, p, '(', LineTokens(line) + close);
    var s := SkipWhite(b, p);
    SkipLex(b, p);
    var p1 := GetToken(b, s).next;
    LineComplete(b, p1, line, close);
    var inner := ParseLine(b, p1);
    OpNext(b, inner.next, ')', RedirectionTokens(redirs) + rest);
    var p2 := GetToken(b, SkipWhite(b, inner.next)).next;
    RedirsComplete(b, p2, inner.value, LineMeans(line), [], redirs, rest);
    assert [] + redirs == redirs;
    assert ParseExec(b, p) == ParseBlock(b, s) == ParseRedirs(b, p2, inner.value);
  }

  lemma {:induction false} BlockTokens(line: Line, redirs: seq<Redirection>, rest: seq<Lexeme>)
    ensures CommandTokens(Block(line, redirs)) + rest
            == [Op('(')] + (LineTokens(line) + ([Op(')')] + (RedirectionTokens(redirs) + rest)))
  {
    Assoc([Op(')')], RedirectionTokens(redirs), rest);
    Assoc(LineTokens(line), [Op(')')] + RedirectionTokens(redirs), rest);
    Assoc([Op('(')], LineTokens(line), [Op(')')] + RedirectionTokens(redirs) + rest);
    Assoc([Op('(')] + LineTokens(line), [Op(')')] + RedirectionTokens(redirs), rest);
  }

  lemma {:induction false} PipelineComplete(b: string, p: nat, c: Pipeline, rest: seq<Lexeme>)
    requires p <= |b| && Lex(b, p) == PipelineTokens(c) + rest && EndsPipeline(rest) && PipelineOk(c)
    ensures Gives(b, ParsePipe(b, p), rest, PipelineMeans(c))
    decreases c
  {
    var left := ParseExec(b, p);
    match c
    case Single(cmd) =>
      CommandComplete(b, p, cmd, rest);
      Head(b, left.next);
    case Piped(cmd, more) =>
      Assoc([Op('|')], PipelineTokens(more), rest);
      Assoc(CommandTokens(cmd), [Op('|')] + PipelineTokens(more), rest);
      CommandComplete(b, p, cmd, [Op('|')] + (PipelineTokens(more) + rest));
      OpNext(b, left.next, '|', PipelineTokens(more) + rest);
      var p1 := GetToken(b, SkipWhite(b, left.next)).next;
      PipelineComplete(b, p1, more, rest);
      PipedEnd(b, p, left, p1, ParsePipe(b, p1), CommandMeans(cmd), PipelineMeans(more), rest);
  }

  lemma {:induction false} PipedEnd(b: string, p: nat, left: Parsed, p1: nat, more: Parsed, t: Cmd<string>,
                                    u: Cmd<string>, rest: seq<Lexeme>)
    requires p <= |b| && left == ParseExec(b, p) && left.Ok? && At(b, SkipWhite(b, left.next)) == '|'
    requires p1 == GetToken(b, SkipWhite(b, left.next)).next && more == ParsePipe(b, p1)
    requires Words(b, left.value) == t && Gives(b, more, rest, u)
    ensures Gives(b, ParsePipe(b, p), rest, Pipe(t, u))
  {
  }

  lemma {:induction false} LineComplete(b: string, p: nat, l: Line, rest: seq<Lexeme>)
    requires p <= |b| && Lex(b, p) == LineTokens(l) + rest && EndsLine(rest) && LineOk(l)
    ensures Gives(b, ParseLine(b, p), rest, LineMeans(l))
    decreases l
  {
    match l
    case Last(pipe, amps) =>
      Assoc(PipelineTokens(pipe), Amps(amps), rest);
      PipelineComplete(b, p, pipe, Amps(amps) + rest);
      var first := ParsePipe(b, p);
      BacksComplete(b, first.next, first.value, amps, rest);
      BacksStop(b, first.next, first.value);
      Head(b, ParseBacks(b, first.next, first.value).next);
    case Then(pipe, amps, more) =>
      ThenComplete(b, p, pipe, amps, more, rest);
  }

  lemma {:induction false} ThenComplete(b: string, p: nat, pipe: Pipeline, amps: nat, more: Line, rest: seq<Lexeme>)
    requires p <= |b| && Lex(b, p) == LineTokens(Then(pipe, amps, more)) + rest && EndsLine(rest)
    requires PipelineOk(pipe) && LineOk(more)
    ensures Gives(b, ParseLine(b, p), rest, LineMeans(Then(pipe, amps, more)))
    decreases Then(pipe, amps, more), 0
  {
    var after := [Op(';')] + (LineTokens(more) + rest);
    ThenTokens(pipe, amps, more, rest);
    PipelineComplete(b, p, pipe, Amps(amps) + after);
    var backs := PipeEnd(b, p, ParsePipe(b, p), PipelineMeans(pipe), amps, after);
    var p1 := SemicolonNext(b, backs.next, LineTokens(more) + rest);
    LineComplete(b, p1, more, rest);
    ThenEnd(b, p, ParsePipe(b, p), backs, p1, ParseLine(b, p1), Backs(PipelineMeans(pipe), amps), LineMeans(more),
        rest);
  }

  lemma {:induction false} PipeEnd(b: string, p: nat, first: Parsed, t: Cmd<string>, amps: nat, after: seq<Lexeme>)
    returns (backs: Parsed)
    requires p <= |b| && first == ParsePipe(b, p) && Gives(b, first, Amps(amps) + after, t)
    requires after == [] || after[0] != Op('&')
    ensures backs == ParseBacks(b, first.next, first.value) && Gives(b, backs, after, Backs(t, amps))
    ensures SkipWhite(b, backs.next) == backs.next
  {
    backs := ParseBacks(b, first.next, first.value);
    BacksComplete(b, first.next, first.value, amps, after);
    BacksStop(b, first.next, first.value);
  }

  lemma {:induction false} SemicolonNext(b: string, p: nat, more: seq<Lexeme>) returns (p1: nat)
    requires p <= |b| && SkipWhite(b, p) == p && Lex(b, p) == [Op(';')] + more
    ensures At(b, p) == ';' && p1 == GetToken(b, p).next && p < p1 <= |b| && Lex(b, p1) == more
  {
    OpNext(b, p, ';', more);
    p1 := GetToken(b, p).next;
  }

  lemma {:induction false} ThenTokens(pipe: Pipeline, amps: nat, more: Line, rest: seq<Lexeme>)
    ensures LineTokens(Then(pipe, amps, more)) + rest
            == PipelineTokens(pipe) + (Amps(amps) + ([Op(';')] + (LineTokens(more) + rest)))
  {
    Assoc([Op(';')], LineTokens(more), rest);
    Assoc(Amps(amps), [Op(';')] + LineTokens(more), rest);
    Assoc(PipelineTokens(pipe), Amps(amps) + ([Op(';')] + LineTokens(more)), rest);
  }

  lemma {:induction false} ThenEnd(b: string, p: nat, first: Parsed, backs: Parsed, p1: nat, more: Parsed,
                                   t: Cmd<string>, u: Cmd<string>, rest: seq<Lexeme>)
    requires p <= |b| && first == ParsePipe(b, p) && first.Ok? && backs == ParseBacks(b, first.next, first.value)
    requires At(b, backs.next) == ';' && p1 == GetToken(b, backs.next).next && more == ParseLine(b, p1)
    requires Words(b, backs.value) == t && Gives(b, more, rest, u)
    ensures Gives(b, ParseLine(b, p), rest, List(t, u))
  {
  }

  // ---------- the parser is the grammar ----------

  /** The tokens of b are those of l. */
  ghost predicate Sentence(b: string, l: Line) { LineOk(l) && Lex(b, 0) == LineTokens(l) }

  /** The parser accepts a line, with tree t, if and only if the line's tokens are a sentence that means t. */
  lemma {:induction false} SentenceExact(b: string, t: Cmd<string>)
    requires NoNul(b)
    ensures ParseCmd(b).Ok? && Words(b, ParseCmd(b).value) == t
            <==> exists l :: Sentence(b, l) && LineMeans(l) == t
  {
    if ParseCmd(b).Ok? {
      var l := CmdSound(b);
    }
    if l :| Sentence(b, l) && LineMeans(l) == t {
      CmdComplete(b, l);
    }
  }

  lemma {:induction false} CmdSound(b: string) returns (l: Line)
    requires NoNul(b) && ParseCmd(b).Ok?
    ensures Sentence(b, l) && Words(b, ParseCmd(b).value) == LineMeans(l)
  {
    l := LineSound(b, 0);
    EndOfLine(b, ParseLine(b, 0).next);
    assert LineTokens(l) + [] == LineTokens(l);
  }

  lemma {:induction false} CmdComplete(b: string, l: Line)
    requires NoNul(b) && Sentence(b, l)
    ensures ParseCmd(b).Ok? && Words(b, ParseCmd(b).value) == LineMeans(l)
  {
    assert LineTokens(l) + [] == LineTokens(l);
    LineComplete(b, 0, l, []);
    EndOfLine(b, ParseLine(b, 0).next);
  }

  lemma {:induction false} EndOfLine(b: string, p: nat)
    requires NoNul(b) && p <= |b|
    ensures Lex(b, p) == [] <==> SkipWhite(b, p) == |b|
  {
    Head(b, p);
  }
}
