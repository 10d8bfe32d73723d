/** Command lines as text: tokens with blanks between them. A line has the tokens that the shell reads from it exactly
    when it is those tokens written out, so that the parser is determined without its tokenizer. */
module ShellText {
  import opened Shell
  import opened ShellGrammar

  // ---------- writing tokens ----------

  function Text(x: Lexeme): string {
    match x
    case Op(c) => if c == '+' then ">>" else [c]
    case W(w) => w
  }

  predicate LegalLexeme(x: Lexeme) {
    match x
    case Op(c) => Symbol(c) || c == '+'
    case W(w) => LegalWord(w)
  }

  predicate Blank(g: string) { forall i :: 0 <= i < |g| ==> White(g[i]) }

  /** Side by side these two would be read as something else. */
  predicate Apart(x: Lexeme, y: Lexeme) { (x.W? && y.W?) || (x == Op('>') && (y == Op('>') || y == Op('+'))) }

  /** The tokens with the gaps around them. */
  function Render(ls: seq<Lexeme>, gaps: seq<string>): string
    requires |gaps| == |ls| + 1
  {
    if ls == [] then gaps[0] else gaps[0] + (Text(ls[0]) + Render(ls[1..], gaps[1..]))
  }

  predicate Spaced(ls: seq<Lexeme>, gaps: seq<string>) {
    && |gaps| == |ls| + 1
    && (forall i :: 0 <= i < |gaps| ==> Blank(gaps[i]))
    && (forall i :: 0 <= i < |ls| ==> LegalLexeme(ls[i]))
    && (forall i :: 0 < i < |ls| && Apart(ls[i - 1], ls[i]) ==> gaps[i] != "")
  }

  lemma {:induction false} SpacedTail(ls: seq<Lexeme>, gaps: seq<string>)
    requires Spaced(ls, gaps) && ls != []
    ensures Spaced(ls[1..], gaps[1..]) && LegalLexeme(ls[0]) && Blank(gaps[0])
    ensures |ls| > 1 && Apart(ls[0], ls[1]) ==> gaps[1] != ""
  {
    forall i | 0 < i < |ls[1..]| && Apart(ls[1..][i - 1], ls[1..][i]) ensures gaps[1..][i] != "" {
      assert Apart(ls[i], ls[i + 1]);
    }
  }

  // ---------- what is written is read ----------

  /** s stands in b at p. */
  predicate Occurs(b: string, p: nat, s: string) {
    p + |s| <= |b| && forall i :: 0 <= i < |s| ==> s[i] == b[p + i]
  }

  lemma {:induction false} OccursChar(b: string, p: nat, s: string, i: nat)
    requires Occurs(b, p, s) && i < |s|
    ensures b[p + i] == s[i]
  {
  }

  lemma {:induction false} WordEndsAt(b: string, p: nat, m: nat)
    requires p <= m <= |b| && (forall i :: p <= i < m ==> WordChar(b[i])) && (m < |b| ==> !WordChar(b[m]))
    ensures WordEnd(b, p) == m
    decreases m - p
  {
    if p < m {
      WordEndsAt(b, p + 1, m);
    }
  }

  lemma {:induction false} TokenOfWord(b: string, p: nat, w: string)
    requires Occurs(b, p, w) && LegalWord(w) && (p + |w| < |b| ==> !WordChar(b[p + |w|]))
    ensures GetToken(b, p) == Token('a', p, p + |w|, SkipWhite(b, p + |w|)) && Word(b, Span(p, p + |w|)) == w
  {
    forall i | p <= i < p + |w| ensures WordChar(b[i]) && b[i] != NUL { OccursChar(b, p, w, i - p); }
    WordEndsAt(b, p, p + |w|);
  }

  lemma {:induction false} SkipsTo(b: string, p: nat, m: nat)
    requires p <= m <= |b| && (forall i :: p <= i < m ==> White(b[i])) && !White(At(b, m))
    ensures SkipWhite(b, p) == m
    decreases m - p
  {
    if p < m {
      SkipsTo(b, p + 1, m);
    }
  }

  lemma {:induction false} Suffix(b: string, p: nat, x: string, rest: string)
    requires p <= |b| && b[p..] == x + rest
    ensures p + |x| <= |b| && b[p + |x|..] == rest && Occurs(b, p, x)
    ensures At(b, p + |x|) == At(rest, 0)
  {
    assert |b[p..]| == |x| + |rest|;
    forall i | 0 <= i < |x| ensures x[i] == b[p + i] { assert b[p..][i] == x[i]; }
    forall i | 0 <= i < |rest| ensures b[p + |x|..][i] == rest[i] { assert b[p..][|x| + i] == rest[i]; }
  }

  /** How a text begins whose first token, if any, is legal. */
  lemma {:induction false} FirstChar(ls: seq<Lexeme>, gaps: seq<string>)
    requires Spaced(ls, gaps)
    ensures gaps[0] != "" ==> White(At(Render(ls, gaps), 0))
    ensures gaps[0] == "" && ls != [] ==> At(Render(ls, gaps), 0) == At(Text(ls[0]), 0)
    ensures gaps[0] == "" && ls == [] ==> Render(ls, gaps) == ""
  {
    assert Blank(gaps[0]);
    if ls != [] {
      assert LegalLexeme(ls[0]);
      if gaps[0] == "" {
        assert Render(ls, gaps) == Text(ls[0]) + Render(ls[1..], gaps[1..]);
      }
    }
  }

  lemma {:induction false} TextStart(x: Lexeme)
    requires LegalLexeme(x)
    ensures Text(x) != "" && var c := At(Text(x), 0);
            && !White(c) && c != NUL && (x.W? <==> WordChar(c)) && (c == '>' <==> x == Op('>') || x == Op('+'))
  {
  }

  /** What follows a token in a text does not run on from it. */
  lemma {:induction false} Follows(x: Lexeme, ls: seq<Lexeme>, gaps: seq<string>)
    requires Spaced(ls, gaps) && (ls != [] && Apart(x, ls[0]) ==> gaps[0] != "")
    ensures var c := At(Render(ls, gaps), 0);
            (x.W? && Render(ls, gaps) != "" ==> !WordChar(c)) && (x == Op('>') ==> c != '>')
  {
    FirstChar(ls, gaps);
    if gaps[0] == "" && ls != [] {
      assert LegalLexeme(ls[0]);
      TextStart(ls[0]);
    }
  }

  /** gettoken takes x off at s, up to e. */
  predicate TokenEnds(b: string, s: nat, x: Lexeme, e: nat) {
    && s <= e <= |b|
    && var t := GetToken(b, s); t.kind != NUL && t.next == SkipWhite(b, e) && LexemeOf(b, t) == x
  }

  lemma {:induction false} TokenAt(b: string, s: nat, x: Lexeme, rest: string)
    requires s <= |b| && LegalLexeme(x) && b[s..] == Text(x) + rest
    requires (x.W? && rest != "" ==> !WordChar(At(rest, 0))) && (x == Op('>') ==> At(rest, 0) != '>')
    ensures s + |Text(x)| <= |b| && b[s + |Text(x)|..] == rest && TokenEnds(b, s, x, s + |Text(x)|)
  {
    Suffix(b, s, Text(x), rest);
    match x
    case W(w) => TokenOfWord(b, s, w);
    case Op(c) => TokenOfOp(b, s, c);
  }

  lemma {:induction false} TokenOfOp(b: string, s: nat, c: char)
    requires LegalLexeme(Op(c)) && Occurs(b, s, Text(Op(c))) && (c == '>' ==> At(b, s + 1) != '>')
    ensures s + |Text(Op(c))| <= |b| && !White(At(b, s))
    ensures var e := s + |Text(Op(c))|; GetToken(b, s) == Token(c, s, e, SkipWhite(b, e))
  {
    OccursChar(b, s, Text(Op(c)), 0);
    if c == '+' {
      OccursChar(b, s, Text(Op(c)), 1);
    }
  }

  lemma {:induction false} BlankAt(b: string, p: nat, g: string, rest: string)
    requires p <= |b| && b[p..] == g + rest && Blank(g) && !White(At(rest, 0))
    ensures p + |g| <= |b| && SkipWhite(b, p) == p + |g| && b[p + |g|..] == rest
  {
    Suffix(b, p, g, rest);
    forall i | p <= i < p + |g| ensures White(b[i]) { OccursChar(b, p, g, i - p); }
    SkipsTo(b, p, p + |g|);
  }

  lemma {:induction false} LexOne(b: string, p: nat, s: nat, t: Token)
    requires p <= |b| && s == SkipWhite(b, p) && t == GetToken(b, s) && t.kind != NUL
    ensures Lex(b, p) == [LexemeOf(b, t)] + Lex(b, t.next)
  {
    Head(b, p);
  }

  lemma {:induction false} LexEnd(b: string, p: nat)
    requires p <= |b| && SkipWhite(b, p) == |b|
    ensures Lex(b, p) == []
  {
  }

  lemma {:induction false} LexRender(b: string, p: nat, ls: seq<Lexeme>, gaps: seq<string>)
    requires p <= |b| && Spaced(ls, gaps) && b[p..] == Render(ls, gaps)
    ensures Lex(b, p) == ls
    decreases |ls|, 0
  {
    if ls == [] {
      assert Blank(gaps[0]) && gaps[0] + "" == gaps[0];
      BlankAt(b, p, gaps[0], "");
      LexEnd(b, p);
    } else {
      SpacedTail(ls, gaps);
      LexRenderMore(b, p, gaps[0], ls[0], ls[1..], gaps[1..]);
      assert ls == [ls[0]] + ls[1..];
    }
  }

  lemma {:induction false} LexRenderMore(b: string, p: nat, g: string, x: Lexeme, ls: seq<Lexeme>, gaps: seq<string>)
    requires p <= |b| && Spaced(ls, gaps) && LegalLexeme(x) && Blank(g)
    requires ls != [] && Apart(x, ls[0]) ==> gaps[0] != ""
    requires b[p..] == g + (Text(x) + Render(ls, gaps))
    ensures Lex(b, p) == [x] + ls
    decreases |ls|, 2
  {
    var rest := Render(ls, gaps);
    var s := TextAfterBlank(b, p, g, x, rest);
    Follows(x, ls, gaps);
    TokenAt(b, s, x, rest);
    var e := s + |Text(x)|;
    LexRender(b, e, ls, gaps);
    LexToken(b, p, s, e, x, ls);
  }

  lemma {:induction false} TextAfterBlank(b: string, p: nat, g: string, x: Lexeme, rest: string) returns (s: nat)
    requires p <= |b| && LegalLexeme(x) && Blank(g) && b[p..] == g + (Text(x) + rest)
    ensures s <= |b| && SkipWhite(b, p) == s && b[s..] == Text(x) + rest
  {
    TextStart(x);
    assert At(Text(x) + rest, 0) == At(Text(x), 0);
    BlankAt(b, p, g, Text(x) + rest);
    s := p + |g|;
  }

  lemma {:induction false} LexToken(b: string, p: nat, s: nat, e: nat, x: Lexeme, ls: seq<Lexeme>)
    requires p <= |b| && e <= |b| && SkipWhite(b, p) == s && TokenEnds(b, s, x, e) && Lex(b, e) == ls
    ensures Lex(b, p) == [x] + ls
  {
    SkipLex(b, e);
    LexOne(b, p, s, GetToken(b, s));
  }

  // ---------- what is read was written ----------

  /** A token of a line: its text, and why it ends where it does. */
  lemma {:induction false} ReadToken(b: string, s: nat)
    requires NoNul(b) && s < |b| && !White(b[s])
    ensures var t := GetToken(b, s); var x := LexemeOf(b, t);
            && t.kind != NUL && s < t.eq <= |b| && t.next == SkipWhite(b, t.eq) && LegalLexeme(x)
            && Text(x) == b[s..t.eq]
            && (x.W? ==> !WordChar(At(b, t.eq)) || t.eq == |b|) && (x == Op('>') ==> At(b, t.eq) != '>')
  {
    var t := GetToken(b, s);
    if !Symbol(b[s]) {
      WordEndExact(b, s);
    } else if t.kind == '+' {
      assert b[s..s + 2] == ">>";
    } else {
      assert b[s..s + 1] == [b[s]];
    }
  }

  lemma {:induction false} BlankRun(b: string, p: nat)
    requires p <= |b|
    ensures Blank(b[p..SkipWhite(b, p)])
    decreases |b| - p
  {
    if p < |b| && White(b[p]) {
      BlankRun(b, p + 1);
      var s := SkipWhite(b, p);
      assert b[p..s] == [b[p]] + b[p + 1..s];
    }
  }

  /** Two tokens with nothing between them do not have to be apart. */
  lemma {:induction false} Touching(b: string, s: nat, ls: seq<Lexeme>)
    requires NoNul(b) && s < |b| && !White(b[s]) && ls == Lex(b, GetToken(b, s).eq)
    requires ls != [] && Apart(LexemeOf(b, GetToken(b, s)), ls[0])
    ensures SkipWhite(b, GetToken(b, s).eq) != GetToken(b, s).eq
  {
    ReadToken(b, s);
    Head(b, GetToken(b, s).eq);
  }

  lemma {:induction false} SpacedMore(g: string, x: Lexeme, ls: seq<Lexeme>, gaps: seq<string>)
    requires Spaced(ls, gaps) && LegalLexeme(x) && Blank(g) && (ls != [] && Apart(x, ls[0]) ==> gaps[0] != "")
    ensures Spaced([x] + ls, [g] + gaps)
    ensures Render([x] + ls, [g] + gaps) == g + (Text(x) + Render(ls, gaps))
  {
    var l1, g1 := [x] + ls, [g] + gaps;
    assert l1[1..] == ls && g1[1..] == gaps;
    forall i | 0 < i < |l1| && Apart(l1[i - 1], l1[i]) ensures g1[i] != "" {
      assert l1[i] == ls[i - 1] && g1[i] == gaps[i - 1];
      if i > 1 {
        assert l1[i - 1] == ls[i - 2];
      }
    }
  }

  lemma {:induction false} Cut(b: string, p: nat, s: nat, e: nat)
    requires p <= s <= e <= |b|
    ensures b[p..] == b[p..s] + (b[s..e] + b[e..])
  {
    assert b[s..] == b[s..e] + b[e..];
  }

  lemma {:induction false} LexRead(b: string, p: nat) returns (gaps: seq<string>)
    requires NoNul(b) && p <= |b|
    ensures Spaced(Lex(b, p), gaps) && b[p..] == Render(Lex(b, p), gaps) && gaps[0] == b[p..SkipWhite(b, p)]
    decreases |b| - p
  {
    var s := SkipWhite(b, p);
    BlankRun(b, p);
    EndOfLine(b, p);
    if s == |b| {
      gaps := [b[p..s]];
    } else {
      ReadToken(b, s);
      var t := GetToken(b, s);
      var x, ls := LexemeOf(b, t), Lex(b, t.eq);
      var more := LexRead(b, t.eq);
      if ls != [] && Apart(x, ls[0]) {
        Touching(b, s, ls);
      }
      SpacedMore(b[p..s], x, ls, more);
      SkipLex(b, t.eq);
      LexOne(b, p, s, t);
      gaps := [b[p..s]] + more;
      Cut(b, p, s, t.eq);
    }
  }

  /** The tokens of a line are those whose text, with blanks around it, is the line. */
  lemma {:induction false} LexExact(b: string, ls: seq<Lexeme>)
    requires NoNul(b)
    ensures Lex(b, 0) == ls <==> exists gaps :: Spaced(ls, gaps) && b == Render(ls, gaps)
  {
    assert b[0..] == b;
    var gaps := LexRead(b, 0);
    if gs :| Spaced(ls, gs) && b == Render(ls, gs) {
      LexRender(b, 0, ls, gs);
    }
  }

  // ---------- the parser is the grammar ----------

  /** b is sentence l written out. */
  ghost predicate Spells(b: string, l: Line) {
    LineOk(l) && exists gaps :: Spaced(LineTokens(l), gaps) && b == Render(LineTokens(l), gaps)
  }

  lemma {:induction false} SpellsExact(b: string, l: Line)
    requires NoNul(b)
    ensures Spells(b, l) <==> Sentence(b, l)
  {
    LexExact(b, LineTokens(l));
  }

  /** parsecmd accepts b, with tree t, if and only if b spells a sentence that means t. */
  lemma {:induction false} ParserExact(b: string, t: Cmd<string>)
    requires NoNul(b)
    ensures ParseCmd(b).Ok? && Words(b, ParseCmd(b).value) == t <==> exists l :: Spells(b, l) && LineMeans(l) == t
  {
    SentenceExact(b, t);
    if l :| Sentence(b, l) && LineMeans(l) == t {
      SpellsExact(b, l);
    }
    if l :| Spells(b, l) && LineMeans(l) == t {
      SpellsExact(b, l);
    }
  }

  /** However the sentences of a line are read, they mean the same. */
  lemma {:induction false} OneMeaning(b: string, l: Line, m: Line)
    requires NoNul(b) && Spells(b, l) && Spells(b, m)
    ensures LineMeans(l) == LineMeans(m)
  {
    ParserExact(b, LineMeans(l));
    ParserExact(b, LineMeans(m));
  }

  // ---------- every legal tree has a line ----------

  function Args(argv: seq<string>): seq<Item> {
    if argv == [] then [] else [Arg(argv[0])] + Args(argv[1..])
  }

  /** t in parentheses. */
  function Part(t: Cmd<string>): Command
    decreases t, 1
  {
    Block(SentenceOf(t), [])
  }

  /** A sentence that means t, every part of it in parentheses. */
  function SentenceOf(t: Cmd<string>): Line
    decreases t, 0
  {
    match t
    case Exec(argv) => Last(Single(Simple(Args(argv))), 0)
    case Redir(c, file, _, fd) =>
      Last(Single(Block(SentenceOf(c), [Redirection(if fd == 0 then '<' else '>', file)])), 0)
    case Pipe(l, r) => Last(Piped(Part(l), Single(Part(r))), 0)
    case List(l, r) => Then(Single(Part(l)), 0, Last(Single(Part(r)), 0))
    case Back(c) => Last(Single(Part(c)), 1)
  }

  predicate LegalTokens(ls: seq<Lexeme>) { forall i :: 0 <= i < |ls| ==> LegalLexeme(ls[i]) }

  lemma {:induction false} ArgsMean(argv: seq<string>)
    requires forall i :: 0 <= i < |argv| ==> LegalWord(argv[i])
    ensures ArgsOf(Args(argv)) == argv && RedirectionsOf(Args(argv)) == [] && LegalTokens(ItemTokens(Args(argv)))
    ensures forall i :: 0 <= i < |Args(argv)| ==> Args(argv)[i].Arg?
  {
    if argv != [] {
      ArgsMean(argv[1..]);
      assert Args(argv)[1..] == Args(argv[1..]);
    }
  }

  /** l is a sentence of legal tokens that means t. */
  ghost predicate Says(l: Line, t: Cmd<string>) { LineOk(l) && LegalTokens(LineTokens(l)) && LineMeans(l) == t }

  ghost predicate CommandSays(c: Command, t: Cmd<string>) {
    CommandOk(c) && LegalTokens(CommandTokens(c)) && CommandMeans(c) == t
  }

  lemma {:induction false} BlockSays(l: Line, t: Cmd<string>)
    requires Says(l, t)
    ensures CommandSays(Block(l, []), t)
  {
  }

  lemma {:induction false} LastSays(c: Command, t: Cmd<string>)
    requires CommandSays(c, t)
    ensures Says(Last(Single(c), 0), t)
  {
    assert LineTokens(Last(Single(c), 0)) == PipelineTokens(Single(c)) + Amps(0);
    assert PipelineTokens(Single(c)) == CommandTokens(c);
    assert LineMeans(Last(Single(c), 0)) == Backs(PipelineMeans(Single(c)), 0);
  }

  lemma {:induction false} BackSays(c: Command, t: Cmd<string>)
    requires CommandSays(c, t)
    ensures Says(Last(Single(c), 1), Back(t))
  {
    assert LineTokens(Last(Single(c), 1)) == PipelineTokens(Single(c)) + Amps(1);
    assert PipelineTokens(Single(c)) == CommandTokens(c) && Amps(1) == [Op('&')] + Amps(0);
    assert LineMeans(Last(Single(c), 1)) == Backs(PipelineMeans(Single(c)), 1);
    assert Backs(t, 1) == Back(Backs(t, 0));
  }

  lemma {:induction false} PipeSays(c: Command, d: Command, t: Cmd<string>, u: Cmd<string>)
    requires CommandSays(c, t) && CommandSays(d, u)
    ensures Says(Last(Piped(c, Single(d)), 0), Pipe(t, u))
  {
    var p := Piped(c, Single(d));
    assert PipelineOk(Single(d)) && PipelineTokens(Single(d)) == CommandTokens(d);
    assert PipelineTokens(p) == CommandTokens(c) + ([Op('|')] + CommandTokens(d));
    assert LineTokens(Last(p, 0)) == PipelineTokens(p) + Amps(0);
    assert LineMeans(Last(p, 0)) == Backs(PipelineMeans(p), 0);
    assert PipelineMeans(Single(d)) == u;
  }

  lemma {:induction false} ListSays(c: Command, l: Line, t: Cmd<string>, u: Cmd<string>)
    requires CommandSays(c, t) && Says(l, u)
    ensures Says(Then(Single(c), 0, l), List(t, u))
  {
    var line := Then(Single(c), 0, l);
    assert PipelineOk(Single(c)) && PipelineTokens(Single(c)) == CommandTokens(c) && PipelineMeans(Single(c)) == t;
    assert LineTokens(line) == PipelineTokens(Single(c)) + (Amps(0) + ([Op(';')] + LineTokens(l)));
    assert LineMeans(line) == List(Backs(t, 0), u);
  }

  lemma {:induction false} RedirSays(l: Line, t: Cmd<string>, file: string, mode: nat, fd: nat)
    requires Says(l, t) && LegalWord(file) && RedirOk(mode, fd)
    ensures CommandSays(Block(l, [Redirection(if fd == 0 then '<' else '>', file)]), Redir(t, file, mode, fd))
  {
    var one := Redirection(if fd == 0 then '<' else '>', file);
    assert RedirectionTokens([one]) == [Op(one.op), W(file)] + RedirectionTokens([]);
    WrapOne(t, [], one);
    assert [] + [one] == [one];
  }

  lemma {:induction false} SentenceSays(t: Cmd<string>)
    requires Legal(t)
    ensures Says(SentenceOf(t), t)
    decreases t, 0
  {
    match t
    case Exec(argv) =>
      ArgsMean(argv);
      LastSays(Simple(Args(argv)), t);
    case Redir(c, file, mode, fd) =>
      SentenceSays(c);
      RedirSays(SentenceOf(c), c, file, mode, fd);
      LastSays(Block(SentenceOf(c), [Redirection(if fd == 0 then '<' else '>', file)]), t);
    case Pipe(l, r) =>
      PartSays(l);
      PartSays(r);
      PipeSays(Part(l), Part(r), l, r);
    case List(l, r) =>
      PartSays(l);
      PartSays(r);
      LastSays(Part(r), r);
      ListSays(Part(l), Last(Single(Part(r)), 0), l, r);
    case Back(c) =>
      PartSays(c);
      BackSays(Part(c), c);
  }

  lemma {:induction false} PartSays(t: Cmd<string>)
    requires Legal(t)
    ensures CommandSays(Part(t), t)
    decreases t, 1
  {
    SentenceSays(t);
    BlockSays(SentenceOf(t), t);
  }

  function Spaces(n: nat): (g: seq<string>)
    ensures |g| == n && forall i :: 0 <= i < n ==> g[i] == " "
  {
    seq(n, _ => " ")
  }

  /** The tree as a line. */
  function Print(t: Cmd<string>): string {
    var ls := LineTokens(SentenceOf(t));
    Render(ls, Spaces(|ls| + 1))
  }

  lemma {:induction false} RenderNoNul(ls: seq<Lexeme>, gaps: seq<string>)
    requires Spaced(ls, gaps)
    ensures NoNul(Render(ls, gaps))
    decreases |ls|
  {
    assert Blank(gaps[0]);
    if ls != [] {
      SpacedTail(ls, gaps);
      RenderNoNul(ls[1..], gaps[1..]);
    }
  }

  /** Parsing the printing of a legal tree gives the tree back. */
  lemma {:induction false} ParsePrint(t: Cmd<string>)
    requires Legal(t)
    ensures NoNul(Print(t)) && var r := ParseCmd(Print(t)); r.Ok? && Words(Print(t), r.value) == t
  {
    SentenceSays(t);
    PrintSpells(SentenceOf(t), Print(t));
    ParserExact(Print(t), t);
  }

  lemma {:induction false} PrintSpells(l: Line, b: string)
    requires LineOk(l) && LegalTokens(LineTokens(l)) && b == Render(LineTokens(l), Spaces(|LineTokens(l)| + 1))
    ensures NoNul(b) && Spells(b, l)
  {
    RenderNoNul(LineTokens(l), Spaces(|LineTokens(l)| + 1));
  }

  /** The trees the parser can produce are exactly the legal ones. */
  lemma {:induction false} LegalExact(t: Cmd<string>)
    ensures Legal(t) <==> exists b: string :: NoNul(b) && ParseCmd(b).Ok? && Words(b, ParseCmd(b).value) == t
  {
    if Legal(t) {
      ParsePrint(t);
    }
    forall b: string | NoNul(b) && ParseCmd(b).Ok? ensures Legal(Words(b, ParseCmd(b).value)) {
      LineGood(b, 0);
      GoodLegal(b, ParseCmd(b).value);
    }
  }
}
