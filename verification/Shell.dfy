/** The shell's command parser (sh.c): gettoken, peek, the recursive-descent parser and nulterminate. */
module Shell {
  const NUL: char := '\0'
  const MAXARGS := 10
  const O_RDONLY := 0
  const O_WRONLY := 1
  const O_CREATE := 0x200

  /** struct cmd. The parser points into the line, so its words are Spans; what it means has strings. */
  datatype Cmd<W> =
    | Exec(argv: seq<W>)
    | Redir(cmd: Cmd<W>, file: W, mode: nat, fd: nat)
    | Pipe(left: Cmd<W>, right: Cmd<W>)
    | List(left: Cmd<W>, right: Cmd<W>)
    | Back(cmd: Cmd<W>)

  /** A word of the line: from q up to eq. */
  datatype Span = Span(q: nat, eq: nat)

  datatype Error = MissingFile | MissingParen | Syntax | TooManyArgs | Leftovers
  datatype Parsed = Ok(value: Cmd<Span>, next: nat) | Err(error: Error)
  datatype Token = Token(kind: char, q: nat, eq: nat, next: nat)

  predicate White(c: char) { c == ' ' || c == '\t' || c == '\r' || c == '\n' || c == '\U{0B}' }
  predicate Symbol(c: char) { c == '<' || c == '|' || c == '>' || c == '&' || c == ';' || c == '(' || c == ')' }
  predicate Angle(c: char) { c == '<' || c == '>' }
  predicate EndsExec(c: char) { c == '|' || c == ')' || c == '&' || c == ';' }
  predicate WordChar(c: char) { !White(c) && !Symbol(c) }

  // ---------- specification ----------

  /** *s, which is NUL at the end of the line. */
  function At(b: string, p: nat): char { if p < |b| then b[p] else NUL }

  function SkipWhite(b: string, p: nat): (r: nat)
    requires p <= |b|
    ensures p <= r <= |b| && !White(At(b, r))
    decreases |b| - p
  {
    if p < |b| && White(b[p]) then SkipWhite(b, p + 1) else p
  }

  function WordEnd(b: string, p: nat): (r: nat)
    requires p <= |b|
    ensures p <= r <= |b| && (p < |b| && WordChar(b[p]) ==> p < r)
    decreases |b| - p
  {
    if p < |b| && WordChar(b[p]) then WordEnd(b, p + 1) else p
  }

  function GetToken(b: string, p: nat): (t: Token)
    requires p <= |b|
    ensures p <= t.q <= t.eq <= t.next <= |b| && t.q == SkipWhite(b, p)
    ensures At(b, t.q) != NUL ==> t.q < t.next
  {
    var s := SkipWhite(b, p);
    var c := At(b, s);
    if c == NUL then Token(NUL, s, s, SkipWhite(b, s))
    else if c == '>' && At(b, s + 1) == '>' then Token('+', s, s + 2, SkipWhite(b, s + 2))
    else if Symbol(c) then Token(c, s, s + 1, SkipWhite(b, s + 1))
    else
      var e := WordEnd(b, s);
      Token('a', s, e, SkipWhite(b, e))
  }

  function ParseLine(b: string, p: nat): (r: Parsed)
    requires p <= |b|
    ensures r.Ok? ==> p <= r.next <= |b|
    decreases |b| - p, 4
  {
    var first := ParsePipe(b, p);
    if first.Err? then first
    else
      var line := ParseBacks(b, first.next, first.value);
      if At(b, line.next) != ';' then line
      else
        var rest := ParseLine(b, GetToken(b, line.next).next);
        if rest.Err? then rest else Ok(List(line.value, rest.value), rest.next)
  }

  function ParseBacks(b: string, p: nat, c: Cmd<Span>): (r: Parsed)
    requires p <= |b|
    ensures r.Ok? && p <= r.next <= |b| && !White(At(b, r.next))
    decreases |b| - p
  {
    var s := SkipWhite(b, p);
    if At(b, s) != '&' then Ok(c, s) else ParseBacks(b, GetToken(b, s).next, Back(c))
  }

  function ParsePipe(b: string, p: nat): (r: Parsed)
    requires p <= |b|
    ensures r.Ok? ==> p <= r.next <= |b|
    decreases |b| - p, 3
  {
    var left := ParseExec(b, p);
    if left.Err? then left
    else
      var s := SkipWhite(b, left.next);
      if At(b, s) != '|' then Ok(left.value, s)
      else
        var right := ParsePipe(b, GetToken(b, s).next);
        if right.Err? then right else Ok(Pipe(left.value, right.value), right.next)
  }

  function ParseRedirs(b: string, p: nat, c: Cmd<Span>): (r: Parsed)
    requires p <= |b|
    ensures r.Ok? ==> p <= r.next <= |b|
    decreases |b| - p
  {
    var s := SkipWhite(b, p);
    if !Angle(At(b, s)) then Ok(c, s)
    else
      var tok := GetToken(b, s);
      var file := GetToken(b, tok.next);
      if file.kind != 'a' then Err(MissingFile)
      else ParseRedirs(b, file.next, Redirected(c, tok.kind, Span(file.q, file.eq)))
  }

  function Redirected<W>(c: Cmd<W>, kind: char, file: W): Cmd<W> {
    if kind == '<' then Redir(c, file, O_RDONLY, 0) else Redir(c, file, O_WRONLY + O_CREATE, 1)
  }

  function ParseBlock(b: string, p: nat): (r: Parsed)
    requires p <= |b| && At(b, p) == '('
    ensures r.Ok? ==> p <= r.next <= |b|
    decreases |b| - p, 1
  {
    var inner := ParseLine(b, GetToken(b, p).next);
    if inner.Err? then inner
    else
      var s := SkipWhite(b, inner.next);
      if At(b, s) != ')' then Err(MissingParen)
      else ParseRedirs(b, GetToken(b, s).next, inner.value)
  }

  function ParseExec(b: string, p: nat): (r: Parsed)
    requires p <= |b|
    ensures r.Ok? ==> p <= r.next <= |b|
    decreases |b| - p, 2
  {
    var s := SkipWhite(b, p);
    if At(b, s) == '(' then ParseBlock(b, s)
    else
      var ret := ParseRedirs(b, s, Exec([]));
      if ret.Err? then ret else ParseArgs(b, ret.next, ret.value)
  }

  function ParseArgs(b: string, p: nat, ret: Cmd<Span>): (r: Parsed)
    requires p <= |b|
    ensures r.Ok? ==> p <= r.next <= |b|
    decreases |b| - p
  {
    var s := SkipWhite(b, p);
    if EndsExec(At(b, s)) then Ok(ret, s)
    else
      var tok := GetToken(b, s);
      if tok.kind == NUL then Ok(ret, tok.next)
      else if tok.kind != 'a' then Err(Syntax)
      else if Argc(ret) + 1 >= MAXARGS then Err(TooManyArgs)
      else
        var more := ParseRedirs(b, tok.next, AddArg(ret, Span(tok.q, tok.eq)));
        if more.Err? then more else ParseArgs(b, more.next, more.value)
  }

  function ParseCmd(b: string): (r: Parsed)
    ensures r.Ok? ==> r.next == |b|
  {
    var line := ParseLine(b, 0);
    if line.Err? then line
    else if SkipWhite(b, line.next) != |b| then Err(Leftovers) else Ok(line.value, |b|)
  }

  // ---------- the exec node inside its redirections ----------

  predicate IsExec<W>(c: Cmd<W>) { c.Exec? || (c.Redir? && IsExec(c.cmd)) }

  function Argc<W>(c: Cmd<W>): nat {
    if c.Exec? then |c.argv| else if c.Redir? then Argc(c.cmd) else 0
  }

  /** cmd->argv[argc] = q, in the exec node that ret wraps. */
  function AddArg<W>(c: Cmd<W>, w: W): Cmd<W> {
    match c
    case Exec(argv) => Exec(argv + [w])
    case Redir(c1, file, mode, fd) => Redir(AddArg(c1, w), file, mode, fd)
    case _ => c
  }

  // ---------- well-formed trees ----------

  /** A maximal run of word characters. */
  predicate GoodSpan(b: string, w: Span) {
    && w.q < w.eq <= |b| && b[w.q] != NUL
    && (forall i :: w.q <= i < w.eq ==> WordChar(b[i]))
    && (w.eq < |b| ==> !WordChar(b[w.eq]))
  }

  predicate RedirOk(mode: nat, fd: nat) {
    (mode == O_RDONLY && fd == 0) || (mode == O_WRONLY + O_CREATE && fd == 1)
  }

  /** What the parser's trees satisfy: at most MAXARGS - 1 arguments, words that are whole words of b. */
  predicate Good(b: string, c: Cmd<Span>) {
    match c
    case Exec(argv) => |argv| < MAXARGS && forall i :: 0 <= i < |argv| ==> GoodSpan(b, argv[i])
    case Redir(c1, file, mode, fd) => Good(b, c1) && GoodSpan(b, file) && RedirOk(mode, fd)
    case Pipe(l, r) => Good(b, l) && Good(b, r)
    case List(l, r) => Good(b, l) && Good(b, r)
    case Back(c1) => Good(b, c1)
  }

  predicate LegalWord(w: string) {
    w != "" && forall i :: 0 <= i < |w| ==> WordChar(w[i]) && w[i] != NUL
  }

  predicate Legal(t: Cmd<string>) {
    match t
    case Exec(argv) => |argv| < MAXARGS && forall i :: 0 <= i < |argv| ==> LegalWord(argv[i])
    case Redir(c1, file, mode, fd) => Legal(c1) && LegalWord(file) && RedirOk(mode, fd)
    case Pipe(l, r) => Legal(l) && Legal(r)
    case List(l, r) => Legal(l) && Legal(r)
    case Back(c1) => Legal(c1)
  }

  function Word(b: string, w: Span): string { if w.q <= w.eq <= |b| then b[w.q..w.eq] else "" }

  function Strings(b: string, argv: seq<Span>): (r: seq<string>)
    ensures |r| == |argv| && forall i :: 0 <= i < |argv| ==> r[i] == Word(b, argv[i])
  {
    seq(|argv|, i requires 0 <= i < |argv| => Word(b, argv[i]))
  }

  /** The tree with its words spelled out. */
  function Words(b: string, c: Cmd<Span>): Cmd<string> {
    match c
    case Exec(argv) => Exec(Strings(b, argv))
    case Redir(c1, file, mode, fd) => Redir(Words(b, c1), Word(b, file), mode, fd)
    case Pipe(l, r) => Pipe(Words(b, l), Words(b, r))
    case List(l, r) => List(Words(b, l), Words(b, r))
    case Back(c1) => Back(Words(b, c1))
  }

  ghost predicate NoNul(b: string) { forall i :: 0 <= i < |b| ==> b[i] != NUL }

  lemma {:induction false} GoodLegal(b: string, c: Cmd<Span>)
    requires NoNul(b) && Good(b, c)
    ensures Legal(Words(b, c))
    decreases c
  {
    match c
    case Exec(argv) =>
      forall i | 0 <= i < |argv| ensures LegalWord(Word(b, argv[i])) { assert GoodSpan(b, argv[i]); }
    case Redir(c1, _, _, _) => GoodLegal(b, c1);
    case Pipe(l, r) => GoodLegal(b, l); GoodLegal(b, r);
    case List(l, r) => GoodLegal(b, l); GoodLegal(b, r);
    case Back(c1) => GoodLegal(b, c1);
  }

  // ---------- every parse gives a good tree ----------

  lemma {:induction false} TokenGood(b: string, p: nat)
    requires p <= |b|
    ensures GetToken(b, p).kind == 'a' ==> GoodSpan(b, Span(GetToken(b, p).q, GetToken(b, p).eq))
  {
    WordEndExact(b, SkipWhite(b, p));
  }

  lemma {:induction false} WordEndExact(b: string, p: nat)
    requires p <= |b|
    ensures (forall i :: p <= i < WordEnd(b, p) ==> WordChar(b[i]))
            && (WordEnd(b, p) < |b| ==> !WordChar(b[WordEnd(b, p)]))
    decreases |b| - p
  {
    if p < |b| && WordChar(b[p]) {
      WordEndExact(b, p + 1);
    }
  }

  ghost predicate GoodParse(b: string, r: Parsed) { r.Ok? ==> Good(b, r.value) }

  lemma {:induction false} LineGood(b: string, p: nat)
    requires p <= |b|
    ensures GoodParse(b, ParseLine(b, p))
    decreases |b| - p, 4
  {
    PipeGood(b, p);
    var first := ParsePipe(b, p);
    if first.Ok? {
      BacksGood(b, first.next, first.value);
      var line := ParseBacks(b, first.next, first.value);
      if At(b, line.next) == ';' {
        LineGood(b, GetToken(b, line.next).next);
      }
    }
  }

  lemma {:induction false} BacksGood(b: string, p: nat, c: Cmd<Span>)
    requires p <= |b| && Good(b, c)
    ensures GoodParse(b, ParseBacks(b, p, c))
    decreases |b| - p
  {
    var s := SkipWhite(b, p);
    if At(b, s) == '&' {
      BacksGood(b, GetToken(b, s).next, Back(c));
    }
  }

  lemma {:induction false} PipeGood(b: string, p: nat)
    requires p <= |b|
    ensures GoodParse(b, ParsePipe(b, p))
    decreases |b| - p, 3
  {
    ExecGood(b, p);
    var left := ParseExec(b, p);
    if left.Ok? {
      var s := SkipWhite(b, left.next);
      if At(b, s) == '|' {
        PipeGood(b, GetToken(b, s).next);
      }
    }
  }

  lemma {:induction false} RedirsGood(b: string, p: nat, c: Cmd<Span>)
    requires p <= |b| && Good(b, c)
    ensures var r := ParseRedirs(b, p, c); GoodParse(b, r) && (IsExec(c) && r.Ok? ==> IsExec(r.value))
    decreases |b| - p
  {
    var s := SkipWhite(b, p);
    if Angle(At(b, s)) {
      var tok := GetToken(b, s);
      var file := GetToken(b, tok.next);
      TokenGood(b, tok.next);
      if file.kind == 'a' {
        RedirsGood(b, file.next, Redirected(c, tok.kind, Span(file.q, file.eq)));
      }
    }
  }

  lemma {:induction false} BlockGood(b: string, p: nat)
    requires p <= |b| && At(b, p) == '('
    ensures GoodParse(b, ParseBlock(b, p))
    decreases |b| - p, 1
  {
    var inner := ParseLine(b, GetToken(b, p).next);
    LineGood(b, GetToken(b, p).next);
    if inner.Ok? {
      var s := SkipWhite(b, inner.next);
      if At(b, s) == ')' {
        RedirsGood(b, GetToken(b, s).next, inner.value);
      }
    }
  }

  lemma {:induction false} ExecGood(b: string, p: nat)
    requires p <= |b|
    ensures GoodParse(b, ParseExec(b, p))
    decreases |b| - p, 2
  {
    var s := SkipWhite(b, p);
    if At(b, s) == '(' {
      BlockGood(b, s);
    } else {
      RedirsGood(b, s, Exec([]));
      var ret := ParseRedirs(b, s, Exec([]));
      if ret.Ok? {
        ArgsGood(b, ret.next, ret.value);
      }
    }
  }

  lemma {:induction false} AddArgGood(b: string, c: Cmd<Span>, w: Span)
    requires IsExec(c) && Good(b, c) && GoodSpan(b, w) && Argc(c) + 1 < MAXARGS
    ensures Good(b, AddArg(c, w)) && IsExec(AddArg(c, w))
  {
    if c.Redir? {
      AddArgGood(b, c.cmd, w);
    }
  }

  lemma {:induction false} ArgsGood(b: string, p: nat, ret: Cmd<Span>)
    requires p <= |b| && Good(b, ret) && IsExec(ret)
    ensures GoodParse(b, ParseArgs(b, p, ret))
    decreases |b| - p
  {
    var s := SkipWhite(b, p);
    var tok := GetToken(b, s);
    if !EndsExec(At(b, s)) && tok.kind == 'a' && Argc(ret) + 1 < MAXARGS {
      TokenGood(b, s);
      AddArgGood(b, ret, Span(tok.q, tok.eq));
      var ret1 := AddArg(ret, Span(tok.q, tok.eq));
      RedirsGood(b, tok.next, ret1);
      var more := ParseRedirs(b, tok.next, ret1);
      if more.Ok? {
        ArgsGood(b, more.next, more.value);
      }
    }
  }

  // ---------- nulterminate ----------

  /** Some word of the tree ends at i. */
  predicate EndsAt(c: Cmd<Span>, i: nat) {
    match c
    case Exec(argv) => exists k :: 0 <= k < |argv| && argv[k].eq == i
    case Redir(c1, file, _, _) => EndsAt(c1, i) || file.eq == i
    case Pipe(l, r) => EndsAt(l, i) || EndsAt(r, i)
    case List(l, r) => EndsAt(l, i) || EndsAt(r, i)
    case Back(c1) => EndsAt(c1, i)
  }

  /** The C string at q. */
  function CString(s: string, q: nat): string
    decreases |s| - q
  {
    if q < |s| && s[q] != NUL then [s[q]] + CString(s, q + 1) else []
  }

  function CStrings(s: string, argv: seq<Span>): (r: seq<string>)
    ensures |r| == |argv| && forall i :: 0 <= i < |argv| ==> r[i] == CString(s, argv[i].q)
  {
    seq(|argv|, i requires 0 <= i < |argv| => CString(s, argv[i].q))
  }

  /** The tree as runcmd sees it: a word is the C string that starts at its address in the buffer. */
  function Reads(s: string, c: Cmd<Span>): Cmd<string> {
    match c
    case Exec(argv) => Exec(CStrings(s, argv))
    case Redir(c1, file, mode, fd) => Redir(Reads(s, c1), CString(s, file.q), mode, fd)
    case Pipe(l, r) => Pipe(Reads(s, l), Reads(s, r))
    case List(l, r) => List(Reads(s, l), Reads(s, r))
    case Back(c1) => Back(Reads(s, c1))
  }

  /** The buffer s holds the line b, up to NULs written outside its words. */
  ghost predicate Nulled(b: string, s: string) {
    |b| < |s| && s[|b|] == NUL && forall i :: 0 <= i < |b| && WordChar(b[i]) ==> s[i] == b[i]
  }

  lemma {:induction false} SpanReads(b: string, s: string, w: Span)
    requires NoNul(b) && Nulled(b, s) && w.q <= w.eq <= |b| && s[w.eq] == NUL
    requires forall i :: w.q <= i < w.eq ==> WordChar(b[i])
    ensures CString(s, w.q) == b[w.q..w.eq]
    decreases w.eq - w.q
  {
    if w.q < w.eq {
      SpanReads(b, s, Span(w.q + 1, w.eq));
      assert b[w.q..w.eq] == [b[w.q]] + b[w.q + 1..w.eq];
    }
  }

  lemma {:induction false} TreeReads(b: string, s: string, c: Cmd<Span>)
    requires NoNul(b) && Nulled(b, s) && Good(b, c) && forall i :: 0 <= i < |s| && EndsAt(c, i) ==> s[i] == NUL
    ensures Reads(s, c) == Words(b, c)
    decreases c
  {
    match c
    case Exec(argv) =>
      forall k | 0 <= k < |argv| ensures CString(s, argv[k].q) == Word(b, argv[k]) {
        assert GoodSpan(b, argv[k]) && EndsAt(c, argv[k].eq);
        SpanReads(b, s, argv[k]);
      }
    case Redir(c1, file, _, _) =>
      TreeReads(b, s, c1);
      assert EndsAt(c, file.eq);
      SpanReads(b, s, file);
    case Pipe(l, r) => TreeReads(b, s, l); TreeReads(b, s, r);
    case List(l, r) => TreeReads(b, s, l); TreeReads(b, s, r);
    case Back(c1) => TreeReads(b, s, c1);
  }

  /** Words of a good tree end at the end of the line or at a character that is in no word. */
  lemma {:induction false} EndOutside(b: string, c: Cmd<Span>, i: nat)
    requires Good(b, c) && EndsAt(c, i)
    ensures i <= |b| && (i < |b| ==> !WordChar(b[i]))
    decreases c
  {
    match c
    case Exec(argv) =>
      var k :| 0 <= k < |argv| && argv[k].eq == i;
      assert GoodSpan(b, argv[k]);
    case Redir(c1, file, _, _) => if EndsAt(c1, i) { EndOutside(b, c1, i); }
    case Pipe(l, r) => if EndsAt(l, i) { EndOutside(b, l, i); } else { EndOutside(b, r, i); }
    case List(l, r) => if EndsAt(l, i) { EndOutside(b, l, i); } else { EndOutside(b, r, i); }
    case Back(c1) => EndOutside(b, c1, i);
  }

  /** Every word of the tree ends in the first n characters. */
  predicate Within(c: Cmd<Span>, n: nat) {
    match c
    case Exec(argv) => forall k :: 0 <= k < |argv| ==> argv[k].eq < n
    case Redir(c1, file, _, _) => Within(c1, n) && file.eq < n
    case Pipe(l, r) => Within(l, n) && Within(r, n)
    case List(l, r) => Within(l, n) && Within(r, n)
    case Back(c1) => Within(c1, n)
  }

  /** Writes a NUL at the end of every word of the tree, and nowhere else. */
  method Nulterminate(a: array<char>, c: Cmd<Span>)
    requires Within(c, a.Length)
    modifies a
    ensures forall i: nat :: i < a.Length ==> a[i] == if EndsAt(c, i) then NUL else old(a[i])
    decreases c
  {
    match c {
      case Exec(argv) =>
        for k := 0 to |argv|
          invariant forall i: nat :: i < a.Length ==>
                      a[i] == if exists j :: 0 <= j < k && argv[j].eq == i then NUL else old(a[i])
        {
          a[argv[k].eq] := NUL;
        }
      case Redir(c1, file, _, _) =>
        Nulterminate(a, c1);
        a[file.eq] := NUL;
      case Pipe(l, r) =>
        Nulterminate(a, l);
        Nulterminate(a, r);
      case List(l, r) =>
        Nulterminate(a, l);
        Nulterminate(a, r);
      case Back(c1) =>
        Nulterminate(a, c1);
    }
  }

  // ---------- the parser as written ----------

  method SkipBlanks(b: string, p: nat) returns (s: nat)
    requires p <= |b|
    ensures s == SkipWhite(b, p)
  {
    s := p;
    while s < |b| && White(b[s])
      invariant p <= s <= |b| && SkipWhite(b, s) == SkipWhite(b, p)
    {
      s := s + 1;
    }
  }

  method Gettoken(b: string, p: nat) returns (t: Token)
    requires p <= |b|
    ensures t == GetToken(b, p)
  {
    var s := SkipBlanks(b, p);
    var q, kind := s, At(b, s);
    if kind == NUL {
    } else if kind == '>' {
      s := s + 1;
      if At(b, s) == '>' {
        kind := '+';
        s := s + 1;
      }
    } else if Symbol(kind) {
      s := s + 1;
    } else {
      kind := 'a';
      while s < |b| && !White(b[s]) && !Symbol(b[s])
        invariant q <= s <= |b| && WordEnd(b, s) == WordEnd(b, q)
      {
        s := s + 1;
      }
    }
    var next := SkipBlanks(b, s);
    return Token(kind, q, s, next);
  }

  /** peek: the cursor past blanks, and whether a character of toks is there. */
  method Peek(b: string, p: nat, toks: string) returns (hit: bool, s: nat)
    requires p <= |b|
    ensures s == SkipWhite(b, p) && hit == (At(b, s) != NUL && At(b, s) in toks)
  {
    s := SkipBlanks(b, p);
    hit := At(b, s) != NUL && At(b, s) in toks;
  }

  method Parseline(b: string, p: nat) returns (r: Parsed)
    requires p <= |b|
    ensures r == ParseLine(b, p)
    decreases |b| - p, 4
  {
    r := Parsepipe(b, p);
    if r.Err? {
      return;
    }
    var cmd := r.value;
    var amp, s := Peek(b, r.next, "&");
    while amp
      invariant s <= |b| && p <= s && s == SkipWhite(b, s) && amp == (At(b, s) == '&')
      invariant ParseBacks(b, s, cmd) == ParseBacks(b, r.next, r.value)
      decreases |b| - s
    {
      var t := Gettoken(b, s);
      cmd := Back(cmd);
      amp, s := Peek(b, t.next, "&");
    }
    var semi, s1 := Peek(b, s, ";");
    if semi {
      var t := Gettoken(b, s1);
      var rest := Parseline(b, t.next);
      if rest.Err? {
        return rest;
      }
      return Ok(List(cmd, rest.value), rest.next);
    }
    return Ok(cmd, s1);
  }

  method Parsepipe(b: string, p: nat) returns (r: Parsed)
    requires p <= |b|
    ensures r == ParsePipe(b, p)
    decreases |b| - p, 3
  {
    r := Parseexec(b, p);
    if r.Err? {
      return;
    }
    var bar, s := Peek(b, r.next, "|");
    if bar {
      var t := Gettoken(b, s);
      var right := Parsepipe(b, t.next);
      if right.Err? {
        return right;
      }
      return Ok(Pipe(r.value, right.value), right.next);
    }
    return Ok(r.value, s);
  }

  /** One redirection. */
  lemma {:induction false} RedirsStep(b: string, p: nat, c: Cmd<Span>, tok: Token, file: Token)
    requires p <= |b| && Angle(At(b, SkipWhite(b, p))) && tok == GetToken(b, SkipWhite(b, p))
    requires file == GetToken(b, tok.next) && file.kind == 'a'
    ensures ParseRedirs(b, p, c) == ParseRedirs(b, file.next, Redirected(c, tok.kind, Span(file.q, file.eq)))
  {
  }

  method Parseredirs(b: string, p: nat, c: Cmd<Span>) returns (r: Parsed)
    requires p <= |b|
    ensures r == ParseRedirs(b, p, c)
  {
    var cmd := c;
    var more, s := Peek(b, p, "<>");
    while more
      invariant s <= |b| && s == SkipWhite(b, s) && more == Angle(At(b, s))
      invariant ParseRedirs(b, s, cmd) == ParseRedirs(b, p, c)
      decreases |b| - s
    {
      var tok := Gettoken(b, s);
      var file := Gettoken(b, tok.next);
      if file.kind != 'a' {
        return Err(MissingFile);
      }
      RedirsStep(b, s, cmd, tok, file);
      var w := Span(file.q, file.eq);
      if tok.kind == '<' {
        cmd := Redir(cmd, w, O_RDONLY, 0);
      } else {
        cmd := Redir(cmd, w, O_WRONLY + O_CREATE, 1);
      }
      more, s := Peek(b, file.next, "<>");
    }
    return Ok(cmd, s);
  }

  method Parseblock(b: string, p: nat) returns (r: Parsed)
    requires p <= |b| && At(b, p) == '('
    ensures r == ParseBlock(b, p)
    decreases |b| - p, 1
  {
    var open := Gettoken(b, p);
    r := Parseline(b, open.next);
    if r.Err? {
      return;
    }
    var close, s := Peek(b, r.next, ")");
    if !close {
      return Err(MissingParen);
    }
    var t := Gettoken(b, s);
    r := Parseredirs(b, t.next, r.value);
  }

  method Parseexec(b: string, p: nat) returns (r: Parsed)
    requires p <= |b|
    ensures r == ParseExec(b, p)
    decreases |b| - p, 2
  {
    var open, s := Peek(b, p, "(");
    if open {
      r := Parseblock(b, s);
      return;
    }
    r := Parseredirs(b, s, Exec([]));
    RedirsArgc(b, s, Exec([]));
    if r.Err? {
      return;
    }
    r := Parseargs(b, r.next, r.value);
  }

  /** The argument loop of parseexec; ret is the exec node with the redirections seen so far around it. */
  method Parseargs(b: string, p: nat, ret: Cmd<Span>) returns (r: Parsed)
    requires p <= |b| && IsExec(ret) && Argc(ret) == 0
    ensures r == ParseArgs(b, p, ret)
  {
    var argc := 0;
    r := Ok(ret, p);
    while true
      invariant r.Ok? && r.next <= |b| && IsExec(r.value) && argc == Argc(r.value)
      invariant ParseArgs(b, r.next, r.value) == ParseArgs(b, p, ret)
      decreases |b| - r.next
    {
      var stop, s := Peek(b, r.next, "|)&;");
      if stop {
        return Ok(r.value, s);
      }
      var tok := Gettoken(b, s);
      if tok.kind == NUL {
        return Ok(r.value, tok.next);
      }
      if tok.kind != 'a' {
        return Err(Syntax);
      }
      argc := argc + 1;
      if argc >= MAXARGS {
        return Err(TooManyArgs);
      }
      var longer := AddArg(r.value, Span(tok.q, tok.eq));
      AddArgArgc(r.value, Span(tok.q, tok.eq));
      RedirsArgc(b, tok.next, longer);
      r := Parseredirs(b, tok.next, longer);
      if r.Err? {
        return;
      }
    }
  }

  lemma {:induction false} AddArgArgc<W>(c: Cmd<W>, w: W)
    requires IsExec(c)
    ensures IsExec(AddArg(c, w)) && Argc(AddArg(c, w)) == Argc(c) + 1
  {
    if c.Redir? {
      AddArgArgc(c.cmd, w);
    }
  }

  lemma {:induction false} RedirsArgc(b: string, p: nat, c: Cmd<Span>)
    requires p <= |b| && IsExec(c)
    ensures var r := ParseRedirs(b, p, c); r.Ok? ==> IsExec(r.value) && Argc(r.value) == Argc(c)
    decreases |b| - p
  {
    var s := SkipWhite(b, p);
    if Angle(At(b, s)) {
      var tok := GetToken(b, s);
      var file := GetToken(b, tok.next);
      if file.kind == 'a' {
        RedirsArgc(b, file.next, Redirected(c, tok.kind, Span(file.q, file.eq)));
      }
    }
  }

  /** parsecmd on a NUL-terminated buffer: the tree the line means, whose words then read back as C strings
      to exactly what was typed; or an error, and the buffer as it was. */
  method Parsecmd(a: array<char>) returns (r: Parsed)
    requires exists i :: 0 <= i < a.Length && a[i] == NUL
    modifies a
    ensures r == ParseCmd(CString(old(a[..]), 0))
    ensures r.Err? ==> a[..] == old(a[..])
    ensures r.Ok? ==> Reads(a[..], r.value) == Words(CString(old(a[..]), 0), r.value)
  {
    var n := 0;
    while a[n] != NUL
      invariant 0 <= n < a.Length && NoNul(a[..n])
      decreases a.Length - n
    {
      n := n + 1;
    }
    var b := a[..n];
    CStringPrefix(a[..], 0, n);
    r := Parseline(b, 0);
    if r.Err? {
      return;
    }
    var _, s := Peek(b, r.next, "");
    if s != n {
      return Err(Leftovers);
    }
    r := Ok(r.value, n);
    LineGood(b, 0);
    GoodWithin(b, r.value, a.Length);
    Nulterminate(a, r.value);
    forall i: nat | i < a.Length && EndsAt(r.value, i) ensures i <= n && (i < n ==> !WordChar(b[i])) {
      EndOutside(b, r.value, i);
    }
    TreeReads(b, a[..], r.value);
  }

  lemma {:induction false} CStringPrefix(s: string, q: nat, n: nat)
    requires q <= n < |s| && s[n] == NUL && forall i :: q <= i < n ==> s[i] != NUL
    ensures CString(s, q) == s[q..n]
    decreases n - q
  {
    if q < n {
      CStringPrefix(s, q + 1, n);
    }
  }

  lemma {:induction false} GoodWithin(b: string, c: Cmd<Span>, n: nat)
    requires Good(b, c) && |b| < n
    ensures Within(c, n)
    decreases c
  {
    match c
    case Exec(argv) => forall k | 0 <= k < |argv| ensures argv[k].eq < n { assert GoodSpan(b, argv[k]); }
    case Redir(c1, _, _, _) => GoodWithin(b, c1, n);
    case Pipe(l, r) => GoodWithin(b, l, n); GoodWithin(b, r, n);
    case List(l, r) => GoodWithin(b, l, n); GoodWithin(b, r, n);
    case Back(c1) => GoodWithin(b, c1, n);
  }
}
