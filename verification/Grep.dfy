/** The regular expression matcher of grep.c against the meaning of its patterns: literals, '.', 'x*',
    a leading '^' and a final '$'. */
module Grep {

  /** A C string, without its terminating NUL. */
  type CString = s: string | '\0' !in s

  // ---------- the matcher as recursive functions ----------

  function MatchHere(re: string, text: string): bool
    decreases |re|, |text|, 0
  {
    if re == "" then true
    else if |re| > 1 && re[1] == '*' then MatchStar(re[0], re[2..], text)
    else if re == "$" then text == ""
    else text != "" && (re[0] == '.' || re[0] == text[0]) && MatchHere(re[1..], text[1..])
  }

  function MatchStar(c: char, re: string, text: string): bool
    decreases |re| + 1, |text|, 1
  {
    MatchHere(re, text) || (text != "" && (text[0] == c || c == '.') && MatchStar(c, re, text[1..]))
  }

  function MatchAnywhere(re: string, text: string): bool
    decreases |text|
  {
    MatchHere(re, text) || (text != "" && MatchAnywhere(re, text[1..]))
  }

  function Match(re: string, text: string): bool {
    if re != "" && re[0] == '^' then MatchHere(re[1..], text) else MatchAnywhere(re, text)
  }

  // ---------- the code ----------

  method Matchhere(re: CString, text: CString) returns (r: bool)
    ensures r == MatchHere(re, text)
    decreases |re|, 0
  {
    if re == "" {
      return true;
    }
    if |re| > 1 && re[1] == '*' {
      r := Matchstar(re[0], re[2..], text);
      return;
    }
    if re[0] == '$' && |re| == 1 {
      return text == "";
    }
    if text != "" && (re[0] == '.' || re[0] == text[0]) {
      r := Matchhere(re[1..], text[1..]);
      return;
    }
    return false;
  }

  /** The do-while loop over the text; `t` is the place in the text. */
  method Matchstar(c: char, re: CString, text: CString) returns (r: bool)
    ensures r == MatchStar(c, re, text)
    decreases |re|, 1
  {
    var t := 0;
    while true
      invariant 0 <= t <= |text| && MatchStar(c, re, text) == MatchStar(c, re, text[t..])
      decreases |text| - t
    {
      var here := Matchhere(re, text[t..]);
      if here {
        return true;
      }
      if !(t < |text| && (text[t] == c || c == '.')) {
        return false;
      }
      assert text[t..][1..] == text[t + 1..];
      t := t + 1;
    }
  }

  method MatchText(re: CString, text: CString) returns (r: bool)
    ensures r == Match(re, text)
    ensures r <==> Means(re, text)
  {
    MatchExact(re, text);
    if re != "" && re[0] == '^' {
      r := Matchhere(re[1..], text);
      return;
    }
    var t := 0;
    while true
      invariant 0 <= t <= |text| && MatchAnywhere(re, text) == MatchAnywhere(re, text[t..])
      decreases |text| - t
    {
      var here := Matchhere(re, text[t..]);
      if here {
        return true;
      }
      if t == |text| {
        return false;
      }
      assert text[t..][1..] == text[t + 1..];
      t := t + 1;
    }
  }

  // ---------- the meaning of a pattern ----------

  /** One character, or any number of repetitions of it; '.' stands for any character. */
  datatype Atom = One(c: char) | Many(c: char)

  /** The atoms of a pattern without its leading '^' and its final '$'. */
  function Atoms(re: string): seq<Atom> {
    if re == "" then []
    else if |re| > 1 && re[1] == '*' then [Many(re[0])] + Atoms(re[2..])
    else if re == "$" then []
    else [One(re[0])] + Atoms(re[1..])
  }

  predicate EndAnchored(re: string) {
    if re == "" then false
    else if |re| > 1 && re[1] == '*' then EndAnchored(re[2..])
    else re == "$" || EndAnchored(re[1..])
  }

  predicate Fits(a: Atom, s: string) {
    match a
    case One(c) => |s| == 1 && (c == '.' || c == s[0])
    case Many(c) => forall i :: 0 <= i < |s| ==> c == '.' || s[i] == c
  }

  function Concat(pieces: seq<string>): string {
    if pieces == [] then "" else pieces[0] + Concat(pieces[1..])
  }

  /** s falls into one piece per atom, each fitting its atom. */
  predicate Splits(atoms: seq<Atom>, s: string, pieces: seq<string>) {
    |pieces| == |atoms| && Concat(pieces) == s && forall i :: 0 <= i < |atoms| ==> Fits(atoms[i], pieces[i])
  }

  ghost predicate InLanguage(atoms: seq<Atom>, s: string) {
    exists pieces :: Splits(atoms, s, pieces)
  }

  /** Some stretch text[i..j) is in the pattern's language, at the start if the pattern begins with '^'
      and at the end if it ends with '$'. */
  ghost predicate Means(re: string, text: string) {
    var anchored := re != "" && re[0] == '^';
    var body := if anchored then re[1..] else re;
    exists i :: 0 <= i <= |text| && (anchored ==> i == 0) && StretchAt(body, text, i)
  }

  /** A stretch of the text from i on is in the language. */
  ghost predicate StretchAt(body: string, text: string, i: nat) {
    exists j :: i <= j <= |text| && (EndAnchored(body) ==> j == |text|) && InLanguage(Atoms(body), text[i..j])
  }

  // ---------- the two agree ----------

  lemma {:induction false} LanguageCons(a: Atom, rest: seq<Atom>, x: string, y: string)
    requires Fits(a, x) && InLanguage(rest, y)
    ensures InLanguage([a] + rest, x + y)
  {
    var pieces :| Splits(rest, y, pieces);
    assert ([x] + pieces)[1..] == pieces;
    assert Splits([a] + rest, x + y, [x] + pieces);
  }

  lemma {:induction false} LanguageUncons(a: Atom, rest: seq<Atom>, s: string) returns (x: string, y: string)
    requires InLanguage([a] + rest, s)
    ensures s == x + y && Fits(a, x) && InLanguage(rest, y)
  {
    var atoms := [a] + rest;
    var pieces :| Splits(atoms, s, pieces);
    x, y := pieces[0], Concat(pieces[1..]);
    assert Fits(atoms[0], pieces[0]);
    forall i | 0 <= i < |rest| ensures Fits(rest[i], pieces[1..][i]) {
      assert Fits(atoms[i + 1], pieces[i + 1]);
    }
    assert Splits(rest, y, pieces[1..]);
  }

  lemma LanguageNil(s: string)
    ensures InLanguage([], s) <==> s == ""
  {
    if s == "" {
      assert Splits([], s, []);
    }
  }

  /** The pattern matches some prefix of the text, all of it if the pattern ends with '$'. */
  ghost predicate Prefix(re: string, text: string) {
    exists j :: 0 <= j <= |text| && (EndAnchored(re) ==> j == |text|) && InLanguage(Atoms(re), text[..j])
  }

  lemma {:induction false} HereExact(re: string, text: string)
    ensures MatchHere(re, text) <==> Prefix(re, text)
    decreases |re|, |text|, 0
  {
    if re == "" {
      LanguageNil("");
      assert text[..0] == "";
    } else if |re| > 1 && re[1] == '*' {
      StarExact(re[0], re[2..], text);
      StarPrefix(re, text);
    } else if re == "$" {
      LanguageNil(text);
      assert text[..|text|] == text;
    } else {
      if text != "" {
        HereExact(re[1..], text[1..]);
      }
      OnePrefix(re, text);
    }
  }

  lemma {:induction false} OnePrefix(re: string, text: string)
    requires re != "" && !(|re| > 1 && re[1] == '*') && re != "$"
    ensures Prefix(re, text) <==> text != "" && (re[0] == '.' || re[0] == text[0]) && Prefix(re[1..], text[1..])
  {
    if Prefix(re, text) {
      OneOff(re, text);
    }
    if text != "" && (re[0] == '.' || re[0] == text[0]) && Prefix(re[1..], text[1..]) {
      OneOn(re, text);
    }
  }

  lemma {:induction false} OneOff(re: string, text: string)
    requires re != "" && !(|re| > 1 && re[1] == '*') && re != "$" && Prefix(re, text)
    ensures text != "" && (re[0] == '.' || re[0] == text[0]) && Prefix(re[1..], text[1..])
  {
    var j :| 0 <= j <= |text| && (EndAnchored(re) ==> j == |text|) && InLanguage(Atoms(re), text[..j]);
    var x, y := LanguageUncons(One(re[0]), Atoms(re[1..]), text[..j]);
    assert text[..j][0] == x[0] && text[..j][1..] == y;
    assert y == text[1..][..j - 1];
  }

  lemma {:induction false} OneOn(re: string, text: string)
    requires re != "" && !(|re| > 1 && re[1] == '*') && re != "$"
    requires text != "" && (re[0] == '.' || re[0] == text[0]) && Prefix(re[1..], text[1..])
    ensures Prefix(re, text)
  {
    var j :| 0 <= j <= |text[1..]| && (EndAnchored(re[1..]) ==> j == |text[1..]|)
        && InLanguage(Atoms(re[1..]), text[1..][..j]);
    LanguageCons(One(re[0]), Atoms(re[1..]), [text[0]], text[1..][..j]);
    assert text[..j + 1] == [text[0]] + text[1..][..j];
  }

  /** c repeated k times, then the rest of the pattern. */
  ghost predicate Repeats(c: char, re: string, text: string) {
    exists k :: 0 <= k <= |text| && Fits(Many(c), text[..k]) && Prefix(re, text[k..])
  }

  lemma {:induction false} StarExact(c: char, re: string, text: string)
    ensures MatchStar(c, re, text) <==> Repeats(c, re, text)
    decreases |re| + 1, |text|, 1
  {
    HereExact(re, text);
    assert text[0..] == text && Fits(Many(c), text[..0]);
    if text != "" {
      StarExact(c, re, text[1..]);
    }
    RepeatsStep(c, re, text);
  }

  lemma {:induction false} RepeatsStep(c: char, re: string, text: string)
    ensures Repeats(c, re, text) <==>
            Prefix(re, text) || (text != "" && (text[0] == c || c == '.') && Repeats(c, re, text[1..]))
  {
    if Repeats(c, re, text) {
      var k :| 0 <= k <= |text| && Fits(Many(c), text[..k]) && Prefix(re, text[k..]);
      if k == 0 {
        assert text[0..] == text;
      } else {
        assert text[..k][0] == text[0] && text[1..][..k - 1] == text[..k][1..] && text[1..][k - 1..] == text[k..];
        assert Repeats(c, re, text[1..]);
      }
    }
    if Prefix(re, text) {
      assert text[0..] == text && Fits(Many(c), text[..0]);
    }
    if text != "" && (text[0] == c || c == '.') && Repeats(c, re, text[1..]) {
      var k :| 0 <= k <= |text[1..]| && Fits(Many(c), text[1..][..k]) && Prefix(re, text[1..][k..]);
      assert text[..k + 1] == [text[0]] + text[1..][..k] && text[1..][k..] == text[k + 1..];
      assert Fits(Many(c), text[..k + 1]);
    }
  }

  lemma {:induction false} StarPrefix(re: string, text: string)
    requires |re| > 1 && re[1] == '*'
    ensures Repeats(re[0], re[2..], text) <==> Prefix(re, text)
  {
    if Repeats(re[0], re[2..], text) {
      StarIn(re, text);
    }
    if Prefix(re, text) {
      StarOut(re, text);
    }
  }

  lemma {:induction false} StarIn(re: string, text: string)
    requires |re| > 1 && re[1] == '*' && Repeats(re[0], re[2..], text)
    ensures Prefix(re, text)
  {
    var c, rest := re[0], re[2..];
    var k :| 0 <= k <= |text| && Fits(Many(c), text[..k]) && Prefix(rest, text[k..]);
    var t := text[k..];
    var j :| 0 <= j <= |t| && (EndAnchored(rest) ==> j == |t|) && InLanguage(Atoms(rest), t[..j]);
    StarThen(c, Atoms(rest), text, k, j);
    assert InLanguage(Atoms(re), text[..k + j]);
  }

  /** A repetition and then what the rest of the pattern takes. */
  lemma {:induction false} StarThen(c: char, rest: seq<Atom>, text: string, k: nat, j: nat)
    requires k + j <= |text| && Fits(Many(c), text[..k]) && InLanguage(rest, text[k..][..j])
    ensures InLanguage([Many(c)] + rest, text[..k + j])
  {
    LanguageCons(Many(c), rest, text[..k], text[k..][..j]);
    assert text[..k + j] == text[..k] + text[k..][..j];
  }

  lemma {:induction false} StarOut(re: string, text: string)
    requires |re| > 1 && re[1] == '*' && Prefix(re, text)
    ensures Repeats(re[0], re[2..], text)
  {
    var c, rest := re[0], re[2..];
    var j :| 0 <= j <= |text| && (EndAnchored(re) ==> j == |text|) && InLanguage(Atoms(re), text[..j]);
    var x, y := LanguageUncons(Many(c), Atoms(rest), text[..j]);
    var k := |x|;
    assert text[..j][..k] == x && text[..j][k..] == y;
    assert text[..k] == x && text[k..][..j - k] == y;
    assert Prefix(rest, text[k..]);
  }

  lemma {:induction false} AnywhereExact(re: string, text: string)
    ensures MatchAnywhere(re, text) <==> exists i :: 0 <= i <= |text| && Prefix(re, text[i..])
    decreases |text|
  {
    HereExact(re, text);
    assert text[0..] == text;
    if text != "" {
      var t := text[1..];
      AnywhereExact(re, t);
      assert forall i :: 0 <= i <= |t| ==> t[i..] == text[i + 1..];
      if i :| 0 <= i <= |text| && Prefix(re, text[i..]) {
        if i > 0 {
          assert t[i - 1..] == text[i..];
        }
      }
    }
  }

  /** match returns 1 exactly when the text has the meaning of the pattern in it. */
  lemma {:induction false} MatchExact(re: string, text: string)
    ensures Match(re, text) <==> Means(re, text)
  {
    var anchored := re != "" && re[0] == '^';
    var body := if anchored then re[1..] else re;
    HereExact(body, text);
    AnywhereExact(body, text);
    assert text[0..] == text;
    if Match(re, text) {
      var i :| 0 <= i <= |text| && (anchored ==> i == 0) && Prefix(body, text[i..]);
      PrefixIsStretch(body, text, i);
      assert Means(re, text);
    }
    if Means(re, text) {
      var i :| 0 <= i <= |text| && (anchored ==> i == 0) && StretchAt(body, text, i);
      PrefixIsStretch(body, text, i);
      assert Prefix(body, text[i..]);
      assert Match(re, text);
    }
  }

  lemma {:induction false} PrefixIsStretch(body: string, text: string, i: nat)
    requires i <= |text|
    ensures Prefix(body, text[i..]) <==> StretchAt(body, text, i)
  {
    var t := text[i..];
    if Prefix(body, t) {
      var j :| 0 <= j <= |t| && (EndAnchored(body) ==> j == |t|) && InLanguage(Atoms(body), t[..j]);
      assert text[i..i + j] == t[..j];
    }
    if StretchAt(body, text, i) {
      var j :| i <= j <= |text| && (EndAnchored(body) ==> j == |text|) && InLanguage(Atoms(body), text[i..j]);
      assert t[..j - i] == text[i..j];
    }
  }
}
