/** The shader language's tokens and expressions, and how they are written as text. */
module LispSyntax {
  import opened Bytes
  import opened Numerals
  import opened Text

  datatype Token = OpenParen | CloseParen | IntLit(conts: string) | StrLit(conts: string) | Ident(conts: string)

  datatype Expr = ExprInt(intVal: I32) | ExprString(strVal: string) | ExprSymbol(symbol: string) | ExprList(items: seq<Expr>)

  // ----- characters -----

  predicate IsSkippable(c: char) { c == ' ' || c == '\n' || c == '\t' }

  predicate IsAlpha(c: char) { 'a' <= c <= 'z' || 'A' <= c <= 'Z' }

  predicate IsIdent(c: char) {
    IsAlpha(c) || IsDigit(c) || c in "_-+*/%^&|~"
  }

  predicate AllIdent(s: string) { forall i | 0 <= i < |s| :: IsIdent(s[i]) }

  function IdentRun(s: string): (n: nat)
    ensures n <= |s| && AllIdent(s[..n]) && (n < |s| ==> !IsIdent(s[n]))
  {
    if s == [] || !IsIdent(s[0]) then 0
    else
      var n := 1 + IdentRun(s[1..]);
      assert forall i | 1 <= i < n :: s[i] == s[1..][i - 1];
      n
  }

  lemma IdentRunIs(s: string, n: nat)
    requires n <= |s| && AllIdent(s[..n]) && (n < |s| ==> !IsIdent(s[n]))
    ensures IdentRun(s) == n
  {
    var m := IdentRun(s);
    assert forall i | 0 <= i < n :: s[..n][i] == s[i];
    assert forall i | 0 <= i < m :: s[..m][i] == s[i];
  }

  // ----- what tokenizing a text yields; nothing when a string or a comment never ends -----

  function Prepend(t: Token, r: Option<seq<Token>>): Option<seq<Token>> {
    match r
    case None => None
    case Some(ts) => Some([t] + ts)
  }

  function Tokens(src: string): Option<seq<Token>>
    decreases |src|
  {
    if src == [] then Some([])
    else if IsSkippable(src[0]) then Tokens(src[1..])
    else if src[0] == '(' then Prepend(OpenParen, Tokens(src[1..]))
    else if src[0] == ')' then Prepend(CloseParen, Tokens(src[1..]))
    else if src[0] == '"' then
      var n := Find(src[1..], '"');
      if n == |src| - 1 then None else Prepend(StrLit(src[1..n + 1]), Tokens(src[n + 2..]))
    else if src[0] == ';' then
      var n := Find(src, '\n');
      if n == |src| then None else Tokens(src[n + 1..])
    else if IsDigit(src[0]) then
      var n := DigitRun(src);
      Prepend(IntLit(src[..n]), Tokens(src[n..]))
    else if IsIdent(src[0]) then
      var n := IdentRun(src);
      Prepend(Ident(src[..n]), Tokens(src[n..]))
    else Tokens(src[1..])
  }

  // ----- writing tokens as text -----

  /** A token that can be written down: a string has no quote in it, a name has identifier characters
      and does not start with a digit. */
  predicate Writable(t: Token) {
    match t
    case OpenParen => true
    case CloseParen => true
    case IntLit(s) => s != [] && AllDigits(s)
    case StrLit(s) => '"' !in s
    case Ident(s) => s != [] && AllIdent(s) && !IsDigit(s[0])
  }

  function TokenText(t: Token): string {
    match t
    case OpenParen => "("
    case CloseParen => ")"
    case IntLit(s) => s
    case StrLit(s) => "\"" + s + "\""
    case Ident(s) => s
  }

  /** A character the tokenizer passes over: white space, or one that begins nothing. */
  predicate IsIgnored(c: char) {
    IsSkippable(c) || !(IsIdent(c) || c == '(' || c == ')' || c == '"' || c == ';')
  }

  /** Text that holds no token: ignored characters and finished comments. */
  predicate IsGap(s: string)
    decreases |s|
  {
    s == "" || (if s[0] == ';' then Find(s, '\n') < |s| && IsGap(s[Find(s, '\n') + 1..])
                else IsIgnored(s[0]) && IsGap(s[1..]))
  }

  /** Tokens written one after another, each followed by its own gap. */
  function Render(ts: seq<Token>, gaps: seq<string>): string
    requires |gaps| == |ts|
  {
    if ts == [] then "" else TokenText(ts[0]) + gaps[0] + Render(ts[1..], gaps[1..])
  }

  /** Two tokens that run into one another when nothing stands between them. */
  predicate Merge(t: Token, u: Token) {
    (t.IntLit? && u.IntLit?) || (t.Ident? && (u.IntLit? || u.Ident?))
  }

  predicate Separated(ts: seq<Token>, gaps: seq<string>)
    requires |gaps| == |ts|
  {
    forall i | 0 <= i < |ts| - 1 :: Merge(ts[i], ts[i + 1]) ==> gaps[i] != ""
  }

  lemma {:induction false} SkipGap(gap: string, rest: string)
    requires IsGap(gap)
    ensures Tokens(gap + rest) == Tokens(rest)
    decreases |gap|
  {
    var text := gap + rest;
    if gap == "" {
      assert text == rest;
    } else if gap[0] == ';' {
      var n := Find(gap, '\n');
      assert text[..n] == gap[..n] && text[n] == '\n';
      FindIs(text, '\n', n);
      assert text[n + 1..] == gap[n + 1..] + rest;
      SkipGap(gap[n + 1..], rest);
    } else {
      assert text[1..] == gap[1..] + rest;
      SkipGap(gap[1..], rest);
    }
  }

  lemma OneParen(t: Token, rest: string)
    requires t.OpenParen? || t.CloseParen?
    ensures Tokens(TokenText(t) + rest) == Prepend(t, Tokens(rest))
  {
    assert (TokenText(t) + rest)[1..] == rest;
  }

  lemma OneInt(s: string, rest: string)
    requires s != [] && AllDigits(s) && (rest != [] ==> !IsDigit(rest[0]))
    ensures Tokens(s + rest) == Prepend(IntLit(s), Tokens(rest))
  {
    var src := s + rest;
    assert src[..|s|] == s && src[|s|..] == rest;
    DigitRunIs(src, |s|);
    assert IsDigit(src[0]);
    hide DigitRun;
  }

  lemma OneIdent(s: string, rest: string)
    requires s != [] && AllIdent(s) && !IsDigit(s[0]) && (rest != [] ==> !IsIdent(rest[0]))
    ensures Tokens(s + rest) == Prepend(Ident(s), Tokens(rest))
  {
    var src := s + rest;
    assert src[..|s|] == s && src[|s|..] == rest;
    IdentRunIs(src, |s|);
    assert IsIdent(src[0]) && !IsDigit(src[0]);
    IdentIsPlain(src[0]);
    hide IdentRun;
    hide IsIdent;
  }

  lemma IdentIsPlain(c: char)
    requires IsIdent(c)
    ensures !IsSkippable(c) && c != '(' && c != ')' && c != '"' && c != ';'
  {
  }

  lemma OneStr(s: string, rest: string)
    requires '"' !in s
    ensures Tokens("\"" + s + "\"" + rest) == Prepend(StrLit(s), Tokens(rest))
  {
    var src := "\"" + s + "\"" + rest;
    assert src[0] == '"' && src[1..] == s + ("\"" + rest);
    assert src[1..][..|s|] == s && src[1..|s| + 1] == s && src[|s| + 2..] == rest;
    FindIs(src[1..], '"', |s|);
    hide Find;
  }

  /** Whether a token's text ends where the text behind it begins. */
  predicate Ends(t: Token, rest: string) {
    rest != "" ==> (t.IntLit? ==> !IsDigit(rest[0])) && (t.Ident? ==> !IsIdent(rest[0]))
  }

  /** A written token that ends where the rest begins is read back, and exactly its text is used up. */
  lemma OneToken(t: Token, rest: string)
    requires Writable(t) && Ends(t, rest)
    ensures Tokens(TokenText(t) + rest) == Prepend(t, Tokens(rest))
  {
    hide Tokens;
    match t
    case OpenParen => OneParen(t, rest);
    case CloseParen => OneParen(t, rest);
    case IntLit(s) => OneInt(s, rest);
    case StrLit(s) => OneStr(s, rest);
    case Ident(s) => OneIdent(s, rest);
  }

  /** The token two texts make when nothing stands between them. */
  function Merged(t: Token, u: Token): Token
    requires Merge(t, u)
  {
    if t.IntLit? then IntLit(t.conts + u.conts) else Ident(t.conts + u.conts)
  }

  lemma MergedWritable(t: Token, u: Token)
    requires Writable(t) && Writable(u) && Merge(t, u)
    ensures Writable(Merged(t, u)) && TokenText(Merged(t, u)) == TokenText(t) + TokenText(u)
  {
  }

  /** Writing two tokens that merge is writing one. */
  lemma RenderMerged(ts: seq<Token>, gaps: seq<string>)
    requires |gaps| == |ts| > 1 && gaps[0] == "" && Writable(ts[0]) && Writable(ts[1]) && Merge(ts[0], ts[1])
    ensures Render([Merged(ts[0], ts[1])] + ts[2..], gaps[1..]) == Render(ts, gaps)
  {
    var us := [Merged(ts[0], ts[1])] + ts[2..];
    var rest := gaps[1] + Render(ts[2..], gaps[2..]);
    assert ts[1..][1..] == ts[2..] == us[1..] && gaps[1..][1..] == gaps[2..];
    MergedWritable(ts[0], ts[1]);
    RenderStep(ts, gaps);
    RenderStep(ts[1..], gaps[1..]);
    RenderStep(us, gaps[1..]);
    hide Render;
    hide TokenText;
    hide Writable;
    hide Merged;
    NoGap(TokenText(ts[0]), TokenText(ts[1]), rest);
  }

  lemma NoGap(a: string, b: string, c: string)
    ensures a + ("" + (b + c)) == a + b + c
  {
  }

  /** The gap behind a token and the token after it decide whether it ends there. */
  lemma EndsExactly(ts: seq<Token>, gaps: seq<string>)
    requires |gaps| == |ts| && ts != [] && IsGap(gaps[0]) && (|ts| > 1 ==> Writable(ts[1]))
    ensures var rest := gaps[0] + Render(ts[1..], gaps[1..]);
      Ends(ts[0], rest) <==> !(|ts| > 1 && gaps[0] == "" && Merge(ts[0], ts[1]))
  {
    var rest := gaps[0] + Render(ts[1..], gaps[1..]);
    if gaps[0] != "" {
      assert rest[0] == gaps[0][0];
    } else if |ts| > 1 {
      assert rest[0] == TokenText(ts[1])[0];
    }
  }

  lemma SeparatedStep(ts: seq<Token>, gaps: seq<string>)
    requires |gaps| == |ts| && ts != []
    ensures Separated(ts, gaps)
            <==> !(|ts| > 1 && gaps[0] == "" && Merge(ts[0], ts[1])) && Separated(ts[1..], gaps[1..])
  {
    hide Merge;
    var us, hs := ts[1..], gaps[1..];
    assert forall i | 1 <= i < |ts| :: ts[i] == us[i - 1] && gaps[i] == hs[i - 1];
  }

  lemma PrependCount(t: Token, r: Option<seq<Token>>, ts: seq<Token>)
    requires ts != [] && ts[0] == t
    ensures Prepend(t, r).Some? == r.Some?
    ensures r.Some? ==> |Prepend(t, r).value| == |r.value| + 1 && (r.value == ts[1..] ==> Prepend(t, r).value == ts)
  {
  }

  /** Tokens written with any gaps are tokenized to at most as many, and to fewer exactly where some run
      together. */
  lemma {:induction false} TokensCount(ts: seq<Token>, gaps: seq<string>)
    requires |gaps| == |ts| && forall i | 0 <= i < |ts| :: Writable(ts[i]) && IsGap(gaps[i])
    ensures var r := Tokens(Render(ts, gaps));
      && r.Some? && |r.value| <= |ts|
      && (Separated(ts, gaps) ==> r.value == ts) && (!Separated(ts, gaps) ==> |r.value| < |ts|)
    decreases |ts|
  {
    if ts != [] {
      hide Tokens;
      hide TokenText;
      hide Ends;
      hide Writable;
      hide IsGap;
      hide Merge;
      var rest := gaps[0] + Render(ts[1..], gaps[1..]);
      EndsExactly(ts, gaps);
      SeparatedStep(ts, gaps);
      hide Separated;
      hide Prepend;
      hide Merged;
      if Ends(ts[0], rest) {
        RenderStep(ts, gaps);
        hide Render;
        OneToken(ts[0], rest);
        SkipGap(gaps[0], Render(ts[1..], gaps[1..]));
        TokensCount(ts[1..], gaps[1..]);
        PrependCount(ts[0], Tokens(Render(ts[1..], gaps[1..])), ts);
      } else {
        RenderMerged(ts, gaps);
        MergedWritable(ts[0], ts[1]);
        TokensCount([Merged(ts[0], ts[1])] + ts[2..], gaps[1..]);
      }
    }
  }

  /** They are read back if and only if no two of them run together. */
  lemma TokensOfRender(ts: seq<Token>, gaps: seq<string>)
    requires |gaps| == |ts| && forall i | 0 <= i < |ts| :: Writable(ts[i]) && IsGap(gaps[i])
    ensures Tokens(Render(ts, gaps)) == Some(ts) <==> Separated(ts, gaps)
  {
    TokensCount(ts, gaps);
    hide Tokens;
    hide Render;
    hide Separated;
  }

  lemma RenderStep(ts: seq<Token>, gaps: seq<string>)
    requires |gaps| == |ts| && ts != []
    ensures Render(ts, gaps) == TokenText(ts[0]) + (gaps[0] + Render(ts[1..], gaps[1..]))
  {
    hide TokenText;
    assert TokenText(ts[0]) + gaps[0] + Render(ts[1..], gaps[1..]) == TokenText(ts[0]) + (gaps[0] + Render(ts[1..], gaps[1..]));
  }

  // ----- expressions and their tokens -----

  /** Integers 0 to 2^31 - 1, strings without quotes, and names that do not start with a digit. */
  predicate Plain(e: Expr) {
    match e
    case ExprInt(n) => n >= 0
    case ExprString(s) => Writable(StrLit(s))
    case ExprSymbol(s) => Writable(Ident(s))
    case ExprList(items) => forall i | 0 <= i < |items| :: Plain(items[i])
  }

  function ExprTokens(e: Expr): (ts: seq<Token>)
    requires Plain(e)
    ensures ts != [] && ts[0] != CloseParen && forall i | 0 <= i < |ts| :: Writable(ts[i])
    decreases e, 1
  {
    match e
    case ExprInt(n) => [IntLit(Digits(n))]
    case ExprString(s) => [StrLit(s)]
    case ExprSymbol(s) => [Ident(s)]
    case ExprList(items) => [OpenParen] + ListTokens(items) + [CloseParen]
  }

  function ListTokens(items: seq<Expr>): (ts: seq<Token>)
    requires forall i | 0 <= i < |items| :: Plain(items[i])
    ensures forall i | 0 <= i < |ts| :: Writable(ts[i])
    decreases items, 0
  {
    if items == [] then [] else ExprTokens(items[0]) + ListTokens(items[1..])
  }

  // ----- parsing; nothing where the interpreter halts -----

  function ParseExpr(ts: seq<Token>, pos: nat): (r: Option<(Expr, nat)>)
    ensures r.Some? ==> pos < r.value.1 <= |ts|
    decreases |ts| - pos, 1
  {
    if pos >= |ts| then None
    else
      match ts[pos]
      case IntLit(s) => Some((ExprInt(StoiValue(s)), pos + 1))
      case StrLit(s) => Some((ExprString(s), pos + 1))
      case Ident(s) => Some((ExprSymbol(s), pos + 1))
      case OpenParen =>
        (match ParseItems(ts, pos + 1)
         case None => None
         case Some((items, q)) => Some((ExprList(items), q)))
      case CloseParen => None
  }

  /** The items up to and including the closing parenthesis. */
  function ParseItems(ts: seq<Token>, pos: nat): (r: Option<(seq<Expr>, nat)>)
    ensures r.Some? ==> pos < r.value.1 <= |ts|
    decreases |ts| - pos, 2
  {
    if pos >= |ts| then None
    else if ts[pos] == CloseParen then Some(([], pos + 1))
    else
      match ParseExpr(ts, pos)
      case None => None
      case Some((e, q)) =>
        match ParseItems(ts, q)
        case None => None
        case Some((es, q')) => Some(([e] + es, q'))
  }

  /** Parsing an expression's tokens, wherever they stand, gives it back and uses up exactly them. */
  lemma {:induction false} ParseOfTokens(e: Expr, ts: seq<Token>, pos: nat)
    requires Plain(e) && pos + |ExprTokens(e)| <= |ts| && ts[pos..pos + |ExprTokens(e)|] == ExprTokens(e)
    ensures ParseExpr(ts, pos) == Some((e, pos + |ExprTokens(e)|))
    decreases e, 1
  {
    hide ParseItems;
    hide Writable;
    hide StoiValue;
    hide Digits;
    var own := ExprTokens(e);
    assert ts[pos] == own[0];
    match e
    case ExprInt(n) => StoiOfDigits(n);
    case ExprString(s) =>
    case ExprSymbol(s) =>
    case ExprList(items) =>
      var inner := ListTokens(items);
      assert own == [OpenParen] + (inner + [CloseParen]);
      Slices(ts, pos, [OpenParen], inner + [CloseParen]);
      Slices(ts, pos + 1, inner, [CloseParen]);
      assert ts[pos + 1 + |inner|] == ts[pos + 1 + |inner|..pos + 1 + |inner| + 1][0];
      ParseOfList(items, ts, pos + 1);
  }

  lemma {:induction false} ParseOfList(items: seq<Expr>, ts: seq<Token>, pos: nat)
    requires forall i | 0 <= i < |items| :: Plain(items[i])
    requires var q := pos + |ListTokens(items)|; q < |ts| && ts[pos..q] == ListTokens(items) && ts[q] == CloseParen
    ensures ParseItems(ts, pos) == Some((items, pos + |ListTokens(items)| + 1))
    decreases items, 0
  {
    hide ExprTokens;
    hide ListTokens;
    hide ParseExpr;
    hide ParseItems;
    hide Writable;
    if items == [] {
      NothingToList();
      NoItems(ts, pos);
    } else {
      SplitItems(items);
      var first, rest := ExprTokens(items[0]), ListTokens(items[1..]);
      Slices(ts, pos, first, rest);
      ParseOfTokens(items[0], ts, pos);
      ParseOfList(items[1..], ts, pos + |first|);
      ItemsStep(ts, pos);
      assert [items[0]] + items[1..] == items;
    }
  }

  lemma NoItems(ts: seq<Token>, pos: nat)
    requires pos < |ts| && ts[pos] == CloseParen
    ensures ParseItems(ts, pos) == Some(([], pos + 1))
  {
  }

  lemma NothingToList()
    ensures ListTokens([]) == []
  {
  }

  lemma ItemsStep(ts: seq<Token>, pos: nat)
    requires pos < |ts| && ts[pos] != CloseParen && ParseExpr(ts, pos).Some?
    ensures var (e, q) := ParseExpr(ts, pos).value;
      ParseItems(ts, q).Some? ==> ParseItems(ts, pos) == Some(([e] + ParseItems(ts, q).value.0, ParseItems(ts, q).value.1))
  {
    hide ParseExpr;
  }

  lemma SplitItems(items: seq<Expr>)
    requires items != [] && forall i | 0 <= i < |items| :: Plain(items[i])
    ensures ListTokens(items) == ExprTokens(items[0]) + ListTokens(items[1..])
  {
  }

  lemma Slices(ts: seq<Token>, pos: nat, a: seq<Token>, b: seq<Token>)
    requires pos + |a + b| <= |ts| && ts[pos..pos + |a + b|] == a + b
    ensures ts[pos..pos + |a|] == a && ts[pos + |a|..pos + |a| + |b|] == b
    ensures a != [] ==> ts[pos] == a[0]
  {
    var cut := ts[pos..pos + |a + b|];
    assert ts[pos..pos + |a|] == cut[..|a|] && ts[pos + |a|..pos + |a| + |b|] == cut[|a|..];
    assert a != [] ==> ts[pos] == cut[0];
  }

  // ----- from the text to the expression -----

  /** Every way to parse an expression uses as many tokens. */
  lemma {:induction false} ParseUses(ts: seq<Token>, pos: nat, e: Expr)
    requires Plain(e) && ParseExpr(ts, pos).Some? && ParseExpr(ts, pos).value.0 == e
    ensures ParseExpr(ts, pos).value.1 == pos + |ExprTokens(e)|
    decreases |ts| - pos, 1
  {
    hide ParseItems;
    hide Writable;
    hide StoiValue;
    hide Digits;
    if ts[pos] == OpenParen {
      ListUses(ts, pos + 1, e.items);
    }
  }

  lemma {:induction false} ListUses(ts: seq<Token>, pos: nat, items: seq<Expr>)
    requires forall i | 0 <= i < |items| :: Plain(items[i])
    requires ParseItems(ts, pos).Some? && ParseItems(ts, pos).value.0 == items
    ensures ParseItems(ts, pos).value.1 == pos + |ListTokens(items)| + 1
    decreases |ts| - pos, 2
  {
    hide ParseExpr;
    hide ExprTokens;
    hide Writable;
    if ts[pos] == CloseParen {
      assert items == [];
    } else {
      var (e, q) := ParseExpr(ts, pos).value;
      assert items == [e] + ParseItems(ts, q).value.0;
      assert items[0] == e && items[1..] == ParseItems(ts, q).value.0;
      ParseUses(ts, pos, e);
      ListUses(ts, q, items[1..]);
      SplitItems(items);
    }
  }

  /** What a text is read as: an expression that uses up all of it, if it is one. */
  function ReadText(text: string): Option<Expr> {
    var ts := Tokens(text);
    if ts.None? then None
    else
      match ParseExpr(ts.value, 0)
      case None => None
      case Some((e, q)) => if q == |ts.value| then Some(e) else None
  }

  /** An expression written with any gaps between its tokens, comments among them, is read back from the
      whole text if and only if no number or name runs into the next. */
  lemma ReadWritten(e: Expr, gaps: seq<string>)
    requires Plain(e) && |gaps| == |ExprTokens(e)| && forall i | 0 <= i < |gaps| :: IsGap(gaps[i])
    ensures ReadText(Render(ExprTokens(e), gaps)) == Some(e) <==> Separated(ExprTokens(e), gaps)
  {
    var ts := ExprTokens(e);
    var us := Tokens(Render(ts, gaps));
    TokensCount(ts, gaps);
    assert us.Some?;
    ParseOfTokens(e, ts, 0);
    hide Tokens;
    hide Render;
    hide Separated;
    hide ExprTokens;
    hide ParseExpr;
    if ParseExpr(us.value, 0).Some? && ParseExpr(us.value, 0).value.0 == e {
      ParseUses(us.value, 0, e);
    }
  }
}
