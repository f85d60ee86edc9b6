/** The tokenizer and the recursive-descent parser as they run: one pass over the text filling a
    growing vector of tokens, then a position moving through it. */
module LispReader {
  import opened Bytes
  import opened Numerals
  import opened Text
  import opened LispSyntax

  const VEC_MIN_SIZE: nat := 5

  /** A vector that doubles its storage when full. */
  class Vector<T(0)> {
    var size: nat
    var arr: array<T>

    ghost predicate Valid()
      reads this
    {
      size <= arr.Length && VEC_MIN_SIZE <= arr.Length
    }

    ghost function Contents(): seq<T>
      requires Valid()
      reads this, arr
    {
      arr[..size]
    }

    constructor ()
      ensures Valid() && Contents() == [] && fresh(arr)
    {
      size := 0;
      arr := new T[VEC_MIN_SIZE];
    }

    method PushBack(elem: T)
      requires Valid()
      modifies this, arr
      ensures Valid() && Contents() == old(Contents()) + [elem]
      ensures arr.Length == if old(size) >= old(arr.Length) then 2 * old(arr.Length) else old(arr.Length)
      ensures arr == old(arr) || fresh(arr)
    {
      if size >= arr.Length {
        var newArr := new T[arr.Length * 2];
        for i := 0 to size
          invariant size == old(size) && arr == old(arr) && fresh(newArr) && newArr.Length == arr.Length * 2
          invariant newArr[..i] == arr[..i] && arr[..] == old(arr[..])
        {
          newArr[i] := arr[i];
        }
        arr := newArr;
      }
      arr[size] := elem;
      size := size + 1;
    }

    method At(ind: nat) returns (r: Option<T>)
      requires Valid()
      ensures r == if ind < |Contents()| then Some(Contents()[ind]) else None
    {
      return if ind >= size then None else Some(arr[ind]);
    }
  }

  function PrependAll(ts: seq<Token>, r: Option<seq<Token>>): Option<seq<Token>> {
    match r
    case None => None
    case Some(us) => Some(ts + us)
  }

  lemma PrependNothing(r: Option<seq<Token>>)
    ensures PrependAll([], r) == r
  {
    if r.Some? {
      assert [] + r.value == r.value;
    }
  }

  lemma PrependMore(ts: seq<Token>, t: Token, r: Option<seq<Token>>)
    ensures PrependAll(ts, Prepend(t, r)) == PrependAll(ts + [t], r)
  {
    if r.Some? {
      assert ts + ([t] + r.value) == ts + [t] + r.value;
    }
  }

  lemma NoTokens()
    ensures Tokens("") == Some([])
  {
  }

  /** How long the token or the skipped part at the front of a text is, and which token it is. */
  function Front(src: string): (r: Option<(nat, Option<Token>)>)
    requires src != []
    ensures r.Some? ==> 0 < r.value.0 <= |src|
  {
    var c := src[0];
    if IsSkippable(c) then Some((1, None))
    else if c == '(' then Some((1, Some(OpenParen)))
    else if c == ')' then Some((1, Some(CloseParen)))
    else if c == '"' then
      var n := Find(src[1..], '"');
      if n == |src| - 1 then None else Some((n + 2, Some(StrLit(src[1..n + 1]))))
    else if c == ';' then
      var n := Find(src, '\n');
      if n == |src| then None else Some((n + 1, None))
    else if IsDigit(c) then Some((DigitRun(src), Some(IntLit(src[..DigitRun(src)]))))
    else if IsIdent(c) then Some((IdentRun(src), Some(Ident(src[..IdentRun(src)]))))
    else Some((1, None))
  }

  lemma FrontFirst(src: string)
    requires src != []
    ensures var f := Front(src);
      Tokens(src) == if f.None? then None
                     else if f.value.1.None? then Tokens(src[f.value.0..])
                     else Prepend(f.value.1.value, Tokens(src[f.value.0..]))
  {
  }

  method ScanDigits(src: string, from: nat) returns (n: nat)
    requires from <= |src|
    ensures from <= n <= |src| && n - from == DigitRun(src[from..])
  {
    n := from;
    while n < |src| && IsDigit(src[n])
      invariant from <= n <= |src| && AllDigits(src[from..n])
    {
      assert src[from..n + 1] == src[from..n] + [src[n]];
      n := n + 1;
    }
    assert src[from..][..n - from] == src[from..n];
    DigitRunIs(src[from..], n - from);
  }

  lemma OneMoreIdent(src: string, from: nat, n: nat)
    requires from <= n < |src| && AllIdent(src[from..n]) && IsIdent(src[n])
    ensures AllIdent(src[from..n + 1])
  {
    hide IsIdent;
    assert src[from..n + 1] == src[from..n] + [src[n]];
  }

  lemma NoIdent(s: string)
    requires s == ""
    ensures AllIdent(s)
  {
  }

  method ScanIdent(src: string, from: nat) returns (n: nat)
    requires from <= |src|
    ensures from <= n <= |src| && n - from == IdentRun(src[from..])
  {
    hide AllIdent;
    hide IsIdent;
    n := from;
    NoIdent(src[from..n]);
    while n < |src| && IsIdent(src[n])
      invariant from <= n <= |src| && AllIdent(src[from..n])
    {
      OneMoreIdent(src, from, n);
      n := n + 1;
    }
    assert src[from..][..n - from] == src[from..n];
    IdentRunIs(src[from..], n - from);
  }

  /** The token at position `p`, if there is one there, and the position behind it. A false `ok` means
      that a string or a comment runs off the end of the text. */
  method NextToken(src: string, p: nat) returns (ok: bool, q: nat, tok: Option<Token>)
    requires p < |src|
    ensures ok <==> Front(src[p..]).Some?
    ensures ok ==> p < q <= |src| && Front(src[p..]) == Some((q - p, tok))
  {
    hide IsIdent;
    hide IdentRun;
    hide DigitRun;
    hide Find;
    ok, q, tok := true, p + 1, None;
    ghost var rest := src[p..];
    var c := src[p];
    if IsSkippable(c) {
    } else if c == '(' {
      tok := Some(OpenParen);
    } else if c == ')' {
      tok := Some(CloseParen);
    } else if c == '"' {
      assert rest[1..] == src[p + 1..];
      var n := ScanTo(src, p + 1, '"');
      if n == |src| {
        return false, q, None;
      }
      q := n + 1;
      tok := Some(StrLit(src[p + 1..n]));
      assert src[p + 1..n] == rest[1..][..n - p - 1] == rest[1..n - p];
    } else if c == ';' {
      var n := ScanTo(src, p, '\n');
      if n == |src| {
        return false, q, None;
      }
      q := n + 1;
    } else if IsDigit(c) {
      q := ScanDigits(src, p);
      tok := Some(IntLit(src[p..q]));
      assert src[p..q] == rest[..q - p];
    } else if IsIdent(c) {
      q := ScanIdent(src, p);
      tok := Some(Ident(src[p..q]));
      assert src[p..q] == rest[..q - p];
    }
  }

  /** `tokenize`: refines `Tokens` on every text. */
  method Tokenize(src: string) returns (ok: bool, toks: Vector<Token>)
    ensures fresh(toks) && fresh(toks.arr) && toks.Valid()
    ensures ok <==> Tokens(src).Some?
    ensures ok ==> Tokens(src) == Some(toks.Contents())
  {
    toks := new Vector<Token>();
    var p := 0;
    assert src[0..] == src;
    PrependNothing(Tokens(src));
    while p < |src|
      invariant p <= |src| && fresh(toks) && fresh(toks.arr) && toks.Valid()
      invariant Tokens(src) == PrependAll(toks.Contents(), Tokens(src[p..]))
      decreases |src| - p
    {
      FrontFirst(src[p..]);
      hide Tokens;
      hide Front;
      hide PrependAll;
      var q, tok;
      ok, q, tok := NextToken(src, p);
      if !ok {
        return false, toks;
      }
      assert src[p..][q - p..] == src[q..];
      if tok.Some? {
        PrependMore(toks.Contents(), tok.value, Tokens(src[q..]));
        toks.PushBack(tok.value);
      }
      p := q;
    }
    assert src[p..] == "";
    NoTokens();
    assert toks.Contents() + [] == toks.Contents();
    ok := true;
  }

  // ----- the parser -----

  class Parser {
    const tokens: Vector<Token>
    var pos: nat

    constructor (tokens: Vector<Token>)
      ensures this.tokens == tokens && pos == 0
    {
      this.tokens, pos := tokens, 0;
    }

    ghost predicate Valid()
      reads this, tokens, tokens.arr
    {
      tokens.Valid() && pos <= |tokens.Contents()|
    }

    /** `parseExpr`; no result where the interpreter halts. */
    method Expression() returns (r: Option<Expr>)
      requires Valid()
      modifies `pos
      ensures Valid()
      ensures r.Some? <==> ParseExpr(tokens.Contents(), old(pos)).Some?
      ensures r.Some? ==> ParseExpr(tokens.Contents(), old(pos)) == Some((r.value, pos))
      decreases |tokens.Contents()| - pos, 1
    {
      var tok := tokens.At(pos);
      if tok.None? {
        return None;
      }
      match tok.value {
        case IntLit(s) =>
          pos := pos + 1;
          var n := Stoi(s);
          return Some(ExprInt(n));
        case StrLit(s) =>
          pos := pos + 1;
          return Some(ExprString(s));
        case Ident(s) =>
          pos := pos + 1;
          return Some(ExprSymbol(s));
        case OpenParen =>
          r := List();
        case CloseParen =>
          return None;
      }
    }

    /** `parseList` */
    method List() returns (r: Option<Expr>)
      requires Valid() && pos < |tokens.Contents()| && tokens.Contents()[pos] == OpenParen
      modifies `pos
      ensures Valid()
      ensures r.Some? <==> ParseExpr(tokens.Contents(), old(pos)).Some?
      ensures r.Some? ==> ParseExpr(tokens.Contents(), old(pos)) == Some((r.value, pos))
      decreases |tokens.Contents()| - pos, 0
    {
      ghost var ts, start := tokens.Contents(), pos;
      pos := pos + 1;
      var items: seq<Expr> := [];
      NoItemsYet(ParseItems(ts, pos));
      while true
        invariant Valid() && tokens.Contents() == ts && start < pos
        invariant ParseItems(ts, start + 1) == ItemsThen(items, ParseItems(ts, pos))
        decreases |ts| - pos
      {
        var tok := tokens.At(pos);
        if tok.None? {
          return None;
        }
        if tok.value == CloseParen {
          pos := pos + 1;
          assert items + [] == items;
          return Some(ExprList(items));
        }
        ghost var before := pos;
        var child := Expression();
        if child.None? {
          return None;
        }
        OneMoreItem(ts, items, before);
        items := items + [child.value];
      }
    }
  }

  function ItemsThen(items: seq<Expr>, r: Option<(seq<Expr>, nat)>): Option<(seq<Expr>, nat)> {
    match r
    case None => None
    case Some((es, q)) => Some((items + es, q))
  }

  lemma NoItemsYet(r: Option<(seq<Expr>, nat)>)
    ensures ItemsThen([], r) == r
  {
    if r.Some? {
      assert [] + r.value.0 == r.value.0;
    }
  }

  lemma OneMoreItem(ts: seq<Token>, items: seq<Expr>, pos: nat)
    requires pos < |ts| && ts[pos] != CloseParen && ParseExpr(ts, pos).Some?
    ensures var (e, q) := ParseExpr(ts, pos).value;
      ItemsThen(items, ParseItems(ts, pos)) == ItemsThen(items + [e], ParseItems(ts, q))
  {
    var (e, q) := ParseExpr(ts, pos).value;
    var r := ParseItems(ts, q);
    if r.Some? {
      assert items + ([e] + r.value.0) == items + [e] + r.value.0;
    }
  }
}
