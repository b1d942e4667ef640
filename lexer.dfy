/**
 * The tokenizer of code_gen/src/lex.rs: a view over a string with a byte
 * span (`SpannedStr`), the generic longest-prefix scan `lex`, the one-token
 * classifier `lex_token`, and `TokenStream`, which lexes a whole input
 * eagerly and hands the tokens out through a forward-only cursor.
 *
 * Strings are sequences of Unicode scalar values; every byte offset is an
 * offset into their UTF-8 encoding (module Utf8).  Rust panics when a string
 * is sliced off a code-point boundary; those slices carry a `requires`.
 */
module Lexer {
  import opened Wrappers
  import opened Utf8
  import opened Chars

  datatype Token =
    | Ident(text: string)
    | String(text: string)
    | Hash
    | Comma
    | LeftParen
    | RightParen
    | Colon

  datatype LexError = EndOfInput | InvalidChar(c: char) | NonterminatedString

  /** A source string and a half-open byte span `[startByte, endByte)` of it. */
  datatype SpannedStr = SpannedStr(src: string, startByte: nat, endByte: nat) {

    /** Slicing `src` by the span does not panic. */
    predicate Sliceable() {
      startByte >= endByte || (IsCharBoundary(src, startByte) && IsCharBoundary(src, endByte))
    }

    /** The text of the span; empty for a degenerate span. */
    function Substring(): string
      requires Sliceable()
    {
      if startByte >= endByte then []
      else
        var i := CodePointIndex(src, startByte).value;
        var j := CodePointIndex(src, endByte).value;
        OffsetOrder(src, i, j);
        src[i..j]
    }

    /** The view from the end of the span to the end of the source. */
    function Remaining(): (r: Option<SpannedStr>)
      ensures r.Some? && IsCharBoundary(src, endByte) ==> r.value.Sliceable()
    {
      EndIsBoundary(src);
      if endByte < ByteLen(src) then Some(SpannedStr(src, endByte, ByteLen(src))) else None
    }

    function FirstChar(): Option<char>
      requires Sliceable()
    {
      var s := Substring();
      if s == [] then None else Some(s[0])
    }

    /**
     * Moves the start to code point `n` of the substring; the end moves to the
     * end of the source.
     */
    function Skip(n: nat): (r: Option<SpannedStr>)
      requires Sliceable()
      ensures r.Some? ==> r.value.Sliceable()
    {
      var s := Substring();
      if |s| <= n then None
      else
        var i := CodePointIndex(src, startByte).value;
        var j := CodePointIndex(src, endByte).value;
        OffsetOrder(src, i, j);
        OffsetSlice(src, i, j, n);
        CodePointIndexOfOffset(src, i + n);
        EndIsBoundary(src);
        Some(SpannedStr(src, startByte + Offset(s, n), ByteLen(src)))
    }
  }

  /** `SpannedStr::from`: the view of a whole string. */
  function From(s: string): (r: SpannedStr)
    ensures r.Sliceable() && r.Substring() == s
  {
    EndIsBoundary(s);
    SpannedStr(s, 0, ByteLen(s))
  }

  /**
   * `skip` as the source runs it: it walks `char_indices().take(n + 1)` over
   * the substring and keeps the byte index of the last code point it saw.
   */
  method SkipIter(v: SpannedStr, n: nat) returns (r: Option<SpannedStr>)
    requires v.Sliceable()
    ensures r == v.Skip(n)
  {
    var s := v.Substring();
    var newStart := v.startByte;
    var num := 0;
    var offset := 0;
    while num < |s| && num < n + 1
      invariant num <= |s| && num <= n + 1
      invariant offset == Offset(s, num)
      invariant num > 0 ==> newStart == v.startByte + Offset(s, num - 1)
    {
      newStart := v.startByte + offset;
      offset := offset + Width(s[num]);
      num := num + 1;
    }
    if num <= n {
      return None;
    }
    return Some(SpannedStr(v.src, newStart, ByteLen(v.src)));
  }

  /** The first index at or after `k` whose code point fails `p`, or |s|. */
  function RunFrom(s: string, p: (char, nat) -> bool, k: nat): (n: nat)
    requires k <= |s|
    ensures k <= n <= |s|
    ensures forall j :: k <= j < n ==> p(s[j], j)
    ensures n == |s| || !p(s[n], n)
    decreases |s| - k
  {
    if k == |s| || !p(s[k], k) then k else RunFrom(s, p, k + 1)
  }

  /** Length, in code points, of the longest prefix of `s` all of whose code points satisfy `p`. */
  function RunLength(s: string, p: (char, nat) -> bool): (n: nat)
    ensures n <= |s|
    ensures forall j :: 0 <= j < n ==> p(s[j], j)
    ensures n == |s| || !p(s[n], n)
  {
    RunFrom(s, p, 0)
  }

  /** `lex`: the span of the longest prefix of `src` whose code points satisfy the matcher. */
  function Lex(src: string, p: (char, nat) -> bool): (r: SpannedStr)
    ensures r.src == src && r.startByte == 0
    ensures r.Sliceable() && IsCharBoundary(src, r.endByte)
  {
    var n := RunLength(src, p);
    CodePointIndexOfOffset(src, n);
    SpannedStr(src, 0, Offset(src, n))
  }

  /**
   * `lex` as the source runs it: a loop over `char_indices` that stops at the
   * first code point the matcher rejects, or at the end of the input.
   */
  method LexIter(src: string, p: (char, nat) -> bool) returns (r: SpannedStr)
    ensures r == Lex(src, p)
  {
    var charIndex := 0;
    var offset := 0;
    var endByte := 0;
    while true
      invariant charIndex <= |src|
      invariant offset == Offset(src, charIndex)
      invariant RunFrom(src, p, charIndex) == RunLength(src, p)
      decreases |src| - charIndex
    {
      if charIndex < |src| {
        if !p(src[charIndex], charIndex) {
          endByte := offset;
          break;
        }
      } else {
        endByte := ByteLen(src);
        break;
      }
      offset := offset + Width(src[charIndex]);
      charIndex := charIndex + 1;
    }
    r := SpannedStr(src, 0, endByte);
  }

  function WhitespaceMatcher(c: char, index: nat): bool {
    IsWhitespace(c)
  }

  predicate IsIdentStart(u: UnicodeProps, c: char) {
    u.isAlphabetic(c) || c == '_'
  }

  predicate IsIdentChar(u: UnicodeProps, c: char) {
    IsAlphanumeric(u, c) || c == '_'
  }

  function IdentMatcher(u: UnicodeProps): (char, nat) -> bool {
    (c: char, index: nat) => IsIdentChar(u, c)
  }

  function StringMatcher(c: char, index: nat): bool {
    c != '"' && c != '\n'
  }

  /** The single-character tokens. */
  function Punctuation(c: char): Option<Token> {
    if c == '#' then Some(Hash)
    else if c == '(' then Some(LeftParen)
    else if c == ')' then Some(RightParen)
    else if c == ',' then Some(Comma)
    else if c == ':' then Some(Colon)
    else None
  }

  /**
   * `lex_token`: skips whitespace and classifies one token; returns it with
   * the view of what follows it (None when nothing follows).
   */
  function LexToken(src: string, u: UnicodeProps): Result<(Token, Option<SpannedStr>), LexError> {
    match Lex(src, WhitespaceMatcher).Remaining()
    case None => Err(EndOfInput)
    case Some(span) =>
      match span.FirstChar()
      case None => Err(EndOfInput)
      case Some(c) => TokenAt(span, c, u)
  }

  /** The match of `lex_token` over the first character `c` of `span`. */
  function TokenAt(span: SpannedStr, c: char, u: UnicodeProps): Result<(Token, Option<SpannedStr>), LexError>
    requires span.Sliceable()
  {
    if IsIdentStart(u, c) then
      var data := Lex(span.Substring(), IdentMatcher(u));
      Ok((Ident(data.Substring()), data.Remaining()))
    else if Punctuation(c).Some? then Ok((Punctuation(c).value, span.Skip(1)))
    else if c == '"' then StringAt(span)
    else Err(InvalidChar(c))
  }

  /** The string-literal arm of `lex_token`; `span` starts at the opening quote. */
  function StringAt(span: SpannedStr): Result<(Token, Option<SpannedStr>), LexError>
    requires span.Sliceable()
  {
    match span.Skip(1)
    case None => Err(NonterminatedString)
    case Some(afterQuote) => StringBody(afterQuote)
  }

  /** The literal's body runs to the next quote or newline, which must be a quote. */
  function StringBody(afterQuote: SpannedStr): Result<(Token, Option<SpannedStr>), LexError>
    requires afterQuote.Sliceable()
  {
    var data := Lex(afterQuote.Substring(), StringMatcher);
    match data.Remaining()
    case None => Err(NonterminatedString)
    case Some(remaining) =>
      if remaining.FirstChar() != Some('"') then Err(NonterminatedString)
      else Ok((String(data.Substring()), remaining.Skip(1)))
  }

  /** The text of an optional view; None reads as the empty string. */
  ghost function Remainder(o: Option<SpannedStr>): string
    requires o.Some? ==> o.value.Sliceable()
  {
    if o.None? then [] else o.value.Substring()
  }

  /**
   * What `lex_token` does, stated on code points instead of byte spans: the
   * token and the number of code points it consumes, leading whitespace
   * included.
   */
  ghost function Classify(s: string, u: UnicodeProps): Result<(Token, nat), LexError> {
    var k := RunLength(s, WhitespaceMatcher);
    if k == |s| then Err(EndOfInput) else Shift(ClassifyToken(s[k..], u), k)
  }

  /** Adds `k` consumed code points to a classification. */
  function Shift(q: Result<(Token, nat), LexError>, k: nat): Result<(Token, nat), LexError> {
    match q
    case Ok((t, n)) => Ok((t, k + n))
    case Err(e) => Err(e)
  }

  /** The token at the start of `a` and the number of code points it spans. */
  ghost function ClassifyToken(a: string, u: UnicodeProps): Result<(Token, nat), LexError>
    requires a != []
  {
    var c := a[0];
    if IsIdentStart(u, c) then
      var m := RunLength(a, IdentMatcher(u));
      Ok((Ident(a[..m]), m))
    else if Punctuation(c).Some? then Ok((Punctuation(c).value, 1))
    else if c == '"' then Shift(QuotedRest(a[1..]), 1)
    else Err(InvalidChar(c))
  }

  /** The body of a literal after its opening quote runs to the next quote, before any newline. */
  ghost function QuotedRest(b: string): Result<(Token, nat), LexError> {
    var m := RunLength(b, StringMatcher);
    if m < |b| && b[m] == '"' then Ok((String(b[..m]), m + 1)) else Err(NonterminatedString)
  }

  /** `v` can be sliced, reaches the end of its source, and reads `a`. */
  ghost predicate Reads(v: SpannedStr, a: string) {
    v.Sliceable() && v.endByte == ByteLen(v.src) && v.Substring() == a
  }

  /** The view of `src` from code point `k` to the end. */
  function TailView(src: string, k: nat): (v: SpannedStr)
    requires k <= |src|
    ensures Reads(v, src[k..])
  {
    CodePointIndexOfOffset(src, k);
    EndIsBoundary(src);
    OffsetBound(src, k);
    SpannedStr(src, Offset(src, k), ByteLen(src))
  }

  lemma LexSubstring(src: string, p: (char, nat) -> bool)
    ensures Lex(src, p).Substring() == src[..RunLength(src, p)]
  {
    var n := RunLength(src, p);
    CodePointIndexOfOffset(src, n);
    if n > 0 {
      OffsetStrict(src, 0, n);
    }
  }

  lemma LexRemaining(src: string, p: (char, nat) -> bool)
    ensures var n := RunLength(src, p);
      Lex(src, p).Remaining() == if n < |src| then Some(TailView(src, n)) else None
  {
    var n := RunLength(src, p);
    OffsetBound(src, n);
  }

  /** `skip(n)` of a view that reaches the end of its source drops `n` code points. */
  lemma SkipReads(v: SpannedStr, a: string, n: nat)
    requires Reads(v, a)
    ensures v.Skip(n).Some? <==> n < |a|
    ensures n < |a| ==> Reads(v.Skip(n).value, a[n..])
  {
    if n < |a| {
      var src := v.src;
      var i := CodePointIndex(src, v.startByte).value;
      EndIsBoundary(src);
      assert a == src[i..|src|];
      OffsetSlice(src, i, |src|, n);
      CodePointIndexOfOffset(src, i + n);
      OffsetBound(src, i + n);
      assert a[n..] == src[i + n..|src|];
    }
  }

  /** What a result of `lex_token` says, on code points: token, count consumed, remainder. */
  ghost predicate Agrees(s: string, r: Result<(Token, Option<SpannedStr>), LexError>, q: Result<(Token, nat), LexError>) {
    && (r.Err? <==> q.Err?)
    && (r.Err? ==> r.error == q.error)
    && (r.Ok? ==>
          && r.value.0 == q.value.0
          && q.value.1 <= |s|
          && (r.value.1.Some? ==> r.value.1.value.Sliceable())
          && (r.value.1.None? <==> q.value.1 == |s|)
          && Remainder(r.value.1) == s[q.value.1..])
  }

  /** A token with its view of the rest agrees with the token and the index where the rest starts. */
  lemma AgreesOk(s: string, t: Token, o: Option<SpannedStr>, n: nat)
    requires n <= |s| && (o.None? <==> n == |s|)
    requires o.Some? ==> o.value.Sliceable() && o.value.Substring() == s[n..]
    ensures Agrees(s, Ok((t, o)), Ok((t, n)))
  {
  }

  /** Agreement on a suffix carries over to the whole string, counts shifted. */
  lemma AgreesShift(s: string, k: nat, r: Result<(Token, Option<SpannedStr>), LexError>, q: Result<(Token, nat), LexError>)
    requires k <= |s| && Agrees(s[k..], r, q)
    ensures Agrees(s, r, Shift(q, k))
  {
    if r.Ok? {
      assert s[k..][q.value.1..] == s[k + q.value.1..];
    }
  }

  lemma TokenAtIdent(span: SpannedStr, c: char, u: UnicodeProps)
    requires span.Sliceable() && IsIdentStart(u, c)
    ensures var data := Lex(span.Substring(), IdentMatcher(u));
      TokenAt(span, c, u) == Ok((Ident(data.Substring()), data.Remaining()))
  {
  }

  lemma TokenAtPunctuation(span: SpannedStr, c: char, u: UnicodeProps)
    requires span.Sliceable() && Punctuation(c).Some? && !IsIdentStart(u, c)
    ensures TokenAt(span, c, u) == Ok((Punctuation(c).value, span.Skip(1)))
  {
  }

  lemma TokenAtQuote(span: SpannedStr, c: char, u: UnicodeProps)
    requires span.Sliceable() && c == '"' && Punctuation(c).None? && !IsIdentStart(u, c)
    ensures TokenAt(span, c, u) == StringAt(span)
  {
  }

  lemma TokenAtInvalid(span: SpannedStr, c: char, u: UnicodeProps)
    requires span.Sliceable() && c != '"' && Punctuation(c).None? && !IsIdentStart(u, c)
    ensures TokenAt(span, c, u) == Err(InvalidChar(c))
  {
  }

  lemma IdentAgrees(v: SpannedStr, a: string, u: UnicodeProps)
    requires Reads(v, a) && a != [] && IsIdentStart(u, a[0])
    ensures Agrees(a, TokenAt(v, a[0], u), ClassifyToken(a, u))
  {
    var m := RunLength(a, IdentMatcher(u));
    assert ClassifyToken(a, u) == Ok((Ident(a[..m]), m));
    TokenAtIdent(v, a[0], u);
    LexSubstring(a, IdentMatcher(u));
    LexRemaining(a, IdentMatcher(u));
    AgreesOk(a, Ident(a[..m]), Lex(a, IdentMatcher(u)).Remaining(), m);
  }

  lemma PunctuationAgrees(v: SpannedStr, a: string, u: UnicodeProps)
    requires Reads(v, a) && a != [] && !IsIdentStart(u, a[0]) && Punctuation(a[0]).Some?
    ensures Agrees(a, TokenAt(v, a[0], u), ClassifyToken(a, u))
  {
    var t := Punctuation(a[0]).value;
    assert ClassifyToken(a, u) == Ok((t, 1));
    TokenAtPunctuation(v, a[0], u);
    SkipReads(v, a, 1);
    AgreesOk(a, t, v.Skip(1), 1);
  }

  /** The literal body that `lex_token` reads after the opening quote. */
  lemma StringBodyAgrees(w: SpannedStr, b: string)
    requires w.Sliceable() && w.Substring() == b
    ensures Agrees(b, StringBody(w), QuotedRest(b))
  {
    var m := RunLength(b, StringMatcher);
    LexSubstring(b, StringMatcher);
    LexRemaining(b, StringMatcher);
    if m < |b| {
      var rest := TailView(b, m);
      assert rest.FirstChar() == Some(b[m]);
      if b[m] == '"' {
        SkipReads(rest, b[m..], 1);
        assert b[m..][1..] == b[m + 1..];
        AgreesOk(b, String(b[..m]), rest.Skip(1), m + 1);
      }
    }
  }

  lemma StringAtSkip(span: SpannedStr, afterQuote: SpannedStr)
    requires span.Sliceable() && span.Skip(1) == Some(afterQuote)
    ensures StringAt(span) == StringBody(afterQuote)
  {
  }

  lemma QuoteAgrees(v: SpannedStr, a: string, u: UnicodeProps)
    requires Reads(v, a) && a != [] && a[0] == '"' && Punctuation(a[0]).None? && !IsIdentStart(u, a[0])
    ensures Agrees(a, TokenAt(v, a[0], u), ClassifyToken(a, u))
  {
    assert ClassifyToken(a, u) == Shift(QuotedRest(a[1..]), 1);
    TokenAtQuote(v, a[0], u);
    SkipReads(v, a, 1);
    if |a| > 1 {
      var w := v.Skip(1).value;
      StringAtSkip(v, w);
      StringBodyAgrees(w, a[1..]);
      AgreesShift(a, 1, StringBody(w), QuotedRest(a[1..]));
    }
  }

  lemma InvalidAgrees(v: SpannedStr, a: string, u: UnicodeProps)
    requires Reads(v, a) && a != [] && a[0] != '"' && Punctuation(a[0]).None? && !IsIdentStart(u, a[0])
    ensures Agrees(a, TokenAt(v, a[0], u), ClassifyToken(a, u))
  {
    assert ClassifyToken(a, u) == Err(InvalidChar(a[0]));
    TokenAtInvalid(v, a[0], u);
  }

  /** The match of `lex_token` agrees with ClassifyToken on the text after the whitespace. */
  lemma TokenAgrees(v: SpannedStr, a: string, u: UnicodeProps)
    requires Reads(v, a) && a != []
    ensures Agrees(a, TokenAt(v, a[0], u), ClassifyToken(a, u))
  {
    var c := a[0];
    if IsIdentStart(u, c) {
      IdentAgrees(v, a, u);
    } else if Punctuation(c).Some? {
      PunctuationAgrees(v, a, u);
    } else if c == '"' {
      QuoteAgrees(v, a, u);
    } else {
      InvalidAgrees(v, a, u);
    }
  }

  /** `lex_token` looks at the first code point after the whitespace. */
  lemma LexTokenUnfold(s: string, u: UnicodeProps)
    ensures var k := RunLength(s, WhitespaceMatcher);
      LexToken(s, u) == if k == |s| then Err(EndOfInput) else TokenAt(TailView(s, k), s[k], u)
  {
    var k := RunLength(s, WhitespaceMatcher);
    LexRemaining(s, WhitespaceMatcher);
    if k < |s| {
      assert TailView(s, k).FirstChar() == Some(s[k]);
    }
  }

  /** `lex_token` agrees with Classify, and its remainder is the text after the token. */
  lemma LexTokenClassifies(s: string, u: UnicodeProps)
    ensures Agrees(s, LexToken(s, u), Classify(s, u))
  {
    var k := RunLength(s, WhitespaceMatcher);
    LexTokenUnfold(s, u);
    if k < |s| {
      var a := s[k..];
      var v := TailView(s, k);
      assert a[0] == s[k];
      TokenAgrees(v, a, u);
      AgreesShift(s, k, TokenAt(v, a[0], u), ClassifyToken(a, u));
    }
  }

  /** Every token spans at least one code point. */
  lemma ClassifyTokenProgress(a: string, u: UnicodeProps)
    requires a != []
    ensures ClassifyToken(a, u).Ok? ==> ClassifyToken(a, u).value.1 > 0
  {
    if IsIdentStart(u, a[0]) {
      assert IdentMatcher(u)(a[0], 0);
    }
  }

  /** Each token consumes at least one code point, so lexing the remainder terminates. */
  lemma LexTokenProgress(s: string, u: UnicodeProps)
    ensures var r := LexToken(s, u);
      r.Ok? && r.value.1.Some? ==>
        r.value.1.value.Sliceable() && 0 < |Remainder(r.value.1)| < |s|
  {
    LexTokenClassifies(s, u);
    var k := RunLength(s, WhitespaceMatcher);
    if k < |s| {
      ClassifyTokenProgress(s[k..], u);
    }
  }

  /** Prefixes `ts` to a successful token list. */
  function Prepend(ts: seq<Token>, r: Result<seq<Token>, LexError>): (q: Result<seq<Token>, LexError>) {
    match r
    case Ok(rest) => Ok(ts + rest)
    case Err(e) => Err(e)
  }

  /**
   * The tokens `TokenStream::new` collects after the first one: lexing the
   * remainder stops cleanly at EndOfInput and aborts on any other error.
   */
  function LexRest(rest: Option<SpannedStr>, u: UnicodeProps): Result<seq<Token>, LexError>
    requires rest.Some? ==> rest.value.Sliceable()
    decreases if rest.Some? then |rest.value.Substring()| + 1 else 0
  {
    match rest
    case None => Ok([])
    case Some(span) =>
      match LexToken(span.Substring(), u)
      case Err(EndOfInput) => Ok([])
      case Err(e) => Err(e)
      case Ok((t, next)) =>
        LexTokenProgress(span.Substring(), u);
        Prepend([t], LexRest(next, u))
  }

  /** Prefixing twice is prefixing the concatenation. */
  lemma PrependPrepend(a: seq<Token>, b: seq<Token>, r: Result<seq<Token>, LexError>)
    ensures Prepend(a, Prepend(b, r)) == Prepend(a + b, r)
  {
    if r.Ok? {
      assert a + (b + r.value) == (a + b) + r.value;
    }
  }

  /** One step of LexRest on a token that lexed. */
  lemma LexRestOk(span: SpannedStr, u: UnicodeProps, t: Token, next: Option<SpannedStr>)
    requires span.Sliceable() && LexToken(span.Substring(), u) == Ok((t, next))
    ensures next.Some? ==> next.value.Sliceable()
    ensures LexRest(Some(span), u) == Prepend([t], LexRest(next, u))
  {
    LexTokenProgress(span.Substring(), u);
  }

  /** The token list of `TokenStream::new`: the first `lex_token` error of any kind is returned. */
  function Tokenize(src: string, u: UnicodeProps): Result<seq<Token>, LexError> {
    match LexToken(src, u)
    case Err(e) => Err(e)
    case Ok((t, rest)) =>
      LexTokenProgress(src, u);
      Prepend([t], LexRest(rest, u))
  }

  /** The whole input lexed up front, and a cursor that only moves forward. */
  class TokenStream {
    const tokens: seq<Token>
    var index: nat

    ghost predicate Valid()
      reads this
    {
      index <= |tokens|
    }

    /** The tokens not yet handed out. */
    ghost function Rest(): seq<Token>
      reads this
      requires Valid()
    {
      tokens[index..]
    }

    constructor FromTokens(tokens: seq<Token>)
      ensures Valid() && this.tokens == tokens && index == 0
    {
      this.tokens := tokens;
      index := 0;
    }

    /** `TokenStream::new`: fails with the lexer's error, or holds every token of `src`. */
    static method New(src: string, u: UnicodeProps) returns (r: Result<TokenStream, LexError>)
      ensures r.Err? <==> Tokenize(src, u).Err?
      ensures r.Err? ==> r.error == Tokenize(src, u).error
      ensures r.Ok? ==> fresh(r.value) && r.value.Valid() && r.value.index == 0
      ensures r.Ok? ==> r.value.tokens == Tokenize(src, u).value
    {
      var first := LexToken(src, u);
      if first.Err? {
        return Err(first.error);
      }
      LexTokenProgress(src, u);
      var tokens := [first.value.0];
      var remaining := first.value.1;
      while remaining.Some?
        invariant remaining.Some? ==> remaining.value.Sliceable()
        invariant Tokenize(src, u) == Prepend(tokens, LexRest(remaining, u))
        decreases if remaining.Some? then |remaining.value.Substring()| + 1 else 0
      {
        var span := remaining.value;
        var next := LexToken(span.Substring(), u);
        if next.Err? {
          if next.error == EndOfInput {
            assert tokens + [] == tokens;
            break;
          }
          return Err(next.error);
        }
        LexRestOk(span, u, next.value.0, next.value.1);
        LexTokenProgress(span.Substring(), u);
        PrependPrepend(tokens, [next.value.0], LexRest(next.value.1, u));
        tokens := tokens + [next.value.0];
        remaining := next.value.1;
      }
      assert tokens + [] == tokens;
      var stream := new TokenStream.FromTokens(tokens);
      return Ok(stream);
    }

    /** `peek`: the next token, if any, without moving the cursor. */
    function Peek(): (r: Option<Token>)
      reads this
      ensures Valid() ==> (r.None? <==> Rest() == [])
      ensures Valid() && r.Some? ==> r.value == Rest()[0]
    {
      if index < |tokens| then Some(tokens[index]) else None
    }

    /** `next`: what `peek` returns; the cursor moves past it when there was one. */
    method Next() returns (r: Option<Token>)
      requires Valid()
      modifies this
      ensures Valid()
      ensures r == old(Peek())
      ensures index == old(index) + (if r.Some? then 1 else 0)
      ensures Rest() == if r.Some? then old(Rest())[1..] else old(Rest())
    {
      r := Peek();
      if r.Some? {
        index := index + 1;
      }
    }
  }
}
