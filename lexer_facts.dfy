/**
 * Properties of the tokenizer of code_gen/src/lex.rs: what each `SpannedStr`
 * operation reads, the maximality of `lex`, and the outcome of `lex_token`
 * on each shape of input.
 */
module LexerFacts {
  import opened Wrappers
  import opened Utf8
  import opened Chars
  import opened Lexer

  /** The code points of `src`, from index `k` on, whose first byte lies in `[lo, hi)`. */
  ghost function CodePointsIn(src: string, lo: nat, hi: nat, k: nat): string
    requires k <= |src|
    decreases |src| - k
  {
    if k == |src| then []
    else (if lo <= Offset(src, k) < hi then [src[k]] else []) + CodePointsIn(src, lo, hi, k + 1)
  }

  lemma {:induction false} CodePointsInEmpty(src: string, lo: nat, hi: nat, k: nat)
    requires k <= |src| && hi <= lo
    ensures CodePointsIn(src, lo, hi, k) == []
    decreases |src| - k
  {
    if k < |src| {
      CodePointsInEmpty(src, lo, hi, k + 1);
    }
  }

  lemma {:induction false} CodePointsInRange(src: string, i: nat, j: nat, k: nat)
    requires i <= j <= |src| && k <= |src|
    ensures CodePointsIn(src, Offset(src, i), Offset(src, j), k)
      == if k <= i then src[i..j] else if k <= j then src[k..j] else []
    decreases |src| - k
  {
    if k < |src| {
      CodePointsInRange(src, i, j, k + 1);
      if k < i {
        OffsetStrict(src, k, i);
      } else if k < j {
        OffsetStrict(src, k, j);
        if i < k {
          OffsetStrict(src, i, k);
        }
        assert [src[k]] + src[k + 1..j] == src[k..j];
      } else if j < k {
        OffsetStrict(src, j, k);
      }
    }
  }

  /** `substring` reads exactly the code points that start inside the span; a degenerate span reads nothing. */
  lemma SubstringIsSpan(v: SpannedStr)
    requires v.Sliceable()
    ensures v.Substring() == CodePointsIn(v.src, v.startByte, v.endByte, 0)
    ensures v.startByte >= v.endByte ==> v.Substring() == []
  {
    if v.startByte >= v.endByte {
      CodePointsInEmpty(v.src, v.startByte, v.endByte, 0);
    } else {
      var i := CodePointIndex(v.src, v.startByte).value;
      var j := CodePointIndex(v.src, v.endByte).value;
      OffsetOrder(v.src, i, j);
      CodePointsInRange(v.src, i, j, 0);
    }
  }

  /** `remaining` is None exactly at or past the end; otherwise it reads from the end of the span to the end of the source. */
  lemma RemainingSpan(v: SpannedStr)
    ensures v.Remaining().None? <==> v.endByte >= ByteLen(v.src)
    ensures v.Remaining().Some? ==>
      var w := v.Remaining().value;
      w.src == v.src && w.startByte == v.endByte && w.endByte == ByteLen(v.src)
    ensures v.Remaining().Some? && IsCharBoundary(v.src, v.endByte) ==>
      Reads(v.Remaining().value, v.src[CodePointIndex(v.src, v.endByte).value..])
  {
    if v.Remaining().Some? && IsCharBoundary(v.src, v.endByte) {
      var j := CodePointIndex(v.src, v.endByte).value;
      EndIsBoundary(v.src);
      OffsetBound(v.src, j);
      assert j < |v.src|;
    }
  }

  /** `first_char` is None exactly on an empty substring, and otherwise its first code point. */
  lemma FirstCharOfSubstring(v: SpannedStr)
    requires v.Sliceable()
    ensures v.FirstChar().None? <==> v.Substring() == []
    ensures v.FirstChar().Some? ==> v.FirstChar().value == v.Substring()[0]
  {
  }

  /** The first code point of a non-empty view is the one its start byte begins. */
  lemma FirstCharAt(v: SpannedStr)
    requires v.Sliceable() && v.FirstChar().Some?
    ensures var i := CodePointIndex(v.src, v.startByte).value;
      i < |v.src| && Offset(v.src, i) == v.startByte && v.FirstChar().value == v.src[i]
  {
    var i := CodePointIndex(v.src, v.startByte).value;
    var j := CodePointIndex(v.src, v.endByte).value;
    OffsetOrder(v.src, i, j);
  }

  /** No code point starts strictly inside the encoding of code point `i`. */
  lemma NoBoundaryInside(src: string, i: nat, b: nat)
    requires i < |src| && Offset(src, i) < b < Offset(src, i + 1)
    ensures !IsCharBoundary(src, b)
  {
    var r := CodePointIndex(src, b);
    if r.Some? {
      OffsetOrder(src, i, r.value);
      OffsetOrder(src, r.value, i + 1);
    }
  }

  /** The first code point occupies `Width(c)` bytes: no boundary falls inside it, and one follows it. */
  lemma FirstCharWidth(v: SpannedStr)
    requires v.Sliceable() && v.FirstChar().Some?
    ensures IsCharBoundary(v.src, v.startByte + Width(v.FirstChar().value))
    ensures forall b :: v.startByte < b < v.startByte + Width(v.FirstChar().value) ==> !IsCharBoundary(v.src, b)
  {
    var c := v.FirstChar().value;
    var i := CodePointIndex(v.src, v.startByte).value;
    FirstCharAt(v);
    assert Offset(v.src, i + 1) == v.startByte + Width(c);
    CodePointIndexOfOffset(v.src, i + 1);
    forall b | v.startByte < b < v.startByte + Width(c)
      ensures !IsCharBoundary(v.src, b)
    {
      NoBoundaryInside(v.src, i, b);
    }
  }

  /**
   * `skip(n)` is Some exactly when the substring has more than `n` code
   * points; the view it returns starts at the byte offset of code point `n`
   * of the substring and ends at the end of the source.
   */
  lemma SkipSpan(v: SpannedStr, n: nat)
    requires v.Sliceable()
    ensures v.Skip(n).Some? <==> n < |v.Substring()|
    ensures v.Skip(n).Some? ==>
      var w := v.Skip(n).value;
      && w.src == v.src
      && w.startByte == v.startByte + Offset(v.Substring(), n)
      && w.endByte == ByteLen(v.src)
  {
  }

  /** The view `skip(n)` returns reads the source from code point `n` of the substring on. */
  lemma SkipText(v: SpannedStr, n: nat)
    requires v.Sliceable() && n < |v.Substring()|
    ensures var i := CodePointIndex(v.src, v.startByte).value;
      i + n < |v.src| && Reads(v.Skip(n).value, v.src[i + n..])
  {
    var src := v.src;
    var i := CodePointIndex(src, v.startByte).value;
    var j := CodePointIndex(src, v.endByte).value;
    OffsetOrder(src, i, j);
    OffsetSlice(src, i, j, n);
    CodePointIndexOfOffset(src, i + n);
    EndIsBoundary(src);
    OffsetBound(src, i + n);
    assert v.Skip(n).value == SpannedStr(src, Offset(src, i + n), ByteLen(src));
    assert src[i + n..|src|] == src[i + n..];
  }

  /** `skip(n)` of an empty view is None. */
  lemma SkipEmpty(v: SpannedStr, n: nat)
    requires v.Sliceable() && v.Substring() == []
    ensures v.Skip(n) == None
  {
  }

  /** Two views of the same source that reach its end and read the same non-empty text are equal. */
  lemma ReadsUnique(v: SpannedStr, w: SpannedStr, a: string)
    requires v.src == w.src && Reads(v, a) && Reads(w, a) && a != []
    ensures v == w
  {
    var src := v.src;
    var i := CodePointIndex(src, v.startByte).value;
    var k := CodePointIndex(src, w.startByte).value;
    EndIsBoundary(src);
    assert |src[i..|src|]| == |src[k..|src|]|;
  }

  /** On a view that reaches the end of its source, skipping `m` then `n` code points is skipping `m + n`. */
  lemma SkipCompose(v: SpannedStr, m: nat, n: nat)
    requires v.Sliceable() && v.endByte == ByteLen(v.src)
    ensures v.Skip(m).None? ==> v.Skip(m + n).None?
    ensures v.Skip(m).Some? ==> v.Skip(m).value.Skip(n) == v.Skip(m + n)
  {
    var a := v.Substring();
    SkipReads(v, a, m);
    SkipReads(v, a, m + n);
    if m < |a| {
      var w := v.Skip(m).value;
      SkipReads(w, a[m..], n);
      if m + n < |a| {
        assert a[m..][n..] == a[m + n..];
        ReadsUnique(w.Skip(n).value, v.Skip(m + n).value, a[m + n..]);
      }
    }
  }

  /** `skip` moves the end to the end of the source, so on a shorter view two skips can reach past one. */
  lemma SkipComposeShortView()
    ensures var v := SpannedStr("abc", 0, 2);
      v.Skip(1).Some? && v.Skip(1).value.Skip(1).Some? && v.Skip(2).None?
  {
    var v := SpannedStr("abc", 0, 2);
    assert Offset("abc", 2) == 2;
    CodePointIndexOfOffset("abc", 0);
    CodePointIndexOfOffset("abc", 2);
    assert v.Substring() == "ab";
    SkipText(v, 1);
    SkipReads(v.Skip(1).value, "bc", 1);
  }

  /**
   * `lex` spans a prefix from byte 0: every code point in it satisfies the
   * matcher, and the span ends at the end of the source or at a code point
   * the matcher rejects.
   */
  lemma LexMaximal(src: string, p: (char, nat) -> bool)
    ensures var r := Lex(src, p); var n := |r.Substring()|;
      && r.src == src && r.startByte == 0 && r.Sliceable()
      && n <= |src| && r.endByte == Offset(src, n)
      && r.Substring() == src[..n]
      && (forall j :: 0 <= j < n ==> p(src[j], j))
      && (n == |src| || !p(src[n], n))
  {
    LexSubstring(src, p);
  }

  /** The unique length that RunLength can have. */
  lemma {:induction false} RunFromIs(s: string, p: (char, nat) -> bool, k: nat, n: nat)
    requires k <= n <= |s|
    requires forall j :: k <= j < n ==> p(s[j], j)
    requires n == |s| || !p(s[n], n)
    ensures RunFrom(s, p, k) == n
    decreases n - k
  {
    if k < n {
      RunFromIs(s, p, k + 1, n);
    }
  }

  lemma RunLengthIs(s: string, p: (char, nat) -> bool, n: nat)
    requires n <= |s|
    requires forall j :: 0 <= j < n ==> p(s[j], j)
    requires n == |s| || !p(s[n], n)
    ensures RunLength(s, p) == n
  {
    RunFromIs(s, p, 0, n);
  }

  predicate AllWhitespace(w: string) {
    forall i :: 0 <= i < |w| ==> IsWhitespace(w[i])
  }

  /** `lex_token` reports EndOfInput exactly on input that is empty or all whitespace. */
  lemma LexTokenEndOfInput(s: string, u: UnicodeProps)
    ensures LexToken(s, u) == Err(EndOfInput) <==> AllWhitespace(s)
  {
    LexTokenClassifies(s, u);
    var k := RunLength(s, WhitespaceMatcher);
    if k < |s| {
      ClassifyTokenNotEnd(s[k..], u);
      assert !IsWhitespace(s[k]);
    }
  }

  lemma ClassifyTokenNotEnd(a: string, u: UnicodeProps)
    requires a != []
    ensures ClassifyToken(a, u) != Err(EndOfInput)
  {
  }

  /** The whitespace in front of a non-whitespace code point is skipped. */
  lemma SkipsWhitespace(w: string, t: string)
    requires AllWhitespace(w) && t != [] && !IsWhitespace(t[0])
    ensures RunLength(w + t, WhitespaceMatcher) == |w|
    ensures (w + t)[|w|..] == t
  {
    RunLengthIs(w + t, WhitespaceMatcher, |w|);
  }

  /** After the whitespace, a character that starts no token gives InvalidChar for that character. */
  lemma LexTokenInvalidChar(w: string, c: char, rest: string, u: UnicodeProps)
    requires AllWhitespace(w) && !IsWhitespace(c)
    requires !IsIdentStart(u, c) && Punctuation(c).None? && c != '"'
    ensures LexToken(w + [c] + rest, u) == Err(InvalidChar(c))
  {
    var s := w + [c] + rest;
    assert s == w + ([c] + rest);
    SkipsWhitespace(w, [c] + rest);
    assert ClassifyToken([c] + rest, u) == Err(InvalidChar(c));
    LexTokenClassifies(s, u);
  }

  /** `lex_token` on `s` returns token `tok` and a view that reads `rest`, None when `rest` is empty. */
  ghost predicate LexesTo(s: string, u: UnicodeProps, tok: Token, rest: string) {
    var r := LexToken(s, u);
    && r.Ok? && r.value.0 == tok
    && (r.value.1.Some? ==> r.value.1.value.Sliceable())
    && (r.value.1.None? <==> rest == [])
    && Remainder(r.value.1) == rest
  }

  /** Leading whitespace only shifts the classification of what follows it. */
  lemma ClassifyAfterWhitespace(w: string, t: string, u: UnicodeProps)
    requires AllWhitespace(w) && t != [] && !IsWhitespace(t[0])
    ensures Classify(w + t, u) == Shift(ClassifyToken(t, u), |w|)
  {
    SkipsWhitespace(w, t);
  }

  lemma ClassifyAfterWhitespaceOk(w: string, t: string, u: UnicodeProps, tok: Token, m: nat)
    requires AllWhitespace(w) && t != [] && !IsWhitespace(t[0])
    requires ClassifyToken(t, u) == Ok((tok, m))
    ensures Classify(w + t, u) == Ok((tok, |w| + m))
  {
    ClassifyAfterWhitespace(w, t, u);
  }

  /** `lex_token` on whitespace followed by a token of `m` code points returns that token and a view of the rest. */
  lemma LexTokenAfter(w: string, t: string, u: UnicodeProps, tok: Token, m: nat, rest: string)
    requires AllWhitespace(w) && t != [] && !IsWhitespace(t[0])
    requires ClassifyToken(t, u) == Ok((tok, m)) && m <= |t| && t[m..] == rest
    ensures LexesTo(w + t, u, tok, rest)
  {
    DropAfter(w, t, m);
    ClassifyAfterWhitespaceOk(w, t, u, tok, m);
    LexTokenIs(w + t, u, tok, |w| + m);
  }

  lemma DropAfter(w: string, t: string, m: nat)
    requires m <= |t|
    ensures (w + t)[|w| + m..] == t[m..]
  {
  }

  /** The outcome of `lex_token` on `s`, read off the classification it agrees with. */
  lemma LexTokenIs(s: string, u: UnicodeProps, t: Token, n: nat)
    requires Classify(s, u) == Ok((t, n))
    ensures n <= |s| && LexesTo(s, u, t, s[n..])
  {
    LexTokenClassifies(s, u);
  }

  /**
   * After the whitespace, an identifier start begins an identifier token
   * holding the longest run of identifier characters; the view after it
   * reads the rest, and is None when nothing follows.
   */
  lemma LexTokenIdent(w: string, x: string, rest: string, u: UnicodeProps)
    requires Coherent(u) && AllWhitespace(w)
    requires x != [] && IsIdentStart(u, x[0])
    requires forall i :: 0 <= i < |x| ==> IsIdentChar(u, x[i])
    requires rest == [] || !IsIdentChar(u, rest[0])
    ensures LexesTo(w + x + rest, u, Ident(x), rest)
  {
    var t := x + rest;
    assert w + x + rest == w + t;
    assert !IsWhitespace(x[0]);
    IdentToken(x, rest, u);
    LexTokenAfter(w, t, u, Ident(x), |x|, rest);
  }

  lemma IdentToken(x: string, rest: string, u: UnicodeProps)
    requires x != [] && IsIdentStart(u, x[0])
    requires forall i :: 0 <= i < |x| ==> IsIdentChar(u, x[i])
    requires rest == [] || !IsIdentChar(u, rest[0])
    ensures ClassifyToken(x + rest, u) == Ok((Ident(x), |x|)) && (x + rest)[|x|..] == rest
  {
    var t := x + rest;
    RunLengthIs(t, IdentMatcher(u), |x|);
    assert t[..|x|] == x;
  }

  /** After the whitespace, a punctuation character is its one-character token. */
  lemma LexTokenPunctuation(w: string, c: char, rest: string, u: UnicodeProps)
    requires Coherent(u) && AllWhitespace(w) && Punctuation(c).Some?
    ensures LexesTo(w + [c] + rest, u, Punctuation(c).value, rest)
  {
    var t := [c] + rest;
    assert w + [c] + rest == w + t;
    assert !IsWhitespace(c) && !IsIdentStart(u, c);
    assert t[1..] == rest;
    LexTokenAfter(w, t, u, Punctuation(c).value, 1, rest);
  }

  /** Text that may stand inside a string literal. */
  predicate IsLiteralBody(x: string) {
    forall i :: 0 <= i < |x| ==> x[i] != '"' && x[i] != '\n'
  }

  lemma QuotedToken(x: string, rest: string, u: UnicodeProps)
    requires Coherent(u) && IsLiteralBody(x)
    ensures var t := ['"'] + x + ['"'] + rest;
      ClassifyToken(t, u) == Ok((String(x), |x| + 2)) && t[|x| + 2..] == rest
  {
    var b := x + ['"'] + rest;
    var t := ['"'] + b;
    assert !IsIdentStart(u, '"');
    RunLengthIs(b, StringMatcher, |x|);
    assert b[..|x|] == x;
    assert t[1..] == b;
    assert QuotedRest(b) == Ok((String(x), |x| + 1));
    assert ['"'] + x + ['"'] + rest == t;
  }

  /** A quote, a body without quote or newline, and a closing quote lex as a string token of that body. */
  lemma LexTokenString(w: string, x: string, rest: string, u: UnicodeProps)
    requires Coherent(u) && AllWhitespace(w) && IsLiteralBody(x)
    ensures LexesTo(w + ['"'] + x + ['"'] + rest, u, String(x), rest)
  {
    var t := ['"'] + x + ['"'] + rest;
    assert w + ['"'] + x + ['"'] + rest == w + t;
    QuotedToken(x, rest, u);
    LexTokenAfter(w, t, u, String(x), |x| + 2, rest);
  }

  /**
   * A quote whose body meets a newline or the end of the input before a
   * closing quote is an unterminated string, the lone quote included.
   */
  lemma LexTokenUnterminated(w: string, x: string, rest: string, u: UnicodeProps)
    requires Coherent(u) && AllWhitespace(w) && IsLiteralBody(x)
    requires rest == [] || rest[0] == '\n'
    ensures LexToken(w + ['"'] + x + rest, u) == Err(NonterminatedString)
  {
    var t := ['"'] + (x + rest);
    assert w + ['"'] + x + rest == w + t;
    UnterminatedToken(x, rest, u);
    ClassifyAfterWhitespace(w, t, u);
    assert Classify(w + t, u) == Err(NonterminatedString);
    LexTokenClassifies(w + t, u);
  }

  lemma UnterminatedToken(x: string, rest: string, u: UnicodeProps)
    requires Coherent(u) && IsLiteralBody(x)
    requires rest == [] || rest[0] == '\n'
    ensures ClassifyToken(['"'] + (x + rest), u) == Err(NonterminatedString)
  {
    var b := x + rest;
    var t := ['"'] + b;
    assert !IsIdentStart(u, '"');
    RunLengthIs(b, StringMatcher, |x|);
    assert t[1..] == b;
    assert QuotedRest(b) == Err(NonterminatedString);
  }
}
