/**
 * What `TokenStream::new` collects from a whole input (code_gen/src/lex.rs),
 * stated on code points: a scan that classifies one token after another,
 * and the round trip from tokens written out with separating spaces back
 * to the same tokens.
 */
module TokenizeFacts {
  import opened Wrappers
  import opened Chars
  import opened Lexer
  import opened LexerFacts

  /** Every classified token spans at least one and at most all code points of the input. */
  lemma ClassifyBounds(s: string, u: UnicodeProps)
    ensures Classify(s, u).Ok? ==> 0 < Classify(s, u).value.1 <= |s|
  {
    LexTokenClassifies(s, u);
    var k := RunLength(s, WhitespaceMatcher);
    if k < |s| {
      ClassifyTokenProgress(s[k..], u);
    }
  }

  /** The tokens of `s`, classified one after another until only whitespace is left. */
  ghost function Scan(s: string, u: UnicodeProps): Result<seq<Token>, LexError>
    decreases |s|
  {
    match Classify(s, u)
    case Err(EndOfInput) => Ok([])
    case Err(e) => Err(e)
    case Ok((t, n)) =>
      ClassifyBounds(s, u);
      Prepend([t], Scan(s[n..], u))
  }

  /** The scan ends cleanly at the end of the input: it never fails with EndOfInput. */
  lemma {:induction false} ScanNeverEndOfInput(s: string, u: UnicodeProps)
    ensures Scan(s, u) != Err(EndOfInput)
    decreases |s|
  {
    var q := Classify(s, u);
    if q.Ok? {
      ClassifyBounds(s, u);
      ScanNeverEndOfInput(s[q.value.1..], u);
    }
  }

  /** The loop of `TokenStream::new` after the first token is the scan of what follows it. */
  lemma {:induction false} LexRestScans(o: Option<SpannedStr>, u: UnicodeProps)
    requires o.Some? ==> o.value.Sliceable()
    ensures LexRest(o, u) == Scan(Remainder(o), u)
    decreases if o.Some? then |o.value.Substring()| + 1 else 0
  {
    if o.Some? {
      var text := o.value.Substring();
      LexTokenClassifies(text, u);
      var r := LexToken(text, u);
      if r.Ok? {
        LexTokenProgress(text, u);
        LexRestScans(r.value.1, u);
      }
    } else {
      assert Classify([], u) == Err(EndOfInput);
    }
  }

  /**
   * `TokenStream::new` fails with EndOfInput exactly on input that is empty
   * or all whitespace; on any other input it is the scan.
   */
  lemma TokenizeScans(src: string, u: UnicodeProps)
    ensures AllWhitespace(src) ==> Tokenize(src, u) == Err(EndOfInput)
    ensures !AllWhitespace(src) ==> Tokenize(src, u) == Scan(src, u)
  {
    LexTokenEndOfInput(src, u);
    LexTokenClassifies(src, u);
    var r := LexToken(src, u);
    if r.Ok? {
      LexTokenProgress(src, u);
      LexRestScans(r.value.1, u);
    }
  }

  /** Only the first token can end the input early: later the end of input stops the loop cleanly. */
  lemma LexRestNeverEndOfInput(o: Option<SpannedStr>, u: UnicodeProps)
    requires o.Some? ==> o.value.Sliceable()
    ensures LexRest(o, u) != Err(EndOfInput)
  {
    LexRestScans(o, u);
    ScanNeverEndOfInput(Remainder(o), u);
  }

  /** `TokenStream::new` fails with EndOfInput exactly on input that is empty or all whitespace. */
  lemma TokenizeEndOfInput(src: string, u: UnicodeProps)
    ensures Tokenize(src, u) == Err(EndOfInput) <==> AllWhitespace(src)
  {
    TokenizeScans(src, u);
    ScanNeverEndOfInput(src, u);
  }

  lemma ShiftShift(q: Result<(Token, nat), LexError>, k: nat, j: nat)
    ensures Shift(Shift(q, k), j) == Shift(q, j + k)
  {
  }

  /** Leading whitespace only shifts the count of a classification. */
  lemma ClassifyPastWhitespace(w: string, s: string, u: UnicodeProps)
    requires AllWhitespace(w)
    ensures Classify(w + s, u) == Shift(Classify(s, u), |w|)
  {
    var ws := w + s;
    var k := RunLength(s, WhitespaceMatcher);
    RunLengthIs(ws, WhitespaceMatcher, |w| + k);
    if k < |s| {
      DropAfter(w, s, k);
    }
    ClassifyAfterRun(ws, s, u, |w|, k);
  }

  /** Two inputs that differ only in how much whitespace comes first classify alike, up to the count. */
  lemma ClassifyAfterRun(ws: string, s: string, u: UnicodeProps, d: nat, k: nat)
    requires RunLength(s, WhitespaceMatcher) == k && RunLength(ws, WhitespaceMatcher) == d + k
    requires |ws| == d + |s| && (k < |s| ==> ws[d + k..] == s[k..])
    ensures Classify(ws, u) == Shift(Classify(s, u), d)
  {
    if k < |s| {
      ShiftShift(ClassifyToken(s[k..], u), k, d);
    }
  }

  /** Whitespace before the input changes nothing the scan sees. */
  lemma ScanAfterWhitespace(w: string, s: string, u: UnicodeProps)
    requires AllWhitespace(w)
    ensures Scan(w + s, u) == Scan(s, u)
  {
    ClassifyPastWhitespace(w, s, u);
    var q := Classify(s, u);
    if q.Ok? {
      ScanPastWhitespace(w, s, u, q.value.0, q.value.1);
    } else {
      assert Classify(w + s, u) == q;
      ScanFails(s, u);
      ScanFails(w + s, u);
    }
  }

  lemma ScanPastWhitespace(w: string, s: string, u: UnicodeProps, t: Token, n: nat)
    requires Classify(s, u) == Ok((t, n)) && Classify(w + s, u) == Ok((t, |w| + n))
    ensures Scan(w + s, u) == Scan(s, u)
  {
    var ws := w + s;
    ScanStep(s, u, t, n);
    ScanStep(ws, u, t, |w| + n);
    DropAfter(w, s, n);
    assert ws[|w| + n..] == s[n..];
  }

  /** A scan whose first classification fails ends there: cleanly at EndOfInput, with the error otherwise. */
  lemma ScanFails(s: string, u: UnicodeProps)
    requires Classify(s, u).Err?
    ensures Scan(s, u) == if Classify(s, u).error == EndOfInput then Ok([]) else Err(Classify(s, u).error)
  {
  }

  /** The source text of a token. */
  function Text(t: Token): string {
    match t
    case Ident(x) => x
    case String(x) => ['"'] + x + ['"']
    case Hash => "#"
    case Comma => ","
    case LeftParen => "("
    case RightParen => ")"
    case Colon => ":"
  }

  /** A token that its own text lexes back to: a non-empty identifier, or a literal body without quote or newline. */
  ghost predicate Printable(t: Token, u: UnicodeProps) {
    match t
    case Ident(x) =>
      x != [] && IsIdentStart(u, x[0]) && forall i :: 0 <= i < |x| ==> IsIdentChar(u, x[i])
    case String(x) => IsLiteralBody(x)
    case _ => true
  }

  /** A printable token's text starts with a code point that is not whitespace. */
  lemma TextStart(t: Token, u: UnicodeProps)
    requires Coherent(u) && Printable(t, u)
    ensures Text(t) != [] && !IsWhitespace(Text(t)[0])
  {
    if t.Ident? {
      assert IsIdentStart(u, t.text[0]);
    }
  }

  /** Input that starts with a token classifies as that token, with no whitespace to skip. */
  lemma ClassifyAtStart(t: string, u: UnicodeProps, tok: Token, m: nat)
    requires t != [] && !IsWhitespace(t[0]) && ClassifyToken(t, u) == Ok((tok, m))
    ensures Classify(t, u) == Ok((tok, m))
  {
    RunLengthIs(t, WhitespaceMatcher, 0);
  }

  lemma ClassifyIdentText(x: string, rest: string, u: UnicodeProps)
    requires Coherent(u) && Printable(Ident(x), u)
    requires rest == [] || !IsIdentChar(u, rest[0])
    ensures Classify(x + rest, u) == Ok((Ident(x), |x|))
  {
    assert !IsWhitespace(x[0]);
    IdentToken(x, rest, u);
    ClassifyAtStart(x + rest, u, Ident(x), |x|);
  }

  lemma ClassifyStringText(x: string, rest: string, u: UnicodeProps)
    requires Coherent(u) && IsLiteralBody(x)
    ensures Classify(['"'] + x + ['"'] + rest, u) == Ok((String(x), |x| + 2))
  {
    QuotedToken(x, rest, u);
    ClassifyAtStart(['"'] + x + ['"'] + rest, u, String(x), |x| + 2);
  }

  lemma ClassifyPunctuationText(c: char, rest: string, u: UnicodeProps, tok: Token)
    requires Coherent(u) && Punctuation(c) == Some(tok)
    ensures Classify([c] + rest, u) == Ok((tok, 1))
  {
    assert !IsIdentStart(u, c) && !IsWhitespace(c);
    ClassifyAtStart([c] + rest, u, tok, 1);
  }

  /** The text of a punctuation token is its one character. */
  lemma PunctuationText(t: Token)
    requires !t.Ident? && !t.String?
    ensures |Text(t)| == 1 && Punctuation(Text(t)[0]) == Some(t)
  {
  }

  /**
   * A token's text classifies as that token and spans its text, when what
   * follows cannot continue an identifier.
   */
  lemma ClassifyText(t: Token, rest: string, u: UnicodeProps)
    requires Coherent(u) && Printable(t, u)
    requires t.Ident? ==> rest == [] || !IsIdentChar(u, rest[0])
    ensures Classify(Text(t) + rest, u) == Ok((t, |Text(t)|))
  {
    if t.Ident? {
      ClassifyIdentText(t.text, rest, u);
    } else if t.String? {
      ClassifyStringText(t.text, rest, u);
    } else {
      PunctuationText(t);
      var c := Text(t)[0];
      assert Text(t) == [c];
      ClassifyPunctuationText(c, rest, u, t);
    }
  }

  /** The identifier arm reads a printable identifier: the maximal run of identifier characters. */
  lemma IdentPrintable(a: string, u: UnicodeProps)
    requires a != [] && IsIdentStart(u, a[0])
    ensures var m := RunLength(a, IdentMatcher(u));
            0 < m && Printable(Ident(a[..m]), u)
  {
    assert IdentMatcher(u)(a[0], 0);
  }

  /** The string arm reads a body without quote or newline, closed by a quote. */
  lemma QuotedPrintable(b: string)
    requires QuotedRest(b).Ok?
    ensures var (t, m) := QuotedRest(b).value;
            0 < m <= |b| && t == String(b[..m - 1]) && IsLiteralBody(b[..m - 1]) && b[m - 1] == '"'
  {
    var m := RunLength(b, StringMatcher);
    forall i | 0 <= i < m
      ensures b[..m][i] != '"' && b[..m][i] != '\n'
    {
      assert StringMatcher(b[i], i);
    }
  }

  /** A token read at the start of `a` is printable, and the code points it spans are its text. */
  lemma ClassifyTokenPrintable(a: string, u: UnicodeProps)
    requires a != [] && ClassifyToken(a, u).Ok?
    ensures var (t, m) := ClassifyToken(a, u).value;
            m <= |a| && Printable(t, u) && a[..m] == Text(t)
  {
    var c := a[0];
    if IsIdentStart(u, c) {
      IdentPrintable(a, u);
    } else if Punctuation(c).Some? {
      assert a[..1] == [c];
    } else {
      var b := a[1..];
      QuotedPrintable(b);
      var m := QuotedRest(b).value.1;
      assert a[..m + 1] == [c] + b[..m - 1] + [b[m - 1]];
    }
  }

  /**
   * The other half of the round trip: a token that is read is printable,
   * and the code points it consumed after the whitespace are its text.
   */
  lemma ClassifyPrintable(s: string, u: UnicodeProps)
    requires Classify(s, u).Ok?
    ensures var k := RunLength(s, WhitespaceMatcher);
            var (t, n) := Classify(s, u).value;
            k <= n <= |s| && Printable(t, u) && s[k..n] == Text(t)
  {
    var k := RunLength(s, WhitespaceMatcher);
    var a := s[k..];
    ClassifyTokenPrintable(a, u);
    var m := ClassifyToken(a, u).value.1;
    assert s[k..k + m] == a[..m];
  }

  /**
   * Re-lexing the text a token was read from gives back the same token,
   * spanning all of that text.
   */
  lemma ClassifyRoundTrip(s: string, u: UnicodeProps)
    requires Coherent(u) && Classify(s, u).Ok?
    ensures var k := RunLength(s, WhitespaceMatcher);
            var (t, n) := Classify(s, u).value;
            k <= n <= |s| && Classify(s[k..n], u) == Ok((t, n - k))
  {
    var k := RunLength(s, WhitespaceMatcher);
    var (t, n) := Classify(s, u).value;
    ClassifyPrintable(s, u);
    ClassifyText(t, [], u);
    assert Text(t) + [] == s[k..n];
  }

  /** One step of the scan. */
  lemma ScanStep(s: string, u: UnicodeProps, t: Token, n: nat)
    requires Classify(s, u) == Ok((t, n))
    ensures n <= |s| && Scan(s, u) == Prepend([t], Scan(s[n..], u))
  {
    ClassifyBounds(s, u);
  }

  /** The scan of a token's text and then more text reads the token, then the scan of the rest. */
  lemma ScanText(t: Token, rest: string, u: UnicodeProps)
    requires Coherent(u) && Printable(t, u)
    requires t.Ident? ==> rest == [] || !IsIdentChar(u, rest[0])
    ensures Scan(Text(t) + rest, u) == Prepend([t], Scan(rest, u))
  {
    ClassifyText(t, rest, u);
    var x := Text(t);
    assert (x + rest)[|x|..] == rest;
    ScanStep(x + rest, u, t, |x|);
  }

  /**
   * Tokens written out with the whitespace `gaps[i]` before token `i` and
   * `gaps[|ts|]` after the last one.
   */
  function Layout(ts: seq<Token>, gaps: seq<string>): string
    requires |gaps| == |ts| + 1
  {
    if ts == [] then gaps[0] else gaps[0] + (Text(ts[0]) + Layout(ts[1..], gaps[1..]))
  }

  /**
   * A layout the lexer reads back: printable tokens, whitespace gaps, and a
   * gap that is not empty between two identifiers.
   */
  ghost predicate Readable(ts: seq<Token>, gaps: seq<string>, u: UnicodeProps) {
    && |gaps| == |ts| + 1
    && (forall i :: 0 <= i < |ts| ==> Printable(ts[i], u))
    && (forall i :: 0 <= i < |gaps| ==> AllWhitespace(gaps[i]))
    && (forall i :: 0 < i < |ts| ==> ts[i - 1].Ident? && ts[i].Ident? ==> gaps[i] != [])
  }

  lemma ReadableTail(ts: seq<Token>, gaps: seq<string>, u: UnicodeProps)
    requires ts != [] && Readable(ts, gaps, u)
    ensures Readable(ts[1..], gaps[1..], u)
  {
    var ts', gaps' := ts[1..], gaps[1..];
    forall i | 0 < i < |ts'| && ts'[i - 1].Ident? && ts'[i].Ident?
      ensures gaps'[i] != []
    {
      assert ts[i].Ident? && ts[i + 1].Ident?;
    }
  }

  /** A layout starts with whitespace, with the text of its first token, or is empty. */
  lemma LayoutStart(ts: seq<Token>, gaps: seq<string>, u: UnicodeProps)
    requires Coherent(u) && Readable(ts, gaps, u)
    ensures var s := Layout(ts, gaps);
      s == [] || IsWhitespace(s[0]) || (ts != [] && gaps[0] == [] && Text(ts[0]) != [] && s[0] == Text(ts[0])[0])
  {
    if ts != [] {
      TextStart(ts[0], u);
    }
  }

  /** The text of a token other than an identifier starts with a character that cannot continue one. */
  lemma TextNotIdentChar(t: Token, u: UnicodeProps)
    requires Coherent(u) && !t.Ident?
    ensures Text(t) != [] && !IsIdentChar(u, Text(t)[0])
  {
    if !t.String? {
      PunctuationText(t);
    }
  }

  /** After the first token of a readable layout comes nothing that could continue an identifier. */
  lemma LayoutAfterFirst(ts: seq<Token>, gaps: seq<string>, u: UnicodeProps)
    requires Coherent(u) && ts != [] && Readable(ts, gaps, u)
    ensures var rest := Layout(ts[1..], gaps[1..]);
      ts[0].Ident? ==> rest == [] || !IsIdentChar(u, rest[0])
  {
    var rest := Layout(ts[1..], gaps[1..]);
    ReadableTail(ts, gaps, u);
    LayoutStart(ts[1..], gaps[1..], u);
    if ts[0].Ident? && rest != [] {
      if IsWhitespace(rest[0]) {
        assert !u.isAlphabetic(rest[0]) && !u.isNumeric(rest[0]);
      } else {
        assert ts[1..][0] == ts[1] && gaps[1..][0] == gaps[1];
        assert !ts[1].Ident?;
        TextNotIdentChar(ts[1], u);
      }
    }
  }

  /** Laid out and scanned again, the tokens come back unchanged. */
  lemma {:induction false} ScanLayout(ts: seq<Token>, gaps: seq<string>, u: UnicodeProps)
    requires Coherent(u) && Readable(ts, gaps, u)
    ensures Scan(Layout(ts, gaps), u) == Ok(ts)
  {
    if ts == [] {
      ScanAllWhitespace(gaps[0], u);
    } else {
      ScanLayoutStep(ts, gaps, u);
      ReadableTail(ts, gaps, u);
      ScanLayout(ts[1..], gaps[1..], u);
      assert [ts[0]] + ts[1..] == ts;
    }
  }

  /** The scan of a layout reads its first token, then the layout of the others. */
  lemma ScanLayoutStep(ts: seq<Token>, gaps: seq<string>, u: UnicodeProps)
    requires Coherent(u) && ts != [] && Readable(ts, gaps, u)
    ensures Scan(Layout(ts, gaps), u) == Prepend([ts[0]], Scan(Layout(ts[1..], gaps[1..]), u))
  {
    var rest := Layout(ts[1..], gaps[1..]);
    var body := Text(ts[0]) + rest;
    assert Layout(ts, gaps) == gaps[0] + body;
    LayoutAfterFirst(ts, gaps, u);
    ScanAfterWhitespace(gaps[0], body, u);
    ScanText(ts[0], rest, u);
  }

  /** Whitespace alone scans to no tokens. */
  lemma ScanAllWhitespace(w: string, u: UnicodeProps)
    requires AllWhitespace(w)
    ensures Scan(w, u) == Ok([])
  {
    LexTokenEndOfInput(w, u);
    LexTokenClassifies(w, u);
    ScanFails(w, u);
  }

  /** A layout of at least one token is not all whitespace. */
  lemma LayoutNotBlank(ts: seq<Token>, gaps: seq<string>, u: UnicodeProps)
    requires Coherent(u) && ts != [] && Readable(ts, gaps, u)
    ensures !AllWhitespace(Layout(ts, gaps))
  {
    var s := Layout(ts, gaps);
    var x := Text(ts[0]);
    TextStart(ts[0], u);
    assert s[|gaps[0]|] == x[0];
  }

  /**
   * `TokenStream::new` on a readable layout returns its tokens; on a layout
   * of no tokens it reports EndOfInput.
   */
  lemma TokenizeLayout(ts: seq<Token>, gaps: seq<string>, u: UnicodeProps)
    requires Coherent(u) && Readable(ts, gaps, u)
    ensures Tokenize(Layout(ts, gaps), u) == if ts == [] then Err(EndOfInput) else Ok(ts)
  {
    TokenizeScans(Layout(ts, gaps), u);
    if ts != [] {
      LayoutNotBlank(ts, gaps, u);
      ScanLayout(ts, gaps, u);
    }
  }
}
