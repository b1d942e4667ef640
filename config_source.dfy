/**
 * `RenderPipelineConfig::parse` (code_gen/src/config.rs) on source text:
 * the lexer and the parser together. A record written out with any
 * whitespace between its tokens parses to the slots its fields fill; the
 * only `Lex` errors are the lexer's own; and the examples the source's
 * unit tests check.
 */
module ConfigSource {
  import opened Wrappers
  import opened Chars
  import opened Lexer
  import opened LexerFacts
  import opened TokenizeFacts
  import opened Config
  import opened ConfigFacts

  /** Every token lexes back from its own text. */
  ghost predicate AllPrintable(ts: seq<Token>, u: UnicodeProps) {
    forall i :: 0 <= i < |ts| ==> Printable(ts[i], u)
  }

  /** No two identifiers are next to each other, so no gap between tokens has to be kept open. */
  predicate Separated(ts: seq<Token>) {
    forall i :: 0 < i < |ts| ==> !(ts[i - 1].Ident? && ts[i].Ident?)
  }

  /** A list of tokens that can be glued to others: printable, separated and not ending in an identifier. */
  ghost predicate Piece(ts: seq<Token>, u: UnicodeProps) {
    AllPrintable(ts, u) && Separated(ts) && (ts == [] || !ts[|ts| - 1].Ident?)
  }

  /** Every value of the entries can be written between quotes. */
  predicate Quotable(es: seq<(Field, string)>) {
    forall k :: 0 <= k < |es| ==> IsLiteralBody(es[k].1)
  }

  /** Whitespace between every two tokens, and before and after them. */
  predicate Blank(gaps: seq<string>) {
    forall i :: 0 <= i < |gaps| ==> AllWhitespace(gaps[i])
  }

  // ----- Pieces of a record -----

  lemma PieceJoin(a: seq<Token>, b: seq<Token>, u: UnicodeProps)
    requires Piece(a, u) && Piece(b, u)
    ensures Piece(a + b, u)
  {
    var ab := a + b;
    forall i | 0 <= i < |ab|
      ensures Printable(ab[i], u)
    {
      if i < |a| {
        assert ab[i] == a[i];
      } else {
        assert ab[i] == b[i - |a|];
      }
    }
    forall i | 0 < i < |ab|
      ensures !(ab[i - 1].Ident? && ab[i].Ident?)
    {
      if i < |a| {
        assert ab[i - 1] == a[i - 1] && ab[i] == a[i];
      } else if i == |a| {
        assert ab[i - 1] == a[|a| - 1];
      } else {
        assert ab[i - 1] == b[i - 1 - |a|] && ab[i] == b[i - |a|];
      }
    }
    if b == [] {
      assert ab == a;
    } else {
      assert ab[|ab| - 1] == b[|b| - 1];
    }
  }

  /** The field names and the header are identifiers in any coherent table. */
  lemma NamesPrintable(u: UnicodeProps)
    requires Coherent(u)
    ensures forall f: Field :: Printable(Ident(FieldName(f)), u)
    ensures Printable(Header, u)
  {
    forall f: Field
      ensures Printable(Ident(FieldName(f)), u)
    {
      var x := FieldName(f);
      assert x[0] == if f == Name then 'n' else if f == VsEntry then 'v' else 'f';
    }
  }

  lemma OpeningPiece(u: UnicodeProps)
    requires Coherent(u)
    ensures Piece(Opening, u)
  {
    NamesPrintable(u);
  }

  lemma EntryPiece(e: (Field, string), u: UnicodeProps)
    requires Coherent(u) && IsLiteralBody(e.1)
    ensures Piece(EntryTokens(e), u)
  {
    NamesPrintable(u);
    var ts := EntryTokens(e);
    assert ts[0] == Ident(FieldName(e.0)) && ts[1] == Colon && ts[2] == String(e.1);
  }

  lemma {:induction false} MorePiece(es: seq<(Field, string)>, trailing: bool, u: UnicodeProps)
    requires Coherent(u) && Quotable(es)
    ensures Piece(MoreTokens(es, trailing), u)
    decreases |es|
  {
    if es != [] {
      EntryPiece(es[0], u);
      assert Quotable(es[1..]) by {
        forall k | 0 <= k < |es[1..]|
          ensures IsLiteralBody(es[1..][k].1)
        {
          assert es[1..][k] == es[k + 1];
        }
      }
      MorePiece(es[1..], trailing, u);
      assert Piece([Comma], u);
      PieceJoin([Comma], EntryTokens(es[0]), u);
      PieceJoin([Comma] + EntryTokens(es[0]), MoreTokens(es[1..], trailing), u);
    }
  }

  lemma RecordPiece(es: seq<(Field, string)>, trailing: bool, u: UnicodeProps)
    requires Coherent(u) && Quotable(es)
    ensures Piece(RecordTokens(es, trailing), u)
  {
    OpeningPiece(u);
    if es != [] {
      EntryPiece(es[0], u);
      assert Quotable(es[1..]) by {
        forall k | 0 <= k < |es[1..]|
          ensures IsLiteralBody(es[1..][k].1)
        {
          assert es[1..][k] == es[k + 1];
        }
      }
      MorePiece(es[1..], trailing, u);
      PieceJoin(EntryTokens(es[0]), MoreTokens(es[1..], trailing), u);
    }
    assert Piece([RightParen], u);
    PieceJoin(Opening, EntriesTokens(es, trailing), u);
    PieceJoin(Opening + EntriesTokens(es, trailing), [RightParen], u);
  }

  /** A record with quotable values, laid out with whitespace gaps, is a layout the lexer reads back. */
  lemma RecordReadable(es: seq<(Field, string)>, trailing: bool, gaps: seq<string>, u: UnicodeProps)
    requires Coherent(u) && Quotable(es)
    requires |gaps| == |RecordTokens(es, trailing)| + 1 && Blank(gaps)
    ensures Readable(RecordTokens(es, trailing), gaps, u)
  {
    RecordPiece(es, trailing, u);
  }

  // ----- parse on source text -----

  /**
   * A record written with any whitespace around its tokens parses to what
   * its fields store, taken in order: the first missing slot is reported,
   * and otherwise the configuration of the three values.
   */
  lemma ParseLayout(es: seq<(Field, string)>, trailing: bool, gaps: seq<string>, u: UnicodeProps)
    requires Coherent(u) && Quotable(es)
    requires |gaps| == |RecordTokens(es, trailing)| + 1 && Blank(gaps)
    ensures ParseSource(Layout(RecordTokens(es, trailing), gaps), u) == Finalize(AssignAll(NoFields, es))
  {
    var ts := RecordTokens(es, trailing);
    RecordReadable(es, trailing, gaps, u);
    TokenizeLayout(ts, gaps, u);
    assert ts != [] by {
      assert ts[0] == Hash;
    }
    ParseRecord(es, trailing);
  }

  /** The loop of `parse_struct` fails only with parser errors. */
  lemma {:induction false} FieldsFromNotLex(ts: seq<Token>, i: nat, fs: Fields)
    ensures FieldsFrom(ts, i, fs).Err? ==> !FieldsFrom(ts, i, fs).error.Lex?
    decreases |ts| - i
  {
    if i < |ts| && ts[i] == Comma && !(i + 1 < |ts| && ts[i + 1] == RightParen) {
      FieldsFromField(ts, i, fs);
      if FieldAt(ts, i + 1, fs).Ok? {
        FieldsFromNotLex(ts, FieldAt(ts, i + 1, fs).value.1, FieldAt(ts, i + 1, fs).value.0);
      }
    }
  }

  /** Parsing a token list never reports a lexer error. */
  lemma ParseTokensNotLex(ts: seq<Token>)
    ensures ParseTokens(ts).Err? ==> !ParseTokens(ts).error.Lex?
  {
    if 2 < |ts| && ts[0] == Hash && ts[1] == Header && ts[2] == LeftParen && 3 < |ts| && ts[3].Ident? {
      var r := FieldAt(ts, 3, NoFields);
      if r.Ok? {
        FieldsFromNotLex(ts, r.value.1, r.value.0);
      }
    }
  }

  /**
   * `parse` reports a `Lex` error exactly when the lexer fails, and that
   * error; it reports `Lex(EndOfInput)` exactly on empty or all-whitespace input.
   */
  lemma ParseSourceLex(src: string, u: UnicodeProps)
    ensures (ParseSource(src, u).Err? && ParseSource(src, u).error.Lex?) <==> Tokenize(src, u).Err?
    ensures Tokenize(src, u).Err? ==> ParseSource(src, u) == Err(Lex(Tokenize(src, u).error))
    ensures ParseSource(src, u) == Err(Lex(LexError.EndOfInput)) <==> AllWhitespace(src)
  {
    TokenizeEndOfInput(src, u);
    if Tokenize(src, u).Ok? {
      ParseTokensNotLex(Tokenize(src, u).value);
    }
  }

  // ----- The examples of the unit tests -----

  /** The order in which `parse` checks the slots. */
  function Order(n: nat): Field {
    if n == 0 then Name else if n == 1 then VsEntry else FsEntry
  }

  /** Entries for the first `|es|` slots, each slot once, in the order `parse` checks them. */
  predicate InOrder(es: seq<(Field, string)>) {
    |es| <= 3 && forall k :: 0 <= k < |es| ==> es[k].0 == Order(k)
  }

  /** Entries in order fill the first `|es|` slots with their values and leave the others empty. */
  lemma AssignInOrder(es: seq<(Field, string)>)
    requires InOrder(es)
    ensures AssignAll(NoFields, es) == Fields(
      if |es| > 0 then Some(es[0].1) else None,
      if |es| > 1 then Some(es[1].1) else None,
      if |es| > 2 then Some(es[2].1) else None)
  {
    if es != [] {
      var fs := Fields(Some(es[0].1), None, None);
      assert AssignAll(NoFields, es) == AssignAll(fs, es[1..]);
      if |es| == 1 {
        assert es[1..] == [];
      } else {
        var fs' := fs.(vsEntry := Some(es[1].1));
        assert es[1..][0] == es[1] && es[1..][1..] == es[2..];
        assert AssignAll(fs, es[1..]) == AssignAll(fs', es[2..]);
        if |es| == 2 {
          assert es[2..] == [];
        } else {
          var fs'' := fs'.(fsEntry := Some(es[2].1));
          assert es[2..][0] == es[2] && es[2..][1..] == [];
          assert AssignAll(fs', es[2..]) == AssignAll(fs'', []);
        }
      }
    }
  }

  /** Entries in order fill all three slots with their values, or leave the next slot the first empty one. */
  lemma FinalizeInOrder(es: seq<(Field, string)>)
    requires InOrder(es)
    ensures Finalize(AssignAll(NoFields, es))
      == if |es| < 3 then Err(MissingField(FieldName(Order(|es|))))
         else Ok(RenderPipelineConfig(es[0].1, es[1].1, es[2].1))
  {
    AssignInOrder(es);
  }

  /**
   * `render_pipeline_config_parse`: a record of a name, a vertex entry and
   * a fragment entry, with or without a trailing comma and in any
   * whitespace layout, gives the configuration of its three values.
   */
  lemma ParseComplete(es: seq<(Field, string)>, trailing: bool, gaps: seq<string>, u: UnicodeProps)
    requires Coherent(u) && Quotable(es) && InOrder(es) && |es| == 3
    requires |gaps| == |RecordTokens(es, trailing)| + 1 && Blank(gaps)
    ensures ParseSource(Layout(RecordTokens(es, trailing), gaps), u) == Ok(RenderPipelineConfig(es[0].1, es[1].1, es[2].1))
  {
    ParseLayout(es, trailing, gaps, u);
    FinalizeInOrder(es);
  }

  /**
   * `render_pipeline_config_parse_missing_fields`: a record of no field, of
   * a name only, or of a name and a vertex entry reports the first slot
   * left empty, whatever the values and the whitespace layout.
   */
  lemma ParseMissingFields(es: seq<(Field, string)>, trailing: bool, gaps: seq<string>, u: UnicodeProps)
    requires Coherent(u) && Quotable(es) && InOrder(es) && |es| < 3
    requires |gaps| == |RecordTokens(es, trailing)| + 1 && Blank(gaps)
    ensures ParseSource(Layout(RecordTokens(es, trailing), gaps), u) == Err(MissingField(FieldName(Order(|es|))))
  {
    ParseLayout(es, trailing, gaps, u);
    FinalizeInOrder(es);
  }
}
