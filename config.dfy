/**
 * The record parser of code_gen/src/config.rs: `expect_token` and
 * `RenderPipelineConfig::parse` with its closures `parse_ident`,
 * `parse_field` and `parse_struct`, which read
 *
 *   # render_pipeline ( field : "value" (, field : "value")* [,] )
 *
 * from a `TokenStream` and fill three optional slots.
 *
 * The functions at the top say on the token list what each step does from
 * a cursor position; the methods below drive a `TokenStream` the way the
 * source does and are proved to follow them.
 */
module Config {
  import opened Wrappers
  import opened Chars
  import opened Lexer

  datatype ParseError =
    | Lex(error: LexError)
    | UnexpectedToken(found: Token, expected: Token)
    | UnexpectedField(field: string)
    | EndOfInput
    | MissingField(field: string)
    | ExpectedEndOfInput(token: Token)

  datatype RenderPipelineConfig = RenderPipelineConfig(name: string, vsEntry: string, fsEntry: string)

  /** The three slots `parse` fills, by the field name that selects them. */
  datatype Field = Name | VsEntry | FsEntry

  /** The contents of the slots. */
  datatype Fields = Fields(name: Option<string>, vsEntry: Option<string>, fsEntry: Option<string>)

  const NoFields := Fields(None, None, None)

  /** The placeholder tokens the source reports as expected. */
  const ExpectedIdent := Ident("ident_name")
  const ExpectedString := String("Some String")
  const Header := Ident("render_pipeline")

  function FieldName(f: Field): string {
    match f
    case Name => "name"
    case VsEntry => "vs_entry"
    case FsEntry => "fs_entry"
  }

  /** The slot a field name selects, if any. */
  function FieldNamed(id: string): Option<Field> {
    if id == "name" then Some(Name)
    else if id == "vs_entry" then Some(VsEntry)
    else if id == "fs_entry" then Some(FsEntry)
    else None
  }

  /** A name selects the slot of that name, and only a name of no slot selects none. */
  lemma FieldNamedMeans(id: string)
    ensures FieldNamed(id).Some? ==> FieldName(FieldNamed(id).value) == id
    ensures FieldNamed(id).None? ==> forall f: Field :: FieldName(f) != id
  {
  }

  /** The slots with `f` set to `value` and the others as they were. */
  function Assign(fs: Fields, f: Field, value: string): Fields {
    match f
    case Name => fs.(name := Some(value))
    case VsEntry => fs.(vsEntry := Some(value))
    case FsEntry => fs.(fsEntry := Some(value))
  }

  /** `expect_token` at position `i`: the position after the expected token. */
  function ExpectAt(ts: seq<Token>, i: nat, expected: Token): Result<nat, ParseError> {
    if i < |ts| then
      if ts[i] == expected then Ok(i + 1) else Err(UnexpectedToken(ts[i], expected))
    else Err(ParseError.EndOfInput)
  }

  /** `parse_ident` at position `i`. */
  function IdentAt(ts: seq<Token>, i: nat): Result<(string, nat), ParseError> {
    if i < |ts| then
      if ts[i].Ident? then Ok((ts[i].text, i + 1)) else Err(UnexpectedToken(ts[i], ExpectedIdent))
    else Err(ParseError.EndOfInput)
  }

  /** `parse_field` at position `i`: name, colon and string value, stored in the named slot. */
  function FieldAt(ts: seq<Token>, i: nat, fs: Fields): (r: Result<(Fields, nat), ParseError>)
    ensures r.Ok? ==> i + 3 == r.value.1 <= |ts|
  {
    match IdentAt(ts, i)
    case Err(e) => Err(e)
    case Ok((id, j)) =>
      match FieldNamed(id)
      case None => Err(UnexpectedField(id))
      case Some(f) =>
        match ExpectAt(ts, j, Colon)
        case Err(e) => Err(e)
        case Ok(k) =>
          if k < |ts| then
            if ts[k].String? then Ok((Assign(fs, f, ts[k].text), k + 1))
            else Err(UnexpectedToken(ts[k], ExpectedString))
          else Err(ParseError.EndOfInput)
  }

  /**
   * The `while` loop of `parse_struct` at position `i`: while a comma comes
   * next, consume it; stop before a closing parenthesis that follows it,
   * and otherwise parse one more field.
   */
  function FieldsFrom(ts: seq<Token>, i: nat, fs: Fields): Result<(Fields, nat), ParseError>
    decreases |ts| - i
  {
    if i < |ts| && ts[i] == Comma then
      if i + 1 < |ts| && ts[i + 1] == RightParen then Ok((fs, i + 1))
      else
        match FieldAt(ts, i + 1, fs)
        case Err(e) => Err(e)
        case Ok((fs', j)) => FieldsFrom(ts, j, fs')
    else Ok((fs, i))
  }

  /** The fields inside the parentheses, from position `j`: none unless an identifier comes first. */
  function BodyAt(ts: seq<Token>, j: nat, fs: Fields): Result<(Fields, nat), ParseError> {
    if j < |ts| && ts[j].Ident? then
      match FieldAt(ts, j, fs)
      case Err(e) => Err(e)
      case Ok((fs', k)) => FieldsFrom(ts, k, fs')
    else Ok((fs, j))
  }

  /** `parse_struct` at position `i`: `(`, the fields, `)`. */
  function StructAt(ts: seq<Token>, i: nat, fs: Fields): Result<(Fields, nat), ParseError> {
    match ExpectAt(ts, i, LeftParen)
    case Err(e) => Err(e)
    case Ok(j) => CloseAt(ts, BodyAt(ts, j, fs))
  }

  /** The closing parenthesis after the fields. */
  function CloseAt(ts: seq<Token>, body: Result<(Fields, nat), ParseError>): Result<(Fields, nat), ParseError> {
    match body
    case Err(e) => Err(e)
    case Ok((fs, k)) =>
      match ExpectAt(ts, k, RightParen)
      case Err(e) => Err(e)
      case Ok(m) => Ok((fs, m))
  }

  /** The one `while let` step of `parse_struct` that stops at `)` after a comma. */
  lemma FieldsFromClose(ts: seq<Token>, i: nat, fs: Fields)
    requires i + 1 < |ts| && ts[i] == Comma && ts[i + 1] == RightParen
    ensures FieldsFrom(ts, i, fs) == Ok((fs, i + 1))
  {
  }

  /** A comma followed by a field continues the loop after that field. */
  lemma FieldsFromField(ts: seq<Token>, i: nat, fs: Fields)
    requires i < |ts| && ts[i] == Comma && !(i + 1 < |ts| && ts[i + 1] == RightParen)
    ensures FieldAt(ts, i + 1, fs).Err? ==> FieldsFrom(ts, i, fs) == Err(FieldAt(ts, i + 1, fs).error)
    ensures FieldAt(ts, i + 1, fs).Ok? ==>
      FieldsFrom(ts, i, fs) == FieldsFrom(ts, FieldAt(ts, i + 1, fs).value.1, FieldAt(ts, i + 1, fs).value.0)
  {
  }

  /** The end of `parse`: every slot must be filled, checked in the order name, vs_entry, fs_entry. */
  function Finalize(fs: Fields): Result<RenderPipelineConfig, ParseError> {
    if fs.name.None? then Err(MissingField("name"))
    else if fs.vsEntry.None? then Err(MissingField("vs_entry"))
    else if fs.fsEntry.None? then Err(MissingField("fs_entry"))
    else Ok(RenderPipelineConfig(fs.name.value, fs.vsEntry.value, fs.fsEntry.value))
  }

  /** `parse` on the tokens of its input: header, struct, nothing after it, every slot filled. */
  function ParseTokens(ts: seq<Token>): Result<RenderPipelineConfig, ParseError> {
    match ExpectAt(ts, 0, Hash)
    case Err(e) => Err(e)
    case Ok(i) =>
      match ExpectAt(ts, i, Header)
      case Err(e) => Err(e)
      case Ok(j) =>
        Finish(ts, StructAt(ts, j, NoFields))
  }

  /** After the struct: no token may follow it, and then every slot must be filled. */
  function Finish(ts: seq<Token>, body: Result<(Fields, nat), ParseError>): Result<RenderPipelineConfig, ParseError> {
    match body
    case Err(e) => Err(e)
    case Ok((fs, k)) =>
      if k < |ts| then Err(ExpectedEndOfInput(ts[k])) else Finalize(fs)
  }

  /** `RenderPipelineConfig::parse`: a lexer error surfaces as `Lex`. */
  function ParseSource(src: string, u: UnicodeProps): Result<RenderPipelineConfig, ParseError> {
    match Tokenize(src, u)
    case Err(e) => Err(Lex(e))
    case Ok(ts) => ParseTokens(ts)
  }

  /**
   * A step that updates the slots and the cursor follows its specification
   * `q`: it fails with the same error, or succeeds leaving the slots and the
   * cursor where `q` says.
   */
  predicate Follows(r: Result<(), ParseError>, fs: Fields, index: nat, q: Result<(Fields, nat), ParseError>) {
    && (r.Ok? <==> q.Ok?)
    && (r.Err? ==> r.error == q.error)
    && (r.Ok? ==> fs == q.value.0 && index == q.value.1)
  }

  /** The three `Option` locals of `parse`, which `parse_field` writes through a `&mut` chosen by name. */
  class Slots {
    var name: Option<string>
    var vsEntry: Option<string>
    var fsEntry: Option<string>

    constructor ()
      ensures Contents() == NoFields
    {
      name, vsEntry, fsEntry := None, None, None;
    }

    function Contents(): Fields
      reads this
    {
      Fields(name, vsEntry, fsEntry)
    }

    /** `*field = Some(value)` for the slot `f` selects. */
    method Store(f: Field, value: string)
      modifies this
      ensures Contents() == Assign(old(Contents()), f, value)
    {
      match f
      case Name => name := Some(value);
      case VsEntry => vsEntry := Some(value);
      case FsEntry => fsEntry := Some(value);
    }
  }

  /**
   * `expect_token`: consumes the next token whenever there is one, and
   * succeeds exactly when it is `expected`.
   */
  method ExpectToken(tokens: TokenStream, expected: Token) returns (r: Result<(), ParseError>)
    requires tokens.Valid()
    modifies tokens
    ensures tokens.Valid()
    ensures tokens.index == old(tokens.index) + (if old(tokens.Peek()).Some? then 1 else 0)
    ensures var q := ExpectAt(tokens.tokens, old(tokens.index), expected);
      && (r.Ok? <==> q.Ok?)
      && (r.Err? ==> r.error == q.error)
      && (r.Ok? ==> tokens.index == q.value)
  {
    var t := tokens.Next();
    match t
    case Some(found) =>
      if found == expected {
        r := Ok(());
      } else {
        r := Err(UnexpectedToken(found, expected));
      }
    case None =>
      r := Err(ParseError.EndOfInput);
  }

  /** The `parse_ident` closure. */
  method ParseIdent(tokens: TokenStream) returns (r: Result<string, ParseError>)
    requires tokens.Valid()
    modifies tokens
    ensures tokens.Valid()
    ensures tokens.index == old(tokens.index) + (if old(tokens.Peek()).Some? then 1 else 0)
    ensures var q := IdentAt(tokens.tokens, old(tokens.index));
      && (r.Ok? <==> q.Ok?)
      && (r.Err? ==> r.error == q.error)
      && (r.Ok? ==> r.value == q.value.0 && tokens.index == q.value.1)
  {
    var t := tokens.Next();
    match t
    case Some(Ident(id)) =>
      r := Ok(id);
    case Some(found) =>
      r := Err(UnexpectedToken(found, ExpectedIdent));
    case None =>
      r := Err(ParseError.EndOfInput);
  }

  /** The `parse_field` closure: the slot is written only when the whole field has been read. */
  method ParseField(tokens: TokenStream, slots: Slots, ghost at: nat, ghost fs: Fields) returns (r: Result<(), ParseError>)
    requires tokens.Valid() && tokens.index == at && slots.Contents() == fs
    modifies tokens, slots
    ensures tokens.Valid()
    ensures Follows(r, slots.Contents(), tokens.index, FieldAt(tokens.tokens, at, fs))
    ensures r.Err? ==> slots.Contents() == fs
  {
    var ident := ParseIdent(tokens);
    if ident.Err? {
      return Err(ident.error);
    }
    var field := FieldNamed(ident.value);
    if field.None? {
      return Err(UnexpectedField(ident.value));
    }
    var colon := ExpectToken(tokens, Colon);
    if colon.Err? {
      return Err(colon.error);
    }
    var t := tokens.Next();
    match t
    case Some(String(s)) =>
      slots.Store(field.value, s);
      r := Ok(());
    case Some(found) =>
      r := Err(UnexpectedToken(found, ExpectedString));
    case None =>
      r := Err(ParseError.EndOfInput);
  }

  /** The `parse_struct` closure. */
  method ParseStruct(tokens: TokenStream, slots: Slots) returns (r: Result<(), ParseError>)
    requires tokens.Valid()
    modifies tokens, slots
    ensures tokens.Valid()
    ensures Follows(r, slots.Contents(), tokens.index, StructAt(tokens.tokens, old(tokens.index), old(slots.Contents())))
  {
    ghost var ts := tokens.tokens;
    ghost var fs0 := slots.Contents();
    var open := ExpectToken(tokens, LeftParen);
    if open.Err? {
      return Err(open.error);
    }
    ghost var j := tokens.index;
    if tokens.Peek().Some? && tokens.Peek().value.Ident? {
      var first := ParseField(tokens, slots, j, fs0);
      if first.Err? {
        return Err(first.error);
      }
      var more := ParseMoreFields(tokens, slots, tokens.index, slots.Contents());
      if more.Err? {
        return Err(more.error);
      }
    }
    assert BodyAt(ts, j, fs0) == Ok((slots.Contents(), tokens.index));
    var close := ExpectToken(tokens, RightParen);
    if close.Err? {
      return Err(close.error);
    }
    r := Ok(());
  }

  /** The `while let` loop of `parse_struct`, from cursor position `at` with slots `fs`. */
  method ParseMoreFields(tokens: TokenStream, slots: Slots, ghost at: nat, ghost fs: Fields) returns (r: Result<(), ParseError>)
    requires tokens.Valid() && tokens.index == at && slots.Contents() == fs
    modifies tokens, slots
    ensures tokens.Valid()
    ensures Follows(r, slots.Contents(), tokens.index, FieldsFrom(tokens.tokens, at, fs))
  {
    ghost var ts := tokens.tokens;
    while tokens.Peek() == Some(Comma)
      invariant tokens.Valid() && tokens.tokens == ts
      invariant FieldsFrom(ts, at, fs) == FieldsFrom(ts, tokens.index, slots.Contents())
      decreases |ts| - tokens.index
    {
      ghost var i := tokens.index;
      ghost var cur := slots.Contents();
      var _ := tokens.Next();
      if tokens.Peek() == Some(RightParen) {
        FieldsFromClose(ts, i, cur);
        return Ok(());
      }
      var next := ParseField(tokens, slots, i + 1, cur);
      FieldsFromField(ts, i, cur);
      if next.Err? {
        return Err(next.error);
      }
    }
    r := Ok(());
  }

  /** `RenderPipelineConfig::parse`: lex the whole input, then parse its tokens. */
  method Parse(src: string, u: UnicodeProps) returns (r: Result<RenderPipelineConfig, ParseError>)
    ensures r == ParseSource(src, u)
  {
    var stream := TokenStream.New(src, u);
    if stream.Err? {
      return Err(Lex(stream.error));
    }
    r := ParseStream(stream.value);
  }

  /** The body of `parse` after the lexer: header, struct, end of input, filled slots. */
  method ParseStream(tokens: TokenStream) returns (r: Result<RenderPipelineConfig, ParseError>)
    requires tokens.Valid() && tokens.index == 0
    modifies tokens
    ensures r == ParseTokens(tokens.tokens)
  {
    ghost var ts := tokens.tokens;
    var hash := ExpectToken(tokens, Hash);
    if hash.Err? {
      return Err(hash.error);
    }
    var header := ExpectToken(tokens, Header);
    if header.Err? {
      return Err(header.error);
    }
    var slots := new Slots();
    ghost var spec := StructAt(ts, tokens.index, NoFields);
    assert ParseTokens(ts) == Finish(ts, spec);
    var body := ParseStruct(tokens, slots);
    if body.Err? {
      return Err(body.error);
    }
    assert spec == Ok((slots.Contents(), tokens.index));
    var t := tokens.Next();
    if t.Some? {
      return Err(ExpectedEndOfInput(t.value));
    }
    r := Finalize(slots.Contents());
  }
}
