/**
 * What `RenderPipelineConfig::parse` (code_gen/src/config.rs) accepts and
 * what it reports, stated on the token list: the record grammar exactly,
 * a later field overwriting an earlier one of the same name, and each
 * error with the token it names.
 *
 * The statements are about token lists written as concatenations; the
 * proofs go through predicates on positions (`EntryAt`, `MoreAt`,
 * `RecordAt`), which is how the parser functions look at the list.
 */
module ConfigFacts {
  import opened Wrappers
  import opened Lexer
  import opened Config

  /** The tokens of one field: name, colon, string value. */
  function EntryTokens(e: (Field, string)): seq<Token> {
    [Ident(FieldName(e.0)), Colon, String(e.1)]
  }

  /** The tokens after the first field: a comma and a field for each entry, and a trailing comma if asked. */
  function MoreTokens(es: seq<(Field, string)>, trailing: bool): seq<Token> {
    if es == [] then (if trailing then [Comma] else [])
    else [Comma] + EntryTokens(es[0]) + MoreTokens(es[1..], trailing)
  }

  /** The fields between the parentheses, separated by commas; a trailing comma only after a field. */
  function EntriesTokens(es: seq<(Field, string)>, trailing: bool): seq<Token> {
    if es == [] then [] else EntryTokens(es[0]) + MoreTokens(es[1..], trailing)
  }

  const Opening: seq<Token> := [Hash, Header, LeftParen]

  /** A whole record: `# render_pipeline ( fields )`. */
  function RecordTokens(es: seq<(Field, string)>, trailing: bool): seq<Token> {
    Opening + EntriesTokens(es, trailing) + [RightParen]
  }

  /** The tokens in front of a record's closing part: the opening and the fields read so far. */
  function ReadSoFar(es: seq<(Field, string)>): seq<Token> {
    Opening + EntriesTokens(es, false)
  }

  /** The tokens in front of the next field: the opening, or the fields so far and a comma. */
  function BeforeField(es: seq<(Field, string)>): seq<Token> {
    if es == [] then Opening else ReadSoFar(es) + [Comma]
  }

  /** The slots after storing every entry in order. */
  function AssignAll(fs: Fields, es: seq<(Field, string)>): Fields
    decreases |es|
  {
    if es == [] then fs else AssignAll(Assign(fs, es[0].0, es[0].1), es[1..])
  }

  /** The slot that `f` selects. */
  function Slot(fs: Fields, f: Field): Option<string> {
    match f
    case Name => fs.name
    case VsEntry => fs.vsEntry
    case FsEntry => fs.fsEntry
  }

  /** The value of the last entry for `f`, if any. */
  function LastValue(es: seq<(Field, string)>, f: Field): Option<string>
    decreases |es|
  {
    if es == [] then None
    else if es[|es| - 1].0 == f then Some(es[|es| - 1].1)
    else LastValue(es[..|es| - 1], f)
  }

  // ----- The slots -----

  /** Storing sets the selected slot and leaves the other two alone. */
  lemma SlotAssign(fs: Fields, f: Field, value: string, g: Field)
    ensures Slot(Assign(fs, f, value), g) == if g == f then Some(value) else Slot(fs, g)
  {
  }

  lemma {:induction false} AssignAllSnoc(fs: Fields, es: seq<(Field, string)>, e: (Field, string))
    ensures AssignAll(fs, es + [e]) == Assign(AssignAll(fs, es), e.0, e.1)
    decreases |es|
  {
    if es != [] {
      assert (es + [e])[1..] == es[1..] + [e];
      AssignAllSnoc(Assign(fs, es[0].0, es[0].1), es[1..], e);
    }
  }

  /** The last write wins: each slot holds the value of the last entry for it, or what it held before. */
  lemma {:induction false} AssignAllSlot(fs: Fields, es: seq<(Field, string)>, f: Field)
    ensures Slot(AssignAll(fs, es), f) == if LastValue(es, f).Some? then LastValue(es, f) else Slot(fs, f)
    decreases |es|
  {
    if es != [] {
      var init, e := es[..|es| - 1], es[|es| - 1];
      assert es == init + [e];
      AssignAllSnoc(fs, init, e);
      AssignAllSlot(fs, init, f);
      SlotAssign(AssignAll(fs, init), e.0, e.1, f);
    }
  }

  /** The end of `parse` succeeds exactly when all three slots are filled, and reports the first empty one. */
  lemma FinalizeFilled(fs: Fields)
    ensures Finalize(fs).Ok? <==> fs.name.Some? && fs.vsEntry.Some? && fs.fsEntry.Some?
    ensures Finalize(fs).Ok? ==> Finalize(fs).value == RenderPipelineConfig(fs.name.value, fs.vsEntry.value, fs.fsEntry.value)
    ensures fs.name.None? ==> Finalize(fs) == Err(MissingField("name"))
    ensures fs.name.Some? && fs.vsEntry.None? ==> Finalize(fs) == Err(MissingField("vs_entry"))
    ensures fs.name.Some? && fs.vsEntry.Some? && fs.fsEntry.None? ==> Finalize(fs) == Err(MissingField("fs_entry"))
  {
  }

  /** Each field name selects its own slot. */
  lemma FieldNamedName(f: Field)
    ensures FieldNamed(FieldName(f)) == Some(f)
  {
  }

  // ----- Positions -----

  /** The field `e` written out at position `i`. */
  predicate EntryAt(ts: seq<Token>, i: nat, e: (Field, string)) {
    i + 3 <= |ts| && ts[i] == Ident(FieldName(e.0)) && ts[i + 1] == Colon && ts[i + 2] == String(e.1)
  }

  /** A comma and a field for each entry, from position `i` on. */
  predicate MoreAt(ts: seq<Token>, i: nat, es: seq<(Field, string)>)
    decreases |es|
  {
    es == [] || (i < |ts| && ts[i] == Comma && EntryAt(ts, i + 1, es[0]) && MoreAt(ts, i + 4, es[1..]))
  }

  /** The opening and then the fields `es`, separated by commas. */
  predicate RecordAt(ts: seq<Token>, es: seq<(Field, string)>) {
    && 3 <= |ts| && ts[0] == Hash && ts[1] == Header && ts[2] == LeftParen
    && (es != [] ==> EntryAt(ts, 3, es[0]) && MoreAt(ts, 6, es[1..]))
  }

  /** Where the fields `es` of a record end. */
  function FieldsEnd(es: seq<(Field, string)>): nat {
    if es == [] then 3 else 6 + 4 * (|es| - 1)
  }

  /** Written out after `p`, the further fields are found where `MoreAt` looks for them. */
  lemma {:induction false} MoreTokensAt(ts: seq<Token>, p: seq<Token>, q: seq<Token>, es: seq<(Field, string)>)
    requires ts == p + MoreTokens(es, false) + q
    ensures MoreAt(ts, |p|, es) && |MoreTokens(es, false)| == 4 * |es|
    decreases |es|
  {
    if es != [] {
      var e, m' := EntryTokens(es[0]), MoreTokens(es[1..], false);
      var p' := p + [Comma] + e;
      assert ts == p + [Comma] + e + (m' + q) && ts == p' + m' + q;
      assert ts[|p|] == Comma;
      assert EntryAt(ts, |p| + 1, es[0]);
      MoreTokensAt(ts, p', q, es[1..]);
    }
  }

  /** The fields found by `MoreAt` are a stretch of the list written out. */
  lemma {:induction false} MoreAtTokens(ts: seq<Token>, i: nat, es: seq<(Field, string)>)
    requires MoreAt(ts, i, es) && i <= |ts|
    ensures i + 4 * |es| <= |ts| && ts[i..i + 4 * |es|] == MoreTokens(es, false)
    decreases |es|
  {
    if es != [] {
      MoreAtTokens(ts, i + 4, es[1..]);
      var j := i + 4 * |es|;
      assert ts[i + 1..i + 4] == EntryTokens(es[0]);
      assert ts[i..j] == [Comma] + ts[i + 1..i + 4] + ts[i + 4..j];
    }
  }

  /** The trailing comma, if any, is the last token of the further fields. */
  lemma {:induction false} MoreTokensSplit(es: seq<(Field, string)>, trailing: bool)
    ensures MoreTokens(es, trailing) == MoreTokens(es, false) + (if trailing then [Comma] else [])
    decreases |es|
  {
    if es != [] {
      MoreTokensSplit(es[1..], trailing);
    }
  }

  /** A record is the tokens before its closing part, the trailing comma if any, and `)`. */
  lemma RecordTokensSplit(es: seq<(Field, string)>, trailing: bool)
    requires es != []
    ensures RecordTokens(es, trailing) == ReadSoFar(es) + (if trailing then [Comma] else []) + [RightParen]
  {
    MoreTokensSplit(es[1..], trailing);
  }

  /** What `RecordAt` finds in front of any tokens. */
  lemma ReadSoFarAt(ts: seq<Token>, es: seq<(Field, string)>, rest: seq<Token>)
    requires ts == ReadSoFar(es) + rest
    ensures RecordAt(ts, es) && |ReadSoFar(es)| == FieldsEnd(es)
  {
    ReadSoFarPositions(es);
    RecordAtPrefix(ReadSoFar(es), ts, es);
  }

  /** The fields read so far, on their own, are where `RecordAt` looks for them. */
  lemma ReadSoFarPositions(es: seq<(Field, string)>)
    ensures RecordAt(ReadSoFar(es), es) && |ReadSoFar(es)| == FieldsEnd(es)
  {
    ReadSoFarLength(es);
    var r := ReadSoFar(es);
    if es != [] {
      var e, m := EntryTokens(es[0]), MoreTokens(es[1..], false);
      assert r == Opening + e + m + [];
      EntryTokensAt(r, Opening, m + [], es[0]);
      MoreTokensAt(r, Opening + e, [], es[1..]);
    }
  }

  /** `RecordAt` looks only at the positions in front of where the fields end. */
  lemma RecordAtPrefix(a: seq<Token>, ts: seq<Token>, es: seq<(Field, string)>)
    requires RecordAt(a, es) && |a| <= |ts| && forall k :: 0 <= k < |a| ==> ts[k] == a[k]
    ensures RecordAt(ts, es)
  {
    if es != [] {
      MoreAtPrefix(a, ts, 6, es[1..]);
    }
  }

  lemma {:induction false} MoreAtPrefix(a: seq<Token>, ts: seq<Token>, i: nat, es: seq<(Field, string)>)
    requires MoreAt(a, i, es) && |a| <= |ts| && forall k :: 0 <= k < |a| ==> ts[k] == a[k]
    ensures MoreAt(ts, i, es)
    decreases |es|
  {
    if es != [] {
      MoreAtPrefix(a, ts, i + 4, es[1..]);
    }
  }

  /** Where the fields read so far end. */
  lemma ReadSoFarLength(es: seq<(Field, string)>)
    ensures |ReadSoFar(es)| == FieldsEnd(es)
  {
    if es != [] {
      MoreTokensLength(es[1..]);
    }
  }

  lemma {:induction false} MoreTokensLength(es: seq<(Field, string)>)
    ensures |MoreTokens(es, false)| == 4 * |es|
    decreases |es|
  {
    if es != [] {
      MoreTokensLength(es[1..]);
    }
  }

  /** Written out after `p`, a field is found where `EntryAt` looks for it. */
  lemma EntryTokensAt(ts: seq<Token>, p: seq<Token>, q: seq<Token>, e: (Field, string))
    requires ts == p + EntryTokens(e) + q
    ensures EntryAt(ts, |p|, e)
  {
    assert ts[|p|] == EntryTokens(e)[0] && ts[|p| + 1] == EntryTokens(e)[1] && ts[|p| + 2] == EntryTokens(e)[2];
  }

  // ----- The parser on positions -----

  lemma FieldAtIndex(ts: seq<Token>, i: nat, fs: Fields, e: (Field, string))
    requires EntryAt(ts, i, e)
    ensures FieldAt(ts, i, fs) == Ok((Assign(fs, e.0, e.1), i + 3))
  {
    FieldNamedName(e.0);
  }

  /** A comma and a field: the loop goes on after the field, with it stored. */
  lemma FieldsFromStep(ts: seq<Token>, i: nat, fs: Fields, e: (Field, string))
    requires i < |ts| && ts[i] == Comma && EntryAt(ts, i + 1, e)
    ensures FieldsFrom(ts, i, fs) == FieldsFrom(ts, i + 4, Assign(fs, e.0, e.1))
  {
    FieldAtIndex(ts, i + 1, fs, e);
  }

  /** The loop of `parse_struct` reads each further comma and field in turn. */
  lemma {:induction false} FieldsFromMore(ts: seq<Token>, i: nat, fs: Fields, es: seq<(Field, string)>)
    requires MoreAt(ts, i, es)
    ensures FieldsFrom(ts, i, fs) == FieldsFrom(ts, i + 4 * |es|, AssignAll(fs, es))
    decreases |es|
  {
    if es != [] {
      var fs1 := Assign(fs, es[0].0, es[0].1);
      FieldNamedName(es[0].0);
      FieldsFromStep(ts, i, fs, es[0]);
      FieldsFromMore(ts, i + 4, fs1, es[1..]);
      assert AssignAll(fs, es) == AssignAll(fs1, es[1..]) && i + 4 * |es| == i + 4 + 4 * |es[1..]|;
    } else {
      assert AssignAll(fs, es) == fs && i + 4 * |es| == i;
    }
  }

  /** Where the last field ends, an optional comma and then `)` stop the loop in front of the `)`. */
  lemma FieldsFromEnd(ts: seq<Token>, i: nat, fs: Fields, trailing: bool)
    requires trailing ==> i + 1 < |ts| && ts[i] == Comma && ts[i + 1] == RightParen
    requires !trailing ==> i < |ts| && ts[i] == RightParen
    ensures FieldsFrom(ts, i, fs) == Ok((fs, i + (if trailing then 1 else 0)))
  {
  }

  /** After the opening, `parse_struct` reads the first field and goes on with its loop. */
  lemma BodyThroughFields(ts: seq<Token>, es: seq<(Field, string)>)
    requires es != [] && RecordAt(ts, es)
    ensures BodyAt(ts, 3, NoFields) == FieldsFrom(ts, FieldsEnd(es), AssignAll(NoFields, es))
  {
    var fs1 := Assign(NoFields, es[0].0, es[0].1);
    FieldAtIndex(ts, 3, NoFields, es[0]);
    FieldsFromMore(ts, 6, fs1, es[1..]);
    assert AssignAll(NoFields, es) == AssignAll(fs1, es[1..]);
  }

  /** After the opening and at least one field, `parse` goes on with the loop of `parse_struct`. */
  lemma ParseThroughFields(ts: seq<Token>, es: seq<(Field, string)>)
    requires es != [] && RecordAt(ts, es)
    ensures ParseTokens(ts) == Finish(ts, CloseAt(ts, FieldsFrom(ts, FieldsEnd(es), AssignAll(NoFields, es))))
  {
    BodyThroughFields(ts, es);
  }

  // ----- What `parse` accepts -----

  /**
   * The `)` of the record must be the last token: one after it is reported
   * before any slot is checked.
   */
  lemma ParseClose(es: seq<(Field, string)>, trailing: bool, tail: seq<Token>)
    ensures ParseTokens(RecordTokens(es, trailing) + tail) ==
      if tail == [] then Finalize(AssignAll(NoFields, es)) else Err(ExpectedEndOfInput(tail[0]))
  {
    var ts := RecordTokens(es, trailing) + tail;
    var k := if es == [] then 3 else FieldsEnd(es) + (if trailing then 1 else 0);
    if es == [] {
      assert ts == [Hash, Header, LeftParen, RightParen] + tail;
      assert BodyAt(ts, 3, NoFields) == Ok((NoFields, 3));
    } else {
      ClosingFields(es, trailing, tail);
    }
    ClosedAt(ts, AssignAll(NoFields, es), k);
    if tail != [] {
      assert ts[k + 1] == tail[0];
    }
  }

  /** Where the fields of a record stop, and that the closing `)` is there, with `tail` behind it. */
  lemma ClosingFields(es: seq<(Field, string)>, trailing: bool, tail: seq<Token>)
    requires es != []
    ensures var ts := RecordTokens(es, trailing) + tail;
      var k := FieldsEnd(es) + (if trailing then 1 else 0);
      && RecordAt(ts, es) && k < |ts| && ts[k] == RightParen && ts[k + 1..] == tail
      && BodyAt(ts, 3, NoFields) == Ok((AssignAll(NoFields, es), k))
  {
    var ts := RecordTokens(es, trailing) + tail;
    var c := if trailing then [Comma] else [];
    var after := c + [RightParen] + tail;
    RecordTokensSplit(es, trailing);
    assert ts == ReadSoFar(es) + after;
    ReadSoFarAt(ts, es, after);
    var n := FieldsEnd(es);
    assert ts[n..] == after;
    assert trailing ==> ts[n] == Comma && ts[n + 1] == RightParen;
    assert !trailing ==> ts[n] == RightParen;
    BodyThroughFields(ts, es);
    FieldsFromEnd(ts, n, AssignAll(NoFields, es), trailing);
  }

  /** After the opening and the fields, a `)` ends the struct; a token after it is reported, else the slots are finalized. */
  lemma ClosedAt(ts: seq<Token>, fs: Fields, k: nat)
    requires 3 <= k < |ts| && ts[0] == Hash && ts[1] == Header && ts[2] == LeftParen && ts[k] == RightParen
    requires BodyAt(ts, 3, NoFields) == Ok((fs, k))
    ensures ParseTokens(ts) == if k + 1 < |ts| then Err(ExpectedEndOfInput(ts[k + 1])) else Finalize(fs)
  {
    assert StructAt(ts, 2, NoFields) == Ok((fs, k + 1));
  }

  /** `parse` reads a record into the slots in order and then checks that all three are filled. */
  lemma ParseRecord(es: seq<(Field, string)>, trailing: bool)
    ensures ParseTokens(RecordTokens(es, trailing)) == Finalize(AssignAll(NoFields, es))
  {
    ParseClose(es, trailing, []);
    assert RecordTokens(es, trailing) + [] == RecordTokens(es, trailing);
  }

  /** A field that `parse_field` reads is a name, a colon and a string, stored in the slot the name selects. */
  lemma FieldAtShape(ts: seq<Token>, i: nat, fs: Fields) returns (e: (Field, string))
    requires FieldAt(ts, i, fs).Ok?
    ensures EntryAt(ts, i, e)
  {
    FieldNamedMeans(ts[i].text);
    e := (FieldNamed(ts[i].text).value, ts[i + 2].text);
  }

  /**
   * What the loop of `parse_struct` reads when it succeeds: commas and
   * fields, and perhaps a trailing comma in front of `)`.
   */
  lemma {:induction false} FieldsFromShape(ts: seq<Token>, i: nat, fs: Fields) returns (es: seq<(Field, string)>, trailing: bool)
    requires i <= |ts| && FieldsFrom(ts, i, fs).Ok?
    ensures MoreAt(ts, i, es)
    ensures FieldsFrom(ts, i, fs) == Ok((AssignAll(fs, es), i + 4 * |es| + (if trailing then 1 else 0)))
    ensures trailing ==> i + 4 * |es| + 1 < |ts| && ts[i + 4 * |es|] == Comma && ts[i + 4 * |es| + 1] == RightParen
    decreases |ts| - i, 1
  {
    if i < |ts| && ts[i] == Comma && !(i + 1 < |ts| && ts[i + 1] == RightParen) {
      es, trailing := FieldsFromShapeField(ts, i, fs);
    } else {
      es, trailing := [], i < |ts| && ts[i] == Comma;
      assert AssignAll(fs, es) == fs;
    }
  }

  /** The case of `FieldsFromShape` where a comma and a field come next. */
  lemma {:induction false} FieldsFromShapeField(ts: seq<Token>, i: nat, fs: Fields) returns (es: seq<(Field, string)>, trailing: bool)
    requires i < |ts| && ts[i] == Comma && !(i + 1 < |ts| && ts[i + 1] == RightParen)
    requires FieldsFrom(ts, i, fs).Ok?
    ensures MoreAt(ts, i, es)
    ensures FieldsFrom(ts, i, fs) == Ok((AssignAll(fs, es), i + 4 * |es| + (if trailing then 1 else 0)))
    ensures trailing ==> i + 4 * |es| + 1 < |ts| && ts[i + 4 * |es|] == Comma && ts[i + 4 * |es| + 1] == RightParen
    decreases |ts| - i, 0
  {
    assert FieldAt(ts, i + 1, fs).Ok? by {
      FieldsFromField(ts, i, fs);
    }
    var e := FieldAtShape(ts, i + 1, fs);
    FieldNamedName(e.0);
    var fs1 := Assign(fs, e.0, e.1);
    assert FieldsFrom(ts, i, fs) == FieldsFrom(ts, i + 4, fs1) by {
      FieldsFromStep(ts, i, fs, e);
    }
    var rest;
    rest, trailing := FieldsFromShape(ts, i + 4, fs1);
    es := [e] + rest;
    MoreCons(ts, i, e, rest, fs);
  }

  /** A comma and a field in front of further fields: the fields found from the comma on, and what they store. */
  lemma MoreCons(ts: seq<Token>, i: nat, e: (Field, string), rest: seq<(Field, string)>, fs: Fields)
    requires i < |ts| && ts[i] == Comma && EntryAt(ts, i + 1, e) && MoreAt(ts, i + 4, rest)
    ensures MoreAt(ts, i, [e] + rest) && |[e] + rest| == |rest| + 1
    ensures AssignAll(fs, [e] + rest) == AssignAll(Assign(fs, e.0, e.1), rest)
  {
    assert ([e] + rest)[1..] == rest;
  }

  /**
   * Every input that `parse` accepts is a record, and its result is the
   * record's slots, finalized.  (A record without fields leaves every slot
   * empty, so an accepted one always has a field.)
   */
  lemma RecordOfParse(ts: seq<Token>) returns (es: seq<(Field, string)>, trailing: bool)
    requires ParseTokens(ts).Ok?
    ensures ts == RecordTokens(es, trailing)
    ensures ParseTokens(ts) == Finalize(AssignAll(NoFields, es))
  {
    if 3 < |ts| && ts[3].Ident? {
      var e := FieldAtShape(ts, 3, NoFields);
      FieldAtIndex(ts, 3, NoFields, e);
      var fs1 := Assign(NoFields, e.0, e.1);
      var rest;
      rest, trailing := FieldsFromShape(ts, 6, fs1);
      es := [e] + rest;
      assert es[0] == e && es[1..] == rest;
      assert AssignAll(NoFields, es) == AssignAll(fs1, rest);
      var k := FieldsEnd(es) + (if trailing then 1 else 0);
      assert BodyAt(ts, 3, NoFields) == Ok((AssignAll(NoFields, es), k));
      AcceptedEnd(ts, AssignAll(NoFields, es), k);
      RecordShape(ts, es, trailing);
    } else {
      assert false;
    }
  }

  /** An accepted input ends with the `)` after the fields, and its result is the slots, finalized. */
  lemma AcceptedEnd(ts: seq<Token>, fs: Fields, k: nat)
    requires ParseTokens(ts).Ok? && BodyAt(ts, 3, NoFields) == Ok((fs, k))
    ensures k + 1 == |ts| && ts[k] == RightParen && ParseTokens(ts) == Finalize(fs)
  {
  }

  /** The pieces of an accepted record, put together. */
  lemma RecordShape(ts: seq<Token>, es: seq<(Field, string)>, trailing: bool)
    requires es != [] && RecordAt(ts, es)
    requires var n := FieldsEnd(es);
      && (trailing ==> n + 1 < |ts| && ts[n] == Comma)
      && n + (if trailing then 1 else 0) + 1 == |ts| && ts[|ts| - 1] == RightParen
    ensures ts == RecordTokens(es, trailing)
  {
    var n := FieldsEnd(es);
    var c := if trailing then [Comma] else [];
    MoreAtTokens(ts, 6, es[1..]);
    assert ts[..3] == Opening by {
      assert ts[..3] == [ts[0], ts[1], ts[2]];
    }
    assert ts[3..6] == EntryTokens(es[0]) by {
      assert ts[3..6] == [ts[3], ts[4], ts[5]];
    }
    assert ts[n..] == c + [RightParen] by {
      if trailing {
        assert ts[n..] == [ts[n], ts[n + 1]];
      } else {
        assert ts[n..] == [ts[n]];
      }
    }
    Glue(ts, 3, 6, n);
    RecordTokensParts(es, trailing);
  }

  /** A record with fields in four parts: the opening, the first field, the further ones, the closing part. */
  lemma RecordTokensParts(es: seq<(Field, string)>, trailing: bool)
    requires es != []
    ensures RecordTokens(es, trailing) ==
      Opening + EntryTokens(es[0]) + MoreTokens(es[1..], false) + ((if trailing then [Comma] else []) + [RightParen])
  {
    RecordTokensSplit(es, trailing);
    assert ReadSoFar(es) == Opening + EntryTokens(es[0]) + MoreTokens(es[1..], false);
  }

  /** A list is its four slices. */
  lemma Glue(ts: seq<Token>, i: nat, j: nat, k: nat)
    requires i <= j <= k <= |ts|
    ensures ts == ts[..i] + ts[i..j] + ts[j..k] + ts[k..]
  {
  }

  // ----- What `parse` reports -----

  /**
   * Without the opening `# render_pipeline (`, `parse` reports the first
   * token that differs from it, or the end of input where it stops short.
   */
  lemma ParseOpening(ts: seq<Token>, k: nat)
    requires k < |Opening| && k <= |ts| && ts[..k] == Opening[..k]
    requires k == |ts| || ts[k] != Opening[k]
    ensures ParseTokens(ts) == if k == |ts| then Err(ParseError.EndOfInput) else Err(UnexpectedToken(ts[k], Opening[k]))
  {
    if k > 0 {
      assert ts[0] == ts[..k][0];
    }
    if k > 1 {
      assert ts[1] == ts[..k][1];
    }
  }

  /** A field that `parse_field` rejects, at the start of the record or after a comma, ends the parse with its error. */
  lemma ParseAtField(es: seq<(Field, string)>, rest: seq<Token>)
    requires rest != [] && rest[0].Ident?
    ensures var ts := BeforeField(es) + rest;
      var q := FieldAt(ts, |BeforeField(es)|, AssignAll(NoFields, es));
      q.Err? ==> ParseTokens(ts) == Err(q.error)
  {
    BeforeFieldAt(es, rest);
    ParseAtFieldAt(BeforeField(es) + rest, es);
  }

  /** Where the next field starts. */
  function FieldStart(es: seq<(Field, string)>): nat {
    if es == [] then 3 else FieldsEnd(es) + 1
  }

  /** What the positions hold in front of the next field. */
  lemma BeforeFieldAt(es: seq<(Field, string)>, rest: seq<Token>)
    ensures var ts := BeforeField(es) + rest;
      && RecordAt(ts, es) && |BeforeField(es)| == FieldStart(es)
      && (es != [] ==> ts[FieldsEnd(es)] == Comma)
  {
    var ts := BeforeField(es) + rest;
    if es == [] {
      assert ts[0] == Hash && ts[1] == Header && ts[2] == LeftParen;
    } else {
      ReadSoFarPositions(es);
      RecordAtPrefix(ReadSoFar(es), ts, es);
    }
  }

  /** `ParseAtField` on positions. */
  lemma ParseAtFieldAt(ts: seq<Token>, es: seq<(Field, string)>)
    requires RecordAt(ts, es) && FieldStart(es) < |ts| && ts[FieldStart(es)].Ident?
    requires es != [] ==> ts[FieldsEnd(es)] == Comma
    ensures var q := FieldAt(ts, FieldStart(es), AssignAll(NoFields, es));
      q.Err? ==> ParseTokens(ts) == Err(q.error)
  {
    if es != [] {
      ParseThroughFields(ts, es);
      FieldsFromField(ts, FieldsEnd(es), AssignAll(NoFields, es));
    }
  }

  /** A name that selects no slot is an unexpected field. */
  lemma UnknownField(es: seq<(Field, string)>, x: string, tail: seq<Token>)
    requires FieldNamed(x).None?
    ensures ParseTokens(BeforeField(es) + [Ident(x)] + tail) == Err(UnexpectedField(x))
  {
    var rest := [Ident(x)] + tail;
    assert BeforeField(es) + [Ident(x)] + tail == BeforeField(es) + rest;
    ParseAtField(es, rest);
  }

  /** A field name must be followed by a colon. */
  lemma MissingColon(es: seq<(Field, string)>, f: Field, t: Token, tail: seq<Token>)
    requires t != Colon
    ensures ParseTokens(BeforeField(es) + [Ident(FieldName(f)), t] + tail) == Err(UnexpectedToken(t, Colon))
  {
    var rest := [Ident(FieldName(f)), t] + tail;
    assert BeforeField(es) + [Ident(FieldName(f)), t] + tail == BeforeField(es) + rest;
    FieldNamedName(f);
    ParseAtField(es, rest);
  }

  /** The value of a field must be a string literal. */
  lemma MissingString(es: seq<(Field, string)>, f: Field, t: Token, tail: seq<Token>)
    requires !t.String?
    ensures ParseTokens(BeforeField(es) + [Ident(FieldName(f)), Colon, t] + tail) == Err(UnexpectedToken(t, ExpectedString))
  {
    var rest := [Ident(FieldName(f)), Colon, t] + tail;
    assert BeforeField(es) + [Ident(FieldName(f)), Colon, t] + tail == BeforeField(es) + rest;
    FieldNamedName(f);
    ParseAtField(es, rest);
  }

  /** Input that ends inside a field ends the parse with EndOfInput. */
  lemma FieldCutShort(es: seq<(Field, string)>, f: Field, colon: bool)
    ensures ParseTokens(BeforeField(es) + [Ident(FieldName(f))] + (if colon then [Colon] else [])) == Err(ParseError.EndOfInput)
  {
    FieldNamedName(f);
    var b := BeforeField(es);
    if colon {
      var rest := [Ident(FieldName(f)), Colon];
      assert b + [Ident(FieldName(f))] + [Colon] == b + rest;
      ParseAtField(es, rest);
    } else {
      var rest := [Ident(FieldName(f))];
      assert b + [Ident(FieldName(f))] + [] == b + rest;
      ParseAtField(es, rest);
    }
  }

  /**
   * A token that cannot start a field: at the start of the record it is
   * taken for the closing `)`, after a comma it is reported as not an
   * identifier.
   */
  lemma NotAField(es: seq<(Field, string)>, t: Token, tail: seq<Token>)
    requires !t.Ident? && t != RightParen
    ensures ParseTokens(BeforeField(es) + [t] + tail) == Err(UnexpectedToken(t, if es == [] then RightParen else ExpectedIdent))
  {
    var rest := [t] + tail;
    assert BeforeField(es) + [t] + tail == BeforeField(es) + rest;
    BeforeFieldAt(es, rest);
    NotAFieldAt(BeforeField(es) + rest, es);
  }

  /** `NotAField` on positions. */
  lemma NotAFieldAt(ts: seq<Token>, es: seq<(Field, string)>)
    requires RecordAt(ts, es) && FieldStart(es) < |ts|
    requires !ts[FieldStart(es)].Ident? && ts[FieldStart(es)] != RightParen
    requires es != [] ==> ts[FieldsEnd(es)] == Comma
    ensures ParseTokens(ts) == Err(UnexpectedToken(ts[FieldStart(es)], if es == [] then RightParen else ExpectedIdent))
  {
    if es != [] {
      ParseThroughFields(ts, es);
    }
  }

  /** Input that ends after a comma ends the parse with EndOfInput. */
  lemma CommaAtEnd(es: seq<(Field, string)>)
    requires es != []
    ensures ParseTokens(BeforeField(es)) == Err(ParseError.EndOfInput)
  {
    var ts := BeforeField(es);
    ReadSoFarAt(ts, es, [Comma]);
    assert ts[FieldsEnd(es)] == Comma;
    ParseThroughFields(ts, es);
  }

  /** After a field, only a comma or `)` may come. */
  lemma MissingComma(es: seq<(Field, string)>, t: Token, tail: seq<Token>)
    requires es != [] && t != Comma && t != RightParen
    ensures ParseTokens(ReadSoFar(es) + [t] + tail) == Err(UnexpectedToken(t, RightParen))
  {
    var rest := [t] + tail;
    var ts := ReadSoFar(es) + rest;
    assert ReadSoFar(es) + [t] + tail == ts;
    ReadSoFarAt(ts, es, rest);
    assert ts[FieldsEnd(es)] == t;
    ParseThroughFields(ts, es);
  }

  /** Input that ends before the closing `)` ends the parse with EndOfInput. */
  lemma Unclosed(es: seq<(Field, string)>)
    ensures ParseTokens(ReadSoFar(es)) == Err(ParseError.EndOfInput)
  {
    var ts := ReadSoFar(es);
    if es != [] {
      ReadSoFarAt(ts, es, []);
      assert ts == ReadSoFar(es) + [];
      ParseThroughFields(ts, es);
    } else {
      assert ts == [Hash, Header, LeftParen];
    }
  }
}
