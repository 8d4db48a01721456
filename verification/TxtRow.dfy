/**
  A row of the text dump as `cTxtWriter` prints it and `cTxtReader` parses it, on values:
  fields separated by tabs, discarded fields skipped, the row ended by a newline.
 */
module TxtRow {
  import opened Basics
  import opened Bytes
  import opened TxtEscape
  import opened TxtHex
  import opened TxtNumber

  datatype Kind = Signed | Unsigned | String | Binary

  datatype Field = Field(kind: Kind, discard: bool)

  type Table = seq<Field>

  datatype Value = Integer(z: int) | Text(b: seq<byte>)

  predicate Fits(kind: Kind, v: Value) {
    match kind
    case Signed => v.Integer? && IsInt64(v.z)
    case Unsigned => v.Integer? && IsUint64(v.z)
    case String => v.Text?
    case Binary => v.Text?
  }

  predicate RowFits(table: Table, row: seq<Value>) {
    |row| == |table| && forall i :: 0 <= i < |row| ==> Fits(table[i].kind, row[i])
  }

  // ---------------------------------------------------------------- printing

  /** `WriteValue`; `%s` stops at a NUL */
  function PrintValue(kind: Kind, v: Value): seq<byte>
    requires Fits(kind, v)
  {
    match kind
    case Signed => SignedDecimal(v.z)
    case Unsigned => Decimal(v.z)
    case String => CString(Escape(v.b))
    case Binary => CString(Hex(v.b))
  }

  /** The fields from number `i` on, as `write_row` prints them. */
  function PrintFrom(table: Table, row: seq<Value>, i: nat): seq<byte>
    requires RowFits(table, row) && i <= |row|
    decreases |row| - i
  {
    if i == |row| then []
    else if table[i].discard then PrintFrom(table, row, i + 1)
    else (if i > 0 then [TAB] else []) + PrintValue(table[i].kind, row[i]) + PrintFrom(table, row, i + 1)
  }

  function Line(table: Table, row: seq<Value>): seq<byte>
    requires RowFits(table, row)
  {
    PrintFrom(table, row, 0) + [NL]
  }

  // ---------------------------------------------------------------- parsing

  function DefaultValue(kind: Kind): Value {
    if kind == Signed || kind == Unsigned then Integer(0) else Text([])
  }

  datatype ReadResult = BadField | Got(v: Value, used: nat)

  /** Where `Str2Value` sees an empty field. */
  predicate EmptyAt(s: seq<byte>) { s == [] || Stops(s[0], NL) }

  /** A non-empty field, the cursor at its first byte. */
  function ReadToken(kind: Kind, s: seq<byte>): (r: ReadResult)
    ensures r.Got? ==> r.used <= |s|
  {
    match kind
    case Signed => (var c := ReadSigned(s); if c.BadNumber? then BadField else Got(Integer(c.value), c.used))
    case Unsigned => (var c := ReadUnsigned(s); if c.BadNumber? then BadField else Got(Integer(c.value), c.used))
    case String => (var t := Unescape(s); Got(Text(t.out), t.used))
    case Binary => (var t := Unhex(s, NL); if t.HexError? then BadField else Got(Text(t.out), t.used))
  }

  /** `Str2Value`: one tab is skipped, an empty field gives the default. */
  function ReadField(kind: Kind, s: seq<byte>): (r: ReadResult)
    ensures r.Got? ==> r.used <= |s|
  {
    var skip := if s != [] && s[0] == TAB then 1 else 0;
    var t := s[skip..];
    if EmptyAt(t) then Got(DefaultValue(kind), skip)
    else
      match ReadToken(kind, t)
      case BadField => BadField
      case Got(v, used) => Got(v, skip + used)
  }

  datatype RowResult = BadRow | Row(values: seq<Option<Value>>)

  /** `SaveRow` from field `i` on; discarded fields are left alone. */
  function ReadFrom(table: Table, i: nat, s: seq<byte>): (r: RowResult)
    requires i <= |table|
    ensures r.Row? ==> |r.values| == |table| - i
    decreases |table| - i
  {
    if i == |table| then Row([])
    else if table[i].discard then
      match ReadFrom(table, i + 1, s)
      case BadRow => BadRow
      case Row(vs) => Row([None] + vs)
    else
      match ReadField(table[i].kind, s)
      case BadField => BadRow
      case Got(v, used) =>
        match ReadFrom(table, i + 1, s[used..])
        case BadRow => BadRow
        case Row(vs) => Row([Some(v)] + vs)
  }

  /** A line as `getline` leaves it in the buffer, parsed. */
  function ReadLine(table: Table, line: seq<byte>): RowResult {
    ReadFrom(table, 0, line + [NUL])
  }

  /** What reading a row back should give from field `i` on. */
  function Kept(table: Table, row: seq<Value>, i: nat): seq<Option<Value>>
    requires |table| == |row| && i <= |row|
    decreases |row| - i
  {
    if i == |row| then []
    else [if table[i].discard then None else Some(row[i])] + Kept(table, row, i + 1)
  }

  // ---------------------------------------------------------------- tokens

  /** The strings of a row are free of NUL. */
  predicate NulFreeFrom(table: Table, row: seq<Value>, i: nat)
    requires RowFits(table, row)
  {
    forall j :: i <= j < |row| && !table[j].discard && table[j].kind == String ==> NulFree(row[j].b)
  }

  predicate PrintsEmpty(table: Table, row: seq<Value>, j: nat)
    requires RowFits(table, row) && j < |row|
  {
    PrintValue(table[j].kind, row[j]) == []
  }

  /** Every field from `i` on that is printed prints as nothing. */
  predicate AllEmptyFrom(table: Table, row: seq<Value>, i: nat)
    requires RowFits(table, row)
  {
    forall j :: i <= j < |row| && !table[j].discard ==> PrintsEmpty(table, row, j)
  }

  lemma TokenClean(kind: Kind, v: Value)
    requires Fits(kind, v)
    ensures TAB !in PrintValue(kind, v) && NL !in PrintValue(kind, v) && NulFree(PrintValue(kind, v))
  {
    match kind
    case Signed => DecimalClean(v.z);
    case Unsigned => DecimalDigits(v.z);
    case String => EscapeClean(v.b); CStringNulFree(Escape(v.b));
    case Binary => HexClean(v.b); CStringNulFree(Hex(v.b));
  }

  /** A printed token, followed by a tab or a newline, reads back as its value. */
  lemma TokenRoundTrip(kind: Kind, v: Value, rest: seq<byte>)
    requires Fits(kind, v) && (kind == String ==> NulFree(v.b))
    requires rest != [] && (rest[0] == TAB || rest[0] == NL)
    ensures ReadToken(kind, PrintValue(kind, v) + rest) == Got(v, |PrintValue(kind, v)|)
  {
    match kind
    case Signed => ReadSignedDecimal(v.z, rest);
    case Unsigned => ReadUnsignedDecimal(v.z, rest);
    case String =>
      EscapeClean(v.b);
      CStringNulFree(Escape(v.b));
      UnescapeEscape(v.b, rest);
    case Binary =>
      HexClean(v.b);
      CStringNulFree(Hex(v.b));
      UnhexHex(v.b, rest);
  }

  lemma EmptyToken(kind: Kind, v: Value)
    requires Fits(kind, v) && PrintValue(kind, v) == [] && (kind == String ==> NulFree(v.b))
    ensures v == DefaultValue(kind) == Text([])
  {
    match kind
    case Signed =>
    case Unsigned =>
    case String => EscapeClean(v.b); CStringNulFree(Escape(v.b));
    case Binary => HexClean(v.b); CStringNulFree(Hex(v.b));
  }

  /** The printed field, with its leading tab when it has one, reads back as its value. */
  lemma FieldRoundTrip(kind: Kind, v: Value, tab: seq<byte>, rest: seq<byte>)
    requires Fits(kind, v) && (kind == String ==> NulFree(v.b))
    requires tab == [TAB] || (tab == [] && PrintValue(kind, v) != [])
    requires rest != [] && (rest[0] == TAB || rest[0] == NL)
    ensures ReadField(kind, tab + PrintValue(kind, v) + rest) == Got(v, |tab + PrintValue(kind, v)|)
  {
    hide PrintValue, ReadToken;
    var p := PrintValue(kind, v);
    var s := tab + p + rest;
    TokenClean(kind, v);
    assert s[|tab|..] == p + rest;
    if p == [] {
      EmptyToken(kind, v);
      assert p + rest == rest;
    } else {
      TokenRoundTrip(kind, v, rest);
      assert (p + rest)[0] == p[0] && p[0] in p;
      assert s[0] == if tab == [] then p[0] else TAB;
    }
  }

  // ---------------------------------------------------------------- the text itself

  /** Each kind of value in its own notation. */
  lemma PrintedAs(n: int, b: seq<byte>)
    ensures IsInt64(n) ==> PrintValue(Signed, Integer(n)) == SignedDecimal(n)
    ensures IsUint64(n) ==> PrintValue(Unsigned, Integer(n)) == Decimal(n)
    ensures PrintValue(String, Text(b)) == Escape(CString(b))
    ensures PrintValue(Binary, Text(b)) == Hex(b)
  {
    EscapeCString(b);
    HexClean(b);
    CStringNulFree(Hex(b));
  }

  /** A line ends in a newline, and a further field that is not discarded is set off by a tab. */
  lemma LineTexts(table: Table, row: seq<Value>, f: Field, v: Value)
    requires RowFits(table, row) && Fits(f.kind, v)
    ensures RowFits(table + [f], row + [v]) && Line([], []) == [10]
    ensures var l := Line(table, row);
      && l != [] && l[|l| - 1] == 10
      && Line(table + [f], row + [v]) ==
         if f.discard then l else l[..|l| - 1] + (if table == [] then [] else [9]) + PrintValue(f.kind, v) + [10]
  {
    PrintGrows(table, row, f, v, 0);
    var l := Line(table, row);
    assert l[..|l| - 1] == PrintFrom(table, row, 0);
  }

  lemma {:induction false} PrintGrows(table: Table, row: seq<Value>, f: Field, v: Value, i: nat)
    requires RowFits(table, row) && Fits(f.kind, v) && i <= |row|
    ensures RowFits(table + [f], row + [v])
    ensures PrintFrom(table + [f], row + [v], i) == PrintFrom(table, row, i) +
      if f.discard then [] else (if table == [] then [] else [9]) + PrintValue(f.kind, v)
    decreases |row| - i
  {
    hide PrintValue;
    var t, r := table + [f], row + [v];
    if i < |row| {
      PrintGrows(table, row, f, v, i + 1);
      assert t[i] == table[i] && r[i] == row[i];
      var a, b, c := if i > 0 then [TAB] else [], PrintValue(table[i].kind, row[i]), PrintFrom(table, row, i + 1);
      var d := if f.discard then [] else (if table == [] then [] else [9]) + PrintValue(f.kind, v);
      assert a + b + (c + d) == (a + b + c) + d;
    } else {
      assert t[i] == f && r[i] == v && PrintFrom(t, r, i + 1) == [];
      var a, b := if i > 0 then [TAB] else [], PrintValue(f.kind, v);
      assert a + b + [] == a + b == [] + (a + b);
    }
  }

  /** A field that is empty, behind a tab or not, reads as 0 or as the empty string. */
  lemma EmptyReads(kind: Kind, c: byte, s: seq<byte>)
    requires c in {0, 9, 10}
    ensures var v := if kind == Signed || kind == Unsigned then Integer(0) else Text([]);
      && ReadField(kind, [9, c] + s) == Got(v, 1)
      && (c != 9 ==> ReadField(kind, [c] + s) == Got(v, 0))
  {
    assert ([9, c] + s)[1..] == [c] + s && ([c] + s)[0..] == [c] + s;
  }

  // ---------------------------------------------------------------- rows

  /** The printed fields from `i` on with the end of the line: what the reader has before it. */
  function TextFrom(table: Table, row: seq<Value>, i: nat): (s: seq<byte>)
    requires RowFits(table, row) && i <= |row|
    ensures s != []
  {
    PrintFrom(table, row, i) + [NL, NUL]
  }

  lemma TextFromStep(table: Table, row: seq<Value>, i: nat)
    requires RowFits(table, row) && i < |row|
    ensures TextFrom(table, row, i) ==
      if table[i].discard then TextFrom(table, row, i + 1)
      else (if i > 0 then [TAB] else []) + PrintValue(table[i].kind, row[i]) + TextFrom(table, row, i + 1)
  {
  }

  /** After the first field, what is left starts with a tab or the newline. */
  lemma {:induction false} TextFromStart(table: Table, row: seq<Value>, i: nat)
    requires RowFits(table, row) && 0 < i <= |row|
    ensures TextFrom(table, row, i)[0] == TAB || TextFrom(table, row, i)[0] == NL
    decreases |row| - i
  {
    if i < |row| && table[i].discard {
      TextFromStart(table, row, i + 1);
    }
  }

  /** Field `i` as printed here, then the rest, reads back. */
  lemma {:induction false} FieldsRoundTrip(table: Table, row: seq<Value>, i: nat)
    requires RowFits(table, row) && i <= |row| && NulFreeFrom(table, row, i)
    requires i == 0 && i < |row| ==> table[0].discard || !PrintsEmpty(table, row, 0)
    ensures ReadFrom(table, i, TextFrom(table, row, i)) == Row(Kept(table, row, i))
    decreases |row| - i
  {
    hide PrintValue, ReadField, TextFrom;
    if i < |row| {
      FieldsRoundTrip(table, row, i + 1);
      TextFromStep(table, row, i);
      if !table[i].discard {
        TextFromStart(table, row, i + 1);
        var tab, p := if i > 0 then [TAB] else [], PrintValue(table[i].kind, row[i]);
        FieldRoundTrip(table[i].kind, row[i], tab, TextFrom(table, row, i + 1));
        assert TextFrom(table, row, i)[|tab + p|..] == TextFrom(table, row, i + 1);
      }
    }
  }

  /** Text in which every field is empty: tabs, then the newline. */
  ghost predicate OnlyTabs(s: seq<byte>) {
    s != [] && (s[0] == NL || (s[0] == TAB && OnlyTabs(s[1..])))
  }

  lemma {:induction false} AllEmptyPrintsTabs(table: Table, row: seq<Value>, i: nat)
    requires RowFits(table, row) && i <= |row| && AllEmptyFrom(table, row, i)
    ensures OnlyTabs(TextFrom(table, row, i))
    decreases |row| - i
  {
    hide PrintValue;
    if i < |row| {
      AllEmptyPrintsTabs(table, row, i + 1);
      TextFromStep(table, row, i);
      if !table[i].discard {
        assert PrintsEmpty(table, row, i);
        var next := TextFrom(table, row, i + 1);
        assert [] + [] + next == next && ([TAB] + [] + next)[1..] == next;
      }
    }
  }

  /** However many tabs there are, every field reads as empty. */
  lemma {:induction false} TabsReadEmpty(table: Table, row: seq<Value>, i: nat, s: seq<byte>)
    requires RowFits(table, row) && i <= |row| && AllEmptyFrom(table, row, i) && NulFreeFrom(table, row, i)
    requires OnlyTabs(s)
    ensures ReadFrom(table, i, s) == Row(Kept(table, row, i))
    decreases |row| - i
  {
    hide PrintValue;
    if i < |row| {
      if table[i].discard {
        TabsReadEmpty(table, row, i + 1, s);
      } else {
        assert PrintsEmpty(table, row, i);
        EmptyToken(table[i].kind, row[i]);
        var skip := if s[0] == TAB then 1 else 0;
        assert ReadField(table[i].kind, s) == Got(row[i], skip);
        assert skip == 0 ==> s[skip..] == s;
        TabsReadEmpty(table, row, i + 1, s[skip..]);
      }
    }
  }

  /** A string that reads back at all is free of NUL. */
  lemma {:induction false} ReadStringsNulFree(table: Table, row: seq<Value>, i: nat, s: seq<byte>)
    requires RowFits(table, row) && i <= |row|
    requires ReadFrom(table, i, s) == Row(Kept(table, row, i))
    ensures NulFreeFrom(table, row, i)
    decreases |row| - i
  {
    hide ReadField;
    if i < |row| {
      var tail := Kept(table, row, i + 1);
      assert Kept(table, row, i)[1..] == tail;
      if table[i].discard {
        ReadStringsNulFree(table, row, i + 1, s);
      } else {
        var r := ReadField(table[i].kind, s);
        assert Kept(table, row, i)[0] == Some(row[i]);
        ReadStringsNulFree(table, row, i + 1, s[r.used..]);
        FieldNulFree(s);
      }
    }
  }

  lemma FieldNulFree(s: seq<byte>)
    ensures var r := ReadField(String, s);
      r.Got? && r.v.Text? && NulFree(r.v.b)
  {
    hide UnescapeFrom;
    var skip := if s != [] && s[0] == TAB then 1 else 0;
    UnescapeNulFree(s[skip..], false, NL);
  }

  /** A non-empty token is never taken for an empty string or binary. */
  lemma TokenNotTakenForEmpty(reader: Kind, kind: Kind, v: Value, rest: seq<byte>)
    requires reader == String || reader == Binary
    requires Fits(kind, v) && (kind == String ==> NulFree(v.b)) && PrintValue(kind, v) != []
    requires rest != [] && (rest[0] == TAB || rest[0] == NL)
    ensures !EmptyAt(PrintValue(kind, v) + rest)
    ensures ReadToken(reader, PrintValue(kind, v) + rest).Got? ==>
              ReadToken(reader, PrintValue(kind, v) + rest).v != Text([])
  {
    hide PrintValue, Unhex, UnescapeFrom;
    var p := PrintValue(kind, v);
    var s := p + rest;
    TokenClean(kind, v);
    assert s[0] == p[0] && p[0] in p;
    if reader == Binary {
      UnhexNonEmpty(s, NL);
    } else if p[0] != BACKSLASH {
      UnescapeCons(p[0], s[1..], false, NL);
      assert s == [p[0]] + s[1..];
    } else {
      OnlyStringsEscape(kind, v);
      UnescapeEscape(v.b, rest);
    }
  }

  /** A token that starts with a backslash comes from a string, printed in full. */
  lemma OnlyStringsEscape(kind: Kind, v: Value)
    requires Fits(kind, v) && (kind == String ==> NulFree(v.b))
    requires PrintValue(kind, v) != [] && PrintValue(kind, v)[0] == BACKSLASH
    ensures kind == String && PrintValue(kind, v) == Escape(v.b) && v.b != []
  {
    assert PrintValue(kind, v)[0] in PrintValue(kind, v);
    match kind
    case Signed => DecimalClean(v.z);
    case Unsigned => DecimalDigits(v.z);
    case String => EscapeClean(v.b); CStringNulFree(Escape(v.b));
    case Binary => HexClean(v.b); CStringNulFree(Hex(v.b));
  }

  /** The next printed field at or after `i`. */
  function NextPrinted(table: Table, i: nat): (j: nat)
    requires i <= |table|
    ensures i <= j <= |table| && (j < |table| ==> !table[j].discard)
    ensures forall k :: i <= k < j ==> table[k].discard
    decreases |table| - i
  {
    if i == |table| || !table[i].discard then i else NextPrinted(table, i + 1)
  }

  /** Discarded fields print nothing and read nothing. */
  lemma {:induction false} SkipDiscarded(table: Table, row: seq<Value>, i: nat, s: seq<byte>)
    requires RowFits(table, row) && i <= |row|
    ensures var j := NextPrinted(table, i);
      && TextFrom(table, row, i) == TextFrom(table, row, j)
      && (ReadFrom(table, i, s) == Row(Kept(table, row, i)) ==> ReadFrom(table, j, s) == Row(Kept(table, row, j)))
    decreases |row| - i
  {
    if i < |row| && table[i].discard {
      SkipDiscarded(table, row, i + 1, s);
      TextFromStep(table, row, i);
      assert Kept(table, row, i)[1..] == Kept(table, row, i + 1);
    }
  }

  /** When field `i` printed nothing and its tab was skipped as well, the first non-empty
      field after it is read one field too early, and the row does not come back. */
  lemma {:induction false} MisalignedRow(table: Table, row: seq<Value>, i: nat)
    requires RowFits(table, row) && i < |row| && NulFreeFrom(table, row, i)
    requires !table[i].discard && PrintsEmpty(table, row, i) && !AllEmptyFrom(table, row, i + 1)
    ensures ReadFrom(table, i, TextFrom(table, row, i + 1)) != Row(Kept(table, row, i))
    decreases |row| - i
  {
    hide PrintsEmpty, AllEmptyFrom, NulFreeFrom, PrintValue, TextFrom, ReadFrom, ReadField, Kept;
    var j := NextPrinted(table, i + 1);
    NextOfNotEmpty(table, row, i + 1);
    NulFreeLater(table, row, i, j);
    EmptyField(table, row, i);
    SkipDiscarded(table, row, i + 1, []);
    TextFromStep(table, row, j);
    TextFromStart(table, row, j + 1);
    var p, rest := PrintValue(table[j].kind, row[j]), TextFrom(table, row, j + 1);
    var s := [TAB] + p + rest;
    KeptStep(table, row, i, s);
    if p != [] {
      FieldNotEmpty(table[i].kind, table[j].kind, row[j], rest);
    } else {
      EmptyFieldRead(table[i].kind, rest);
      assert s == [TAB] + rest && s[1..] == rest;
      assert PrintsEmpty(table, row, j) by { PrintsNothing(table, row, j); }
      MisalignedRow(table, row, j);
      SkipDiscarded(table, row, i + 1, rest);
    }
  }

  /** A field that is printed and does not print as nothing, or one behind it. */
  lemma NextOfNotEmpty(table: Table, row: seq<Value>, i: nat)
    requires RowFits(table, row) && i <= |row| && !AllEmptyFrom(table, row, i)
    ensures var j := NextPrinted(table, i);
      j < |row| && !table[j].discard && (PrintsEmpty(table, row, j) ==> !AllEmptyFrom(table, row, j + 1))
  {
    hide PrintsEmpty;
  }

  lemma NulFreeLater(table: Table, row: seq<Value>, i: nat, j: nat)
    requires RowFits(table, row) && NulFreeFrom(table, row, i) && i <= j < |row|
    ensures NulFreeFrom(table, row, j)
    ensures !table[j].discard && table[j].kind == String ==> NulFree(row[j].b)
  {
  }

  lemma EmptyField(table: Table, row: seq<Value>, i: nat)
    requires RowFits(table, row) && NulFreeFrom(table, row, i) && i < |row|
    requires !table[i].discard && PrintsEmpty(table, row, i)
    ensures row[i] == DefaultValue(table[i].kind) == Text([]) && table[i].kind in {String, Binary}
  {
    hide PrintValue;
    EmptyToken(table[i].kind, row[i]);
  }

  lemma PrintsNothing(table: Table, row: seq<Value>, j: nat)
    requires RowFits(table, row) && j < |row|
    ensures PrintsEmpty(table, row, j) <==> PrintValue(table[j].kind, row[j]) == []
  {
  }

  /** A printed field that is not empty, read by a field that should be. */
  lemma FieldNotEmpty(reader: Kind, kind: Kind, v: Value, rest: seq<byte>)
    requires reader == String || reader == Binary
    requires Fits(kind, v) && (kind == String ==> NulFree(v.b)) && PrintValue(kind, v) != []
    requires rest != [] && (rest[0] == TAB || rest[0] == NL)
    ensures var r := ReadField(reader, [TAB] + PrintValue(kind, v) + rest); r.Got? ==> r.v != Text([])
  {
    hide PrintValue, ReadToken, ReadField, EmptyAt;
    var p := PrintValue(kind, v);
    TokenNotTakenForEmpty(reader, kind, v, rest);
    ReadAfterTab(reader, p + rest);
    assert [TAB] + p + rest == [TAB] + (p + rest);
  }

  lemma EmptyFieldRead(kind: Kind, rest: seq<byte>)
    requires rest != [] && (rest[0] == TAB || rest[0] == NL)
    ensures ReadField(kind, [TAB] + rest) == Got(DefaultValue(kind), 1)
  {
    ReadAfterTab(kind, rest);
  }

  lemma ReadAfterTab(kind: Kind, t: seq<byte>)
    ensures ReadField(kind, [TAB] + t) ==
      if EmptyAt(t) then Got(DefaultValue(kind), 1)
      else match ReadToken(kind, t)
           case BadField => BadField
           case Got(v, used) => Got(v, 1 + used)
  {
    assert ([TAB] + t)[1..] == t;
  }

  /** A row comes back only if its first field does and its other fields do after it. */
  lemma KeptStep(table: Table, row: seq<Value>, i: nat, s: seq<byte>)
    requires RowFits(table, row) && i < |row| && !table[i].discard
    ensures ReadFrom(table, i, s) == Row(Kept(table, row, i)) ==>
      var r := ReadField(table[i].kind, s);
      r.Got? && r.v == row[i] && ReadFrom(table, i + 1, s[r.used..]) == Row(Kept(table, row, i + 1))
  {
    assert Kept(table, row, i)[0] == Some(row[i]) && Kept(table, row, i)[1..] == Kept(table, row, i + 1);
  }

  // ---------------------------------------------------------------- the round trip, exactly

  /** What a caller can check before dumping: no string holds a NUL, and field 0 is discarded,
      prints as non-empty text, or every printed field is empty. */
  predicate Dumpable(table: Table, row: seq<Value>)
    requires RowFits(table, row)
  {
    && NulFreeFrom(table, row, 0)
    && (|row| > 0 && !table[0].discard && PrintsEmpty(table, row, 0) ==> AllEmptyFrom(table, row, 0))
  }

  /** A row printed by the writer is read back field by field exactly when it is dumpable. */
  lemma RowRoundTrip(table: Table, row: seq<Value>)
    requires RowFits(table, row)
    ensures ReadLine(table, Line(table, row)) == Row(Kept(table, row, 0)) <==> Dumpable(table, row)
  {
    hide PrintsEmpty, AllEmptyFrom, NulFreeFrom, TextFrom, ReadFrom, ReadLine, Kept, Line;
    var s := TextFrom(table, row, 0);
    assert ReadLine(table, Line(table, row)) == ReadFrom(table, 0, s) by { LineText(table, row); }
    if |row| == 0 || table[0].discard || !PrintsEmpty(table, row, 0) {
      if NulFreeFrom(table, row, 0) {
        FieldsRoundTrip(table, row, 0);
      }
    } else if NulFreeFrom(table, row, 0) {
      EmptyFirst(table, row);
      if AllEmptyFrom(table, row, 0) {
        AllEmptyPrintsTabs(table, row, 0);
        TabsReadEmpty(table, row, 0, s);
      } else {
        MisalignedRow(table, row, 0);
      }
    }
    if ReadFrom(table, 0, s) == Row(Kept(table, row, 0)) {
      ReadStringsNulFree(table, row, 0, s);
    }
  }

  lemma LineText(table: Table, row: seq<Value>)
    requires RowFits(table, row)
    ensures ReadLine(table, Line(table, row)) == ReadFrom(table, 0, TextFrom(table, row, 0))
  {
    hide PrintFrom, ReadFrom;
    assert Line(table, row) + [NUL] == TextFrom(table, row, 0);
  }

  /** A first field that prints as nothing leaves the text of the others. */
  lemma EmptyFirst(table: Table, row: seq<Value>)
    requires RowFits(table, row) && |row| > 0 && !table[0].discard && PrintsEmpty(table, row, 0)
    ensures TextFrom(table, row, 0) == TextFrom(table, row, 1)
    ensures AllEmptyFrom(table, row, 0) <==> AllEmptyFrom(table, row, 1)
  {
    hide PrintValue, TextFrom;
    TextFromStep(table, row, 0);
    assert [] + [] + TextFrom(table, row, 1) == TextFrom(table, row, 1);
  }

  /** Field by field: what a dumpable row reads back as, and what is left alone. */
  lemma RowComesBack(table: Table, row: seq<Value>, j: nat)
    requires RowFits(table, row) && Dumpable(table, row) && j < |row|
    ensures var r := ReadLine(table, Line(table, row));
      r.Row? && |r.values| == |row| && r.values[j] == if table[j].discard then None else Some(row[j])
  {
    hide ReadLine, Line, Dumpable;
    RowRoundTrip(table, row);
    KeptAt(table, row, 0, j);
  }

  lemma {:induction false} KeptAt(table: Table, row: seq<Value>, i: nat, j: nat)
    requires |table| == |row| && i <= j < |row|
    ensures |Kept(table, row, i)| == |row| - i
    ensures Kept(table, row, i)[j - i] == if table[j].discard then None else Some(row[j])
    decreases |row| - i
  {
    if i < j {
      KeptAt(table, row, i + 1, j);
    } else {
      KeptLength(table, row, i);
    }
  }

  lemma {:induction false} KeptLength(table: Table, row: seq<Value>, i: nat)
    requires |table| == |row| && i <= |row|
    ensures |Kept(table, row, i)| == |row| - i
    decreases |row| - i
  {
    if i < |row| {
      KeptLength(table, row, i + 1);
    }
  }

  lemma EmptyFirstFieldLost()
    ensures var table, row := [Field(String, false), Field(String, false)], [Text([]), Text([120])];
      RowFits(table, row) && ReadLine(table, Line(table, row)) != Row(Kept(table, row, 0))
  {
    var table, row := [Field(String, false), Field(String, false)], [Text([]), Text([120])];
    assert CString(Escape(row[0].b)) == [];
    assert Escape([120])[0] == 120;
    assert PrintsEmpty(table, row, 0) && !PrintsEmpty(table, row, 1);
    RowRoundTrip(table, row);
  }
}
