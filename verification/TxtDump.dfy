/** A dump file: rows printed one after the other and read back line by line. */
module TxtFile {
  import opened Basics
  import opened Bytes
  import opened TxtEscape
  import opened TxtRow

  predicate RowsFit(table: Table, rows: seq<seq<Value>>) {
    forall i :: 0 <= i < |rows| ==> RowFits(table, rows[i])
  }

  /** `write_row` for each row */
  function Dump(table: Table, rows: seq<seq<Value>>): seq<byte>
    requires RowsFit(table, rows)
  {
    if rows == [] then [] else Line(table, rows[0]) + Dump(table, rows[1..])
  }

  /** `getline`: up to and including the first newline, or to the end of the file. */
  function LineLength(s: seq<byte>): (n: nat)
    ensures n <= |s| && (s != [] ==> n > 0)
  {
    if s == [] then 0 else if s[0] == NL then 1 else 1 + LineLength(s[1..])
  }

  /** `read_row` until the end of the file */
  function Load(table: Table, s: seq<byte>): seq<RowResult>
    decreases |s|
  {
    if s == [] then []
    else [ReadLine(table, s[..LineLength(s)])] + Load(table, s[LineLength(s)..])
  }

  function KeptRows(table: Table, rows: seq<seq<Value>>): seq<RowResult>
    requires RowsFit(table, rows)
  {
    if rows == [] then [] else [Row(Kept(table, rows[0], 0))] + KeptRows(table, rows[1..])
  }

  predicate AllDumpable(table: Table, rows: seq<seq<Value>>)
    requires RowsFit(table, rows)
  {
    forall i :: 0 <= i < |rows| ==> Dumpable(table, rows[i])
  }

  lemma {:induction false} PrintFromClean(table: Table, row: seq<Value>, i: nat)
    requires RowFits(table, row) && i <= |row|
    ensures NL !in PrintFrom(table, row, i)
    decreases |row| - i
  {
    if i < |row| {
      PrintFromClean(table, row, i + 1);
      TokenClean(table[i].kind, row[i]);
    }
  }

  lemma {:induction false} LineLengthAt(s: seq<byte>, rest: seq<byte>)
    requires NL !in s
    ensures LineLength(s + [NL] + rest) == |s| + 1
  {
    if s == [] {
      assert (s + [NL] + rest)[0] == NL;
    } else {
      assert (s + [NL] + rest)[1..] == s[1..] + [NL] + rest;
      LineLengthAt(s[1..], rest);
    }
  }

  /** Every row of the file comes back, each on its own line, exactly when every row is dumpable. */
  lemma {:induction false} FileRoundTrip(table: Table, rows: seq<seq<Value>>)
    requires RowsFit(table, rows)
    ensures |Load(table, Dump(table, rows))| == |rows|
    ensures Load(table, Dump(table, rows)) == KeptRows(table, rows) <==> AllDumpable(table, rows)
  {
    hide Line, ReadLine, Dumpable;
    if rows != [] {
      var rest := rows[1..];
      FileRoundTrip(table, rest);
      RowRoundTrip(table, rows[0]);
      LineEndsRow(table, rows[0], Dump(table, rest));
      var line, s := Line(table, rows[0]), Dump(table, rows);
      assert s[..|line|] == line && s[|line|..] == Dump(table, rest);
      var first, kept := ReadLine(table, line), Row(Kept(table, rows[0], 0));
      assert Load(table, s) == [first] + Load(table, Dump(table, rest));
      assert KeptRows(table, rows) == [kept] + KeptRows(table, rest);
      assert Load(table, s) == KeptRows(table, rows) <==>
             first == kept && Load(table, Dump(table, rest)) == KeptRows(table, rest) by {
        assert ([first] + Load(table, Dump(table, rest)))[0] == first;
        assert ([first] + Load(table, Dump(table, rest)))[1..] == Load(table, Dump(table, rest));
        assert ([kept] + KeptRows(table, rest))[0] == kept;
        assert ([kept] + KeptRows(table, rest))[1..] == KeptRows(table, rest);
      }
      AllDumpableStep(table, rows);
    }
  }

  lemma AllDumpableStep(table: Table, rows: seq<seq<Value>>)
    requires RowsFit(table, rows) && rows != []
    ensures AllDumpable(table, rows) <==> Dumpable(table, rows[0]) && AllDumpable(table, rows[1..])
  {
    hide Dumpable;
    assert forall i :: 0 < i < |rows| ==> rows[i] == rows[1..][i - 1];
  }

  lemma LineEndsRow(table: Table, row: seq<Value>, rest: seq<byte>)
    requires RowFits(table, row)
    ensures LineLength(Line(table, row) + rest) == |Line(table, row)| > 0
  {
    PrintFromClean(table, row, 0);
    LineLengthAt(PrintFrom(table, row, 0), rest);
  }
}

/** `cTxtWriter` */
module TxtWriter {
  import opened Bytes
  import opened TxtEscape
  import opened TxtHex
  import opened TxtNumber
  import opened TxtRow

  /** What `fprintf("%s")` takes from a buffer holding `s` and its terminator. */
  lemma {:induction false} PrintBuffer(s: seq<byte>, rest: seq<byte>)
    ensures CString(s + [NUL] + rest) == CString(s)
  {
    if s == [] {
      assert (s + [NUL] + rest)[0] == NUL;
    } else {
      assert (s + [NUL] + rest)[1..] == s[1..] + [NUL] + rest;
      PrintBuffer(s[1..], rest);
    }
  }

  class Writer {
    var open: bool
    var out: seq<byte>          // what has been written to the file
    var escape: array<byte>     // `stEscape`

    constructor (open: bool)
      ensures this.open == open && out == [] && fresh(escape)
    {
      this.open, out := open, [];
      escape := new byte[0];
    }

    /** `stEscape.expand`: at least `size` bytes */
    method Expand(size: nat)
      modifies this`escape
      ensures escape.Length >= size && (escape == old(escape) || fresh(escape))
    {
      if escape.Length < size {
        escape := new byte[size];
      }
    }

    method WriteValue(kind: Kind, v: Value) returns (ret: int)
      requires open && Fits(kind, v)
      modifies this`out, this`escape, escape
      ensures ret == 0 && out == old(out) + PrintValue(kind, v)
      ensures escape == old(escape) || fresh(escape)
    {
      ret := 0;
      match kind
      case Signed => out := out + SignedDecimal(v.z);
      case Unsigned => out := out + Decimal(v.z);
      case String =>
        Expand(2 * |v.b| + 1);
        assert v.b[..|v.b|] == v.b;
        var n := EscapeStr(escape, v.b, |v.b|);
        PrintBuffer(escape[..n], escape[n + 1..]);
        assert escape[..] == escape[..n] + [NUL] + escape[n + 1..];
        out := out + CString(escape[..]);
      case Binary =>
        Expand(2 * |v.b| + 1);
        var n := EscapeBin(escape, v.b);
        PrintBuffer(escape[..n], escape[n + 1..]);
        assert escape[..] == escape[..n] + [NUL] + escape[n + 1..];
        out := out + CString(escape[..]);
    }

    method WriteRow(table: Table, row: seq<Value>) returns (ret: int)
      requires RowFits(table, row)
      modifies this`out, this`escape, escape
      ensures ret == if old(open) then 0 else -1
      ensures out == old(out) + if ret == 0 then Line(table, row) else []
      ensures escape == old(escape) || fresh(escape)
    {
      hide PrintValue, Fits;
      if !open {
        return -1;
      }
      ghost var out0 := out;
      for i := 0 to |table|
        invariant out0 + PrintFrom(table, row, 0) == out + PrintFrom(table, row, i)
        invariant escape == old(escape) || fresh(escape)
      {
        if table[i].discard {
          continue;
        }
        ghost var before := out;
        if i > 0 {
          out := out + [TAB];
        }
        ret := WriteValue(table[i].kind, row[i]);
        assert out == before + ((if i > 0 then [TAB] else []) + PrintValue(table[i].kind, row[i]));
      }
      assert out == out0 + PrintFrom(table, row, 0);
      out := out + [NL];
      ret := 0;
    }
  }
}

/** `cTxtReader`: rows are decoded in the line buffer, and strings point into it. */
module TxtReader {
  import opened Basics
  import opened Bytes
  import opened TxtEscape
  import opened TxtHex
  import opened TxtNumber
  import opened TxtRow
  import opened TxtFile

  /** A field of the row handed to the caller; `Slice` is a pointer into the line buffer. */
  datatype Cell = Untouched | Num(z: int) | Slice(ptr: nat, len: nat)

  predicate Within(c: Cell, end: nat) { c.Slice? ==> c.ptr + c.len <= end }

  /** What the caller sees through a cell while the buffer holds `b`. */
  function CellValue(b: seq<byte>, c: Cell): Option<Value>
    requires Within(c, |b|)
  {
    match c
    case Untouched => None
    case Num(z) => Some(Integer(z))
    case Slice(ptr, len) => Some(Text(b[ptr..ptr + len]))
  }

  /** The cells read so far show the values decoded so far. */
  ghost predicate Shows(b: seq<byte>, end: nat, cells: seq<Cell>, values: seq<Option<Value>>) {
    && end <= |b| && |cells| == |values|
    && forall k :: 0 <= k < |cells| ==> Within(cells[k], end) && CellValue(b, cells[k]) == values[k]
  }

  /** Values that point into the buffer survive whatever is decoded after them. */
  lemma ShowsLater(b: seq<byte>, b': seq<byte>, end: nat, end': nat, cells: seq<Cell>, values: seq<Option<Value>>)
    requires Shows(b, end, cells, values) && |b'| == |b| && b'[..end] == b[..end] && end <= end' <= |b|
    ensures Shows(b', end', cells, values)
  {
    forall k | 0 <= k < |cells| ensures Within(cells[k], end') && CellValue(b', cells[k]) == values[k] {
      if cells[k].Slice? {
        var c := cells[k];
        assert b'[c.ptr..c.ptr + c.len] == b'[..end][c.ptr..c.ptr + c.len];
        assert b[c.ptr..c.ptr + c.len] == b[..end][c.ptr..c.ptr + c.len];
      }
    }
  }

  /** Having saved the fields before `i` with the cursor at `cur`, what is left decides the row. */
  ghost predicate Saving(table: Table, s: seq<byte>, i: nat, cur: nat, values: seq<Option<Value>>) {
    && i <= |table| && cur <= |s|
    && match ReadFrom(table, i, s[cur..])
       case BadRow => ReadFrom(table, 0, s) == BadRow
       case Row(vs) => ReadFrom(table, 0, s) == Row(values + vs)
  }

  lemma SavingStarts(table: Table, s: seq<byte>)
    ensures Saving(table, s, 0, 0, [])
  {
    assert s[0..] == s;
    match ReadFrom(table, 0, s)
    case BadRow =>
    case Row(vs) => assert [] + vs == vs;
  }

  lemma SavingStep(table: Table, s: seq<byte>, i: nat, cur: nat, values: seq<Option<Value>>)
    requires Saving(table, s, i, cur, values) && i < |table|
    ensures if table[i].discard then Saving(table, s, i + 1, cur, values + [None])
      else match ReadField(table[i].kind, s[cur..])
           case BadField => ReadFrom(table, 0, s) == BadRow
           case Got(v, used) => Saving(table, s, i + 1, cur + used, values + [Some(v)])
  {
    hide ReadField;
    if table[i].discard {
      match ReadFrom(table, i + 1, s[cur..])
      case BadRow =>
      case Row(vs) => assert values + ([None] + vs) == (values + [None]) + vs;
    } else {
      match ReadField(table[i].kind, s[cur..])
      case BadField =>
      case Got(v, used) =>
        assert s[cur..][used..] == s[cur + used..];
        match ReadFrom(table, i + 1, s[cur + used..])
        case BadRow =>
        case Row(vs) => assert values + ([Some(v)] + vs) == (values + [Some(v)]) + vs;
    }
  }

  lemma SavingEnds(table: Table, s: seq<byte>, cur: nat, values: seq<Option<Value>>)
    requires Saving(table, s, |table|, cur, values)
    ensures ReadFrom(table, 0, s) == Row(values)
  {
    assert values + [] == values;
  }

  /** A field is read at `t`, after the tab if there is one. */
  lemma ReadFieldAt(kind: Kind, s: seq<byte>, t: seq<byte>)
    requires s == [TAB] + t || (s == t && s != [] && s[0] != TAB)
    ensures ReadField(kind, s) ==
      if EmptyAt(t) then Got(DefaultValue(kind), |s| - |t|)
      else match ReadToken(kind, t)
           case BadField => BadField
           case Got(v, used) => Got(v, |s| - |t| + used)
  {
    if s == [TAB] + t {
      assert s[1..] == t;
    } else {
      assert s[0..] == t;
    }
  }

  class Reader {
    var open: bool
    const file: seq<byte>
    var pos: nat                // how much of the file `getline` has consumed
    var line: array<byte>       // `pszLine`

    ghost predicate Valid()
      reads this
    {
      pos <= |file|
    }

    constructor (open: bool, file: seq<byte>)
      ensures Valid() && this.open == open && this.file == file && pos == 0 && fresh(line)
    {
      this.open, this.file, pos := open, file, 0;
      line := new byte[0];
    }

    /** `SetDefaultValue` */
    function DefaultCell(kind: Kind): Cell {
      if kind == Signed || kind == Unsigned then Num(0) else Slice(0, 0)
    }

    /** `strtoll` or `strtoull` at the cursor: never past the terminating NUL. */
    method Number2Value(cur: nat, kind: Kind) returns (c: Conversion)
      requires cur <= line.Length && NUL in line[cur..]
      ensures c == if kind == Signed then ReadSigned(line[cur..]) else ReadUnsigned(line[cur..])
      ensures c.Good? ==> cur + c.used <= line.Length && NUL in line[cur + c.used..]
    {
      hide Parse;
      ghost var s := line[cur..];
      ghost var nul :| 0 <= nul < |s| && s[nul] == NUL;
      ParseBeforeNul(s, nul);
      c := if kind == Signed then ReadSigned(line[cur..]) else ReadUnsigned(line[cur..]);
      if c.Good? {
        assert line[cur + c.used..][nul - c.used] == NUL;
      }
    }

    /** The part of `Str2Value` after the empty-field test. */
    method Token2Value(cur: nat, kind: Kind) returns (ret: int, cur': nat, cell: Cell)
      requires cur <= line.Length && NUL in line[cur..]
      modifies line
      ensures match ReadToken(kind, old(line[cur..]))
        case BadField => ret == -1
        case Got(v, used) =>
          && ret == 0 && cur' == cur + used && cur' <= line.Length && NUL in line[cur'..]
          && Within(cell, cur') && CellValue(line[..], cell) == Some(v)
          && line[cur'..] == old(line[cur'..])
      ensures line[..cur] == old(line[..cur])
    {
      hide UnescapeFrom, Unhex, ReadSigned, ReadUnsigned, Stops;
      ret, cur', cell := 0, cur, Untouched;
      if kind == String {
        var len;
        cur', len := UnescapeStr(line, cur, NL);
        cell := Slice(cur, len);
      } else if kind == Binary {
        var len;
        cur', len := UnescapeBin(line, cur, NL);
        if len < 0 { return -1, cur', Untouched; }
        cell := Slice(cur, len);
      } else {
        var c := Number2Value(cur, kind);
        if c.BadNumber? { return -1, cur, Untouched; }
        cur', cell := cur + c.used, Num(c.value);
      }
    }

    method Str2Value(cur: nat, kind: Kind) returns (ret: int, cur': nat, cell: Cell)
      requires cur <= line.Length && NUL in line[cur..]
      modifies line
      ensures match ReadField(kind, old(line[cur..]))
        case BadField => ret == -1
        case Got(v, used) =>
          && ret == 0 && cur' == cur + used && cur' <= line.Length && NUL in line[cur'..]
          && Within(cell, cur') && CellValue(line[..], cell) == Some(v)
          && line[cur'..] == old(line[cur'..])
      ensures line[..cur] == old(line[..cur])
    {
      hide ReadToken, ReadField;
      ghost var s := line[cur..];
      cur' := cur;
      if line[cur'] == TAB {
        cur' := cur' + 1;
        assert s == [TAB] + line[cur'..];
      }
      var start := cur';
      ReadFieldAt(kind, s, line[start..]);
      assert EmptyAt(line[start..]) <==> Stops(line[start], NL);
      if Stops(line[start], NL) {
        ret, cell := 0, DefaultCell(kind);
        return;
      }
      ret, cur', cell := Token2Value(start, kind);
      assert line[..cur] == line[..start][..cur];
    }

    method SaveRow(table: Table) returns (ret: int, cells: seq<Cell>)
      requires NUL in line[..]
      modifies line
      ensures match ReadFrom(table, 0, old(line[..]))
        case BadRow => ret == -1
        case Row(values) => ret == 0 && Shows(line[..], line.Length, cells, values)
    {
      hide ReadFrom, ReadField, Saving;
      ghost var orig, values := line[..], [];
      SavingStarts(table, orig);
      var cur: nat := 0;
      cells := [];
      for i := 0 to |table|
        invariant cur <= line.Length && NUL in line[cur..] && line[cur..] == orig[cur..]
        invariant Shows(line[..], cur, cells, values)
        invariant Saving(table, orig, i, cur, values)
      {
        SavingStep(table, orig, i, cur, values);
        if table[i].discard {
          cells, values := cells + [Untouched], values + [None];
          continue;
        }
        ghost var b, cur0 := line[..], cur;
        var cell;
        ret, cur, cell := Str2Value(cur, table[i].kind);
        if ret != 0 {
          return -1, [];
        }
        assert line[cur..] == b[cur..] == b[cur0..][cur - cur0..] == orig[cur..];
        ShowsLater(b, line[..], cur0, cur, cells, values);
        cells, values := cells + [cell], values + [CellValue(line[..], cell)];
      }
      SavingEnds(table, orig, cur, values);
      ret := 0;
    }

    /** `read_row`: -1 when no file is open, -2 at the end of the file, -3 on a bad row. */
    method ReadRow(table: Table) returns (ret: int, cells: seq<Cell>)
      requires Valid()
      modifies this`pos, this`line
      ensures Valid() && (line == old(line) || fresh(line))
      ensures !open ==> ret == -1 && pos == old(pos)
      ensures open && old(pos) == |file| ==> ret == -2 && pos == old(pos)
      ensures open && old(pos) < |file| ==>
        && pos == old(pos) + LineLength(file[old(pos)..])
        && match ReadLine(table, file[old(pos)..pos])
           case BadRow => ret == -3
           case Row(values) => ret == 0 && Shows(line[..], line.Length, cells, values)
    {
      hide ReadFrom;
      if !open {
        return -1, [];
      }
      if pos == |file| {
        return -2, [];
      }
      var n := LineLength(file[pos..]);
      var text := file[pos..pos + n] + [NUL];
      line := new byte[n + 1](i requires 0 <= i < |text| => text[i]);
      assert line[..] == text && text[n] == NUL;
      pos := pos + n;
      ret, cells := SaveRow(table);
      if ret != 0 {
        ret := -3;
      }
    }
  }
}
