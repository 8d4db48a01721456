/**
  The binary tokens of the text dump: two lower-case hex digits a byte on the way out
  (`EscapeBin`), `sscanf("%02x%n")` in a loop on the way in (`UnescapeBin`, in place).
 */
module TxtHex {
  import opened Bytes
  import opened TxtEscape

  function HexDigit(d: int): byte
    requires 0 <= d < 16
  {
    if d < 10 then 48 + d else 87 + d
  }

  /** The value of a hex digit, 16 for any other byte. */
  function HexValue(c: byte): (v: int)
    ensures 0 <= v <= 16
  {
    if 48 <= c <= 57 then c - 48
    else if 97 <= c <= 102 then c - 87
    else if 65 <= c <= 70 then c - 55
    else 16
  }

  function HexByte(b: byte): seq<byte> { [HexDigit(b / 16), HexDigit(b % 16)] }

  function Hex(s: seq<byte>): seq<byte> {
    if s == [] then [] else HexByte(s[0]) + Hex(s[1..])
  }

  /** How many leading bytes `scanf` skips as white space. */
  function Lead(s: seq<byte>): (k: nat)
    ensures k <= |s|
    ensures k < |s| ==> !IsSpace(s[k])
  {
    if s == [] || !IsSpace(s[0]) then 0 else 1 + Lead(s[1..])
  }

  datatype Scan = NoMatch | Match(value: byte, used: nat)

  /** `sscanf(s, "%02x%n")`: white space is skipped, then at most two bytes form an
      optionally signed hex number; the value is stored into a byte. */
  function ScanHex2(s: seq<byte>): (r: Scan)
    ensures r.Match? ==> 0 < r.used <= |s|
  {
    var k := Lead(s);
    if k == |s| then NoMatch
    else
      var c := s[k];
      var d: byte := if k + 1 < |s| then s[k + 1] else NUL;
      if c == 43 || c == 45 then
        if HexValue(d) == 16 then NoMatch
        else Match(if c == 45 then (256 - HexValue(d)) % 256 else HexValue(d), k + 2)
      else if HexValue(c) == 16 then NoMatch
      else if HexValue(d) < 16 then Match(16 * HexValue(c) + HexValue(d), k + 2)
      else if c == 48 && (d == 120 || d == 88) then NoMatch
      else Match(HexValue(c), k + 1)
  }

  datatype HexToken = HexError | HexToken(out: seq<byte>, used: nat)

  /** The decoder on a value. */
  function Unhex(s: seq<byte>, delim: byte): (t: HexToken)
    ensures t.HexToken? ==> |t.out| <= t.used <= |s|
    decreases |s|
  {
    if s == [] || Stops(s[0], delim) then HexToken([], 0)
    else
      var m := ScanHex2(s);
      if m.NoMatch? then HexError
      else
        var t := Unhex(s[m.used..], delim);
        if t.HexError? then HexError else HexToken([m.value] + t.out, m.used + t.used)
  }

  // ---------------------------------------------------------------- laws

  lemma HexDigits(b: byte)
    ensures HexValue(HexDigit(b / 16)) == b / 16 && HexValue(HexDigit(b % 16)) == b % 16
    ensures HexDigit(b / 16) > 32 && HexDigit(b % 16) > 32
    ensures 16 * (b / 16) + b % 16 == b
  {
  }

  lemma {:induction false} HexClean(s: seq<byte>)
    ensures TAB !in Hex(s) && NL !in Hex(s) && NulFree(Hex(s))
    ensures |Hex(s)| == 2 * |s|
    ensures forall c :: c in Hex(s) ==> 48 <= c <= 57 || 97 <= c <= 102
  {
    if s != [] {
      HexClean(s[1..]);
      HexDigits(s[0]);
    }
  }

  lemma {:induction false} HexAppend(a: seq<byte>, b: seq<byte>)
    ensures Hex(a + b) == Hex(a) + Hex(b)
  {
    if a == [] {
      assert a + b == b;
    } else {
      assert (a + b)[1..] == a[1..] + b;
      HexAppend(a[1..], b);
    }
  }

  const LOWER: seq<byte> := [48, 49, 50, 51, 52, 53, 54, 55, 56, 57, 97, 98, 99, 100, 101, 102]
  const UPPER: seq<byte> := [48, 49, 50, 51, 52, 53, 54, 55, 56, 57, 65, 66, 67, 68, 69, 70]

  /** A byte is written as "0123456789abcdef" says, the high digit first, and read from either
      case. */
  lemma HexTexts(hi: nat, lo: nat)
    requires hi < 16 && lo < 16
    ensures Hex([16 * hi + lo]) == [LOWER[hi], LOWER[lo]] && Hex([]) == []
    ensures ScanHex2([LOWER[hi], LOWER[lo]]) == ScanHex2([UPPER[hi], UPPER[lo]]) == Match(16 * hi + lo, 2)
    ensures ScanHex2([UPPER[lo], NL]) == Match(lo, 1)
  {
    hide ScanHex2, HexDigit, HexValue, Hex;
    var b: byte := 16 * hi + lo;
    DigitTable(hi);
    DigitTable(lo);
    OneByte(b);
    assert b / 16 == hi && b % 16 == lo;
    ScanDigits(LOWER[hi], LOWER[lo]);
    ScanDigits(UPPER[hi], UPPER[lo]);
    ScanLastDigit(UPPER[lo]);
  }

  lemma OneByte(b: byte)
    ensures Hex([b]) == [HexDigit(b / 16), HexDigit(b % 16)] && Hex([]) == []
  {
    hide HexDigit;
    assert [b][1..] == [];
  }

  lemma ScanDigits(c: byte, d: byte)
    requires c > 45 && HexValue(c) < 16 && HexValue(d) < 16
    ensures ScanHex2([c, d]) == Match(16 * HexValue(c) + HexValue(d), 2)
  {
    hide HexValue;
    assert Lead([c, d]) == 0;
  }

  lemma ScanLastDigit(c: byte)
    requires c > 45 && HexValue(c) < 16
    ensures ScanHex2([c, NL]) == Match(HexValue(c), 1)
  {
    assert Lead([c, NL]) == 0;
  }

  lemma DigitTable(d: nat)
    requires d < 16
    ensures HexDigit(d) == LOWER[d] && HexValue(LOWER[d]) == HexValue(UPPER[d]) == d
    ensures LOWER[d] > 45 && UPPER[d] > 45
  {
  }

  function OneLater(r: Scan): Scan { if r.NoMatch? then NoMatch else Match(r.value, r.used + 1) }

  /** What else `%02x` takes: white space in front, one digit behind a sign, negated in a byte
      behind a minus; "0x" and any other byte do not match. */
  lemma ScanTexts(c: byte, d: nat, s: seq<byte>)
    requires d < 16
    ensures c in {9, 10, 11, 12, 13, 32} ==> ScanHex2([c] + s) == OneLater(ScanHex2(s))
    ensures ScanHex2([43, LOWER[d]] + s) == Match(d, 2)
    ensures ScanHex2([45, LOWER[d]] + s) == Match(if d == 0 then 0 else 256 - d, 2)
    ensures ScanHex2([48, 120] + s) == ScanHex2([48, 88] + s) == NoMatch
    ensures c !in {9, 10, 11, 12, 13, 32, 43, 45} && c !in LOWER && c !in UPPER ==> ScanHex2([c] + s) == NoMatch
  {
    hide HexValue, Lead, LOWER, UPPER;
    if c in {9, 10, 11, 12, 13, 32} {
      ScanSpace(c, s);
    }
    ScanSigned(d, s);
    ScanPrefix(s);
    ScanOther(c, s);
  }

  lemma ScanSpace(c: byte, s: seq<byte>)
    requires c in {9, 10, 11, 12, 13, 32}
    ensures ScanHex2([c] + s) == OneLater(ScanHex2(s))
  {
    hide HexValue;
    var u, k := [c] + s, Lead(s);
    assert u[1..] == s && Lead(u) == 1 + k;
    assert (k < |s| ==> u[1 + k] == s[k]) && (k + 1 < |s| ==> u[2 + k] == s[k + 1]);
  }

  lemma ScanSigned(d: nat, s: seq<byte>)
    requires d < 16
    ensures ScanHex2([43, LOWER[d]] + s) == Match(d, 2)
    ensures ScanHex2([45, LOWER[d]] + s) == Match(if d == 0 then 0 else 256 - d, 2)
  {
    hide HexValue;
    DigitTable(d);
    assert Lead([43, LOWER[d]] + s) == 0 && Lead([45, LOWER[d]] + s) == 0;
  }

  lemma ScanPrefix(s: seq<byte>)
    ensures ScanHex2([48, 120] + s) == ScanHex2([48, 88] + s) == NoMatch
  {
    assert Lead([48, 120] + s) == 0 && Lead([48, 88] + s) == 0;
  }

  lemma ScanOther(c: byte, s: seq<byte>)
    ensures c !in {9, 10, 11, 12, 13, 32, 43, 45} && c !in LOWER && c !in UPPER ==> ScanHex2([c] + s) == NoMatch
  {
    hide HexValue;
    if c !in {9, 10, 11, 12, 13, 32, 43, 45} {
      assert Lead([c] + s) == 0;
      DigitListed(c);
    }
  }

  lemma DigitListed(c: byte)
    ensures HexValue(c) < 16 ==> c in LOWER || c in UPPER
  {
    if 48 <= c <= 57 {
      assert LOWER[c - 48] == c;
    } else if 97 <= c <= 102 {
      assert LOWER[c - 87] == c;
    } else if 65 <= c <= 70 {
      assert UPPER[c - 55] == c;
    }
  }

  lemma HexCons(b: byte, s: seq<byte>)
    ensures Hex([b] + s) == HexByte(b) + Hex(s)
  {
    assert ([b] + s)[1..] == s;
  }

  lemma ScanHexByte(b: byte, tail: seq<byte>)
    ensures ScanHex2(HexByte(b) + tail) == Match(b, 2)
  {
    HexDigits(b);
    var s := HexByte(b) + tail;
    assert s[0] == HexDigit(b / 16) && s[1] == HexDigit(b % 16);
    assert Lead(s) == 0;
  }

  /** Unhexing undoes hexing, whatever follows the token. */
  lemma {:induction false} UnhexHex(s: seq<byte>, rest: seq<byte>)
    requires rest == [] || Stops(rest[0], NL)
    ensures Unhex(Hex(s) + rest, NL) == HexToken(s, |Hex(s)|)
  {
    hide ScanHex2, HexDigit;
    if s == [] {
      assert Hex(s) + rest == rest;
    } else {
      var tail := Hex(s[1..]) + rest;
      UnhexHex(s[1..], rest);
      SplitFirst(s);
      var all := HexByte(s[0]) + tail;
      assert Hex(s) + rest == all;
      ScanHexByte(s[0], tail);
      HexDigits(s[0]);
      assert all[2..] == tail && all[0] == HexDigit(s[0] / 16);
    }
  }

  /** A token that does not start at a stop yields at least one byte or an error. */
  lemma UnhexNonEmpty(s: seq<byte>, delim: byte)
    requires s != [] && !Stops(s[0], delim)
    ensures Unhex(s, delim).HexToken? ==> Unhex(s, delim).out != []
  {
  }

  // ---------------------------------------------------------------- buffers

  /** `EscapeBin` */
  method EscapeBin(to: array<byte>, from: seq<byte>) returns (n: nat)
    requires 2 * |from| + 1 <= to.Length
    modifies to
    ensures n == |Hex(from)| < to.Length
    ensures to[..n] == Hex(from) && to[n] == NUL
    ensures to[n + 1..] == old(to[n + 1..])
  {
    hide Hex;
    HexClean([]);
    n := 0;
    for i := 0 to |from|
      invariant n == 2 * i
      invariant Hex(from) == to[..n] + Hex(from[i..])
      invariant to[n..] == old(to[n..])
    {
      var b := from[i];
      HexCons(b, from[i + 1..]);
      assert from[i..] == [b] + from[i + 1..];
      ghost var done := to[..n];
      to[n] := HexDigit(b / 16);
      to[n + 1] := HexDigit(b % 16);
      n := n + 2;
      assert to[..n] == done + HexByte(b);
    }
    to[n] := NUL;
  }

  /** Having read `s[..cur]` and written `done`, what is left decides the token. */
  ghost predicate Unhexing(s: seq<byte>, cur: nat, delim: byte, done: seq<byte>) {
    && cur <= |s|
    && var t := Unhex(s[cur..], delim);
       Unhex(s, delim) == if t.HexError? then HexError else HexToken(done + t.out, cur + t.used)
  }

  lemma UnhexingStarts(s: seq<byte>, delim: byte)
    ensures Unhexing(s, 0, delim, [])
  {
    assert s[0..] == s;
  }

  lemma UnhexingStep(s: seq<byte>, cur: nat, delim: byte, done: seq<byte>)
    requires Unhexing(s, cur, delim, done) && cur < |s| && !Stops(s[cur], delim)
    ensures var m := ScanHex2(s[cur..]);
      if m.NoMatch? then Unhex(s, delim).HexError?
      else cur + m.used <= |s| && Unhexing(s, cur + m.used, delim, done + [m.value])
  {
    hide ScanHex2, Stops;
    var m := ScanHex2(s[cur..]);
    assert s[cur..][0] == s[cur];
    if m.Match? {
      assert s[cur..][m.used..] == s[cur + m.used..];
      var t := Unhex(s[cur + m.used..], delim);
      if t.HexToken? {
        assert done + ([m.value] + t.out) == (done + [m.value]) + t.out;
      }
    }
  }

  lemma UnhexingEnds(s: seq<byte>, cur: nat, delim: byte, done: seq<byte>)
    requires Unhexing(s, cur, delim, done) && cur < |s| && Stops(s[cur], delim)
    ensures Unhex(s, delim) == HexToken(done, cur)
  {
    assert done + [] == done;
  }

  /** A scan never passes the terminating NUL. */
  lemma {:induction false} ScanBeforeNul(s: seq<byte>, nul: nat)
    requires nul < |s| && s[nul] == NUL
    ensures Lead(s) <= nul
    ensures ScanHex2(s).Match? ==> ScanHex2(s).used <= nul
  {
    if IsSpace(s[0]) {
      ScanBeforeNul(s[1..], nul - 1);
    }
  }

  lemma ScanLeavesNul(b: seq<byte>, cur: nat)
    requires cur <= |b| && NUL in b[cur..] && ScanHex2(b[cur..]).Match?
    ensures var next := cur + ScanHex2(b[cur..]).used; next < |b| && NUL in b[next..]
  {
    hide ScanHex2;
    var nul :| 0 <= nul < |b[cur..]| && b[cur..][nul] == NUL;
    ScanBeforeNul(b[cur..], nul);
    var used := ScanHex2(b[cur..]).used;
    assert b[cur + used..][nul - used] == NUL;
  }

  ghost predicate HexLoop(b: seq<byte>, b0: seq<byte>, start: nat, p: nat, at: nat, delim: byte, done: seq<byte>) {
    && InPlace(b, b0, start, p, start + at, done)
    && Unhexing(b0[start..], at, delim, done)
    && start + at < |b0| && NUL in b0[start + at..]
  }

  lemma HexLoopStarts(b: seq<byte>, start: nat, delim: byte)
    requires start <= |b| && NUL in b[start..]
    ensures HexLoop(b, b, start, start, 0, delim, [])
  {
    UnhexingStarts(b[start..], delim);
  }

  lemma HexLoopStep(b: seq<byte>, b0: seq<byte>, start: nat, p: nat, at: nat, delim: byte, done: seq<byte>)
    requires HexLoop(b, b0, start, p, at, delim, done) && start + at < |b| && p < |b| && !Stops(b[start + at], delim)
    ensures match ScanHex2(b[start + at..])
      case NoMatch => Unhex(b0[start..], delim).HexError?
      case Match(v, used) => used > 0 && HexLoop(b[p := v], b0, start, p + 1, at + used, delim, done + [v])
  {
    hide Unhex, ScanHex2, Unhexing, InPlace, Stops;
    var s, cur := b0[start..], start + at;
    UnreadAt(b, b0, start, p, cur, done);
    assert s[at..] == b0[cur..] && s[at] == b0[cur];
    UnhexingStep(s, at, delim, done);
    var m := ScanHex2(b0[cur..]);
    if m.Match? {
      HexLoopMatch(b, b0, start, p, cur, done, m.value, m.used);
    }
  }

  /** The buffer after a byte was scanned and written. */
  lemma HexLoopMatch(b: seq<byte>, b0: seq<byte>, start: nat, p: nat, cur: nat, done: seq<byte>, v: byte, used: nat)
    requires InPlace(b, b0, start, p, cur, done) && p < |b| && cur < |b0| && NUL in b0[cur..]
    requires ScanHex2(b0[cur..]) == Match(v, used)
    ensures used > 0 && cur + used < |b0| && NUL in b0[cur + used..]
    ensures InPlace(b[p := v], b0, start, p + 1, cur + used, done + [v])
  {
    hide ScanHex2, InPlace;
    UnreadAt(b, b0, start, p, cur, done);
    ScanLeavesNul(b0, cur);
    InPlaceWrite(b, b0, start, p, cur, done, v);
    InPlaceRead(b[p := v], b0, start, p + 1, cur + 1, done + [v], cur + used);
  }

  lemma HexLoopEnds(b: seq<byte>, b0: seq<byte>, start: nat, p: nat, at: nat, delim: byte, done: seq<byte>)
    requires HexLoop(b, b0, start, p, at, delim, done) && start + at < |b| && Stops(b[start + at], delim)
    ensures p <= |b| && Unhex(b0[start..], delim) == HexToken(b[start..p], at)
  {
    UnreadAt(b, b0, start, p, start + at, done);
    UnhexingEnds(b0[start..], at, delim, done);
  }

  /** `UnescapeBin`: decodes the token at `start` into the same buffer; `len` is -1 when a
      scan fails, and then, too, nothing before `start` or from the cursor on was touched. */
  method UnescapeBin(buf: array<byte>, start: nat, delim: byte) returns (cur: nat, len: int)
    requires start <= buf.Length && NUL in buf[start..]
    modifies buf
    ensures start <= cur < buf.Length
    ensures match Unhex(old(buf[start..]), delim)
      case HexError => len == -1
      case HexToken(out, used) =>
        cur == start + used && len == |out| && buf[start..start + len] == out && Stops(buf[cur], delim)
    ensures buf[..start] == old(buf[..start]) && buf[cur..] == old(buf[cur..]) && NUL in buf[cur..]
  {
    hide Unhex, ScanHex2, Unhexing, Stops;
    ghost var b0, done := buf[..], [];
    assert b0[start..] == buf[start..];
    HexLoopStarts(b0, start, delim);
    var p, at := start, 0;
    while !Stops(buf[start + at], delim)
      invariant HexLoop(buf[..], b0, start, p, at, delim, done)
      decreases buf.Length - at
    {
      ghost var b := buf[..];
      HexLoopStep(b, b0, start, p, at, delim, done);
      assert buf[start + at..] == b[start + at..];
      var m := ScanHex2(buf[start + at..]);
      if m.NoMatch? {
        cur, len := start + at, -1;
        assert buf[..start] == b[..start] && buf[cur..] == b[cur..];
        return;
      }
      buf[p] := m.value;
      assert buf[..] == b[p := m.value];
      p, at, done := p + 1, at + m.used, done + [m.value];
    }
    HexLoopEnds(buf[..], b0, start, p, at, delim, done);
    cur, len := start + at, p - start;
    assert buf[..start] == buf[..][..start] && buf[start..p] == buf[..][start..p] && buf[cur..] == buf[..][cur..];
  }
}
