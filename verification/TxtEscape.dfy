/** Bytes and the C-string helpers the text dump relies on. */
module Bytes {
  type byte = b: int | 0 <= b < 256

  const NUL: byte := 0
  const TAB: byte := 9
  const NL: byte := 10

  /** `isspace` in the C locale */
  predicate IsSpace(c: byte) { c == 32 || 9 <= c <= 13 }

  /** The part of `s` that `%s` prints. */
  function CString(s: seq<byte>): seq<byte> {
    if s == [] || s[0] == NUL then [] else [s[0]] + CString(s[1..])
  }

  predicate NulFree(s: seq<byte>) { NUL !in s }

  lemma {:induction false} CStringNulFree(s: seq<byte>)
    ensures NulFree(CString(s)) && CString(s) <= s
    ensures NulFree(s) <==> CString(s) == s
  {
    if s != [] && s[0] != NUL {
      CStringNulFree(s[1..]);
      assert s == [s[0]] + s[1..];
    }
  }

  /** A buffer being rewritten in place: `b` is the buffer now, `b0` what it was.  The bytes
      from `start` to `p` are `done`, reading goes on at `cur`, and everything before `start`
      and from `cur` on is as it was. */
  ghost predicate InPlace(b: seq<byte>, b0: seq<byte>, start: nat, p: nat, cur: nat, done: seq<byte>) {
    && |b| == |b0| && start <= p <= cur <= |b| && p == start + |done|
    && (forall i :: 0 <= i < start ==> b[i] == b0[i])
    && (forall i :: start <= i < p ==> b[i] == done[i - start])
    && (forall i :: cur <= i < |b| ==> b[i] == b0[i])
  }

  lemma UnreadAt(b: seq<byte>, b0: seq<byte>, start: nat, p: nat, cur: nat, done: seq<byte>)
    requires InPlace(b, b0, start, p, cur, done)
    ensures |b| == |b0| && start <= p <= cur <= |b|
    ensures b[..start] == b0[..start] && b[start..p] == done && b[cur..] == b0[cur..]
    ensures cur < |b| ==> b[cur] == b0[cur]
  {
  }

  /** Reading one byte and writing one keeps the write position behind. */
  lemma InPlaceWrite(b: seq<byte>, b0: seq<byte>, start: nat, p: nat, cur: nat, done: seq<byte>, v: byte)
    requires InPlace(b, b0, start, p, cur, done) && cur < |b|
    ensures InPlace(b[p := v], b0, start, p + 1, cur + 1, done + [v])
  {
  }

  lemma InPlaceRead(b: seq<byte>, b0: seq<byte>, start: nat, p: nat, cur: nat, done: seq<byte>, cur': nat)
    requires InPlace(b, b0, start, p, cur, done) && cur <= cur' <= |b|
    ensures InPlace(b, b0, start, p, cur', done)
  {
  }

  lemma SplitFirst(s: seq<byte>)
    requires s != []
    ensures s == [s[0]] + s[1..]
  {
  }
}

/**
  `cTxtEscape`: the two token encodings of the text dump.  `Escape`/`Unescape` and
  `Hex`/`Unhex` are the pure codecs; the methods below work on buffers, the decoders in place.
 */
module TxtEscape {
  import opened Bytes

  const BACKSLASH: byte := 92

  /** The letter that stands for an escaped byte, or 0 when the byte is written as it is. */
  function LetterOf(c: byte): byte {
    if c == 92 then 92 else if c == 9 then 116 else if c == 8 then 98
    else if c == 13 then 114 else if c == 10 then 110 else 0
  }

  /** The control byte a letter stands for after a backslash, or 0 when it stands for itself. */
  function ByteOf(letter: byte): byte {
    if letter == 116 then 9 else if letter == 98 then 8
    else if letter == 114 then 13 else if letter == 110 then 10 else 0
  }

  function EscapeByte(c: byte): seq<byte> {
    if LetterOf(c) == 0 then [c] else [BACKSLASH, LetterOf(c)]
  }

  function Escape(s: seq<byte>): seq<byte> {
    if s == [] then [] else EscapeByte(s[0]) + Escape(s[1..])
  }

  /** Where a token ends. */
  predicate Stops(c: byte, delim: byte) { c == NUL || c == TAB || c == delim }

  datatype Token = Token(out: seq<byte>, used: nat)

  /** One round of the decoding loop: what is written and the escape flag afterwards. */
  function UnescapeByte(c: byte, esc: bool): (r: (seq<byte>, bool))
    ensures |r.0| <= 1
  {
    if c == BACKSLASH then (if esc then ([BACKSLASH], false) else ([], true))
    else if esc && ByteOf(c) != 0 then ([ByteOf(c)], false)
    else ([c], false)
  }

  /** The decoder on a value: bytes produced and input used. */
  function UnescapeFrom(s: seq<byte>, esc: bool, delim: byte): (t: Token)
    ensures |t.out| <= t.used <= |s|
  {
    if s == [] || Stops(s[0], delim) then Token([], 0)
    else
      var (w, esc') := UnescapeByte(s[0], esc);
      var t := UnescapeFrom(s[1..], esc', delim);
      Token(w + t.out, t.used + 1)
  }

  function Unescape(s: seq<byte>): Token { UnescapeFrom(s, false, NL) }

  // ---------------------------------------------------------------- string codec laws

  lemma EscapeCons(c: byte, s: seq<byte>)
    ensures Escape([c] + s) == EscapeByte(c) + Escape(s)
  {
    assert ([c] + s)[1..] == s;
  }

  lemma UnescapeCons(c: byte, s: seq<byte>, esc: bool, delim: byte)
    requires !Stops(c, delim)
    ensures var (w, esc') := UnescapeByte(c, esc); var t := UnescapeFrom(s, esc', delim);
      UnescapeFrom([c] + s, esc, delim) == Token(w + t.out, t.used + 1)
  {
    assert ([c] + s)[1..] == s;
  }

  lemma CStringCons(c: byte, s: seq<byte>)
    requires c != NUL
    ensures CString([c] + s) == [c] + CString(s)
  {
    assert ([c] + s)[1..] == s;
  }

  lemma {:induction false} EscapeClean(s: seq<byte>)
    ensures TAB !in Escape(s) && NL !in Escape(s)
    ensures NulFree(s) ==> NulFree(Escape(s))
    ensures |s| <= |Escape(s)| <= 2 * |s|
  {
    if s != [] {
      EscapeClean(s[1..]);
      SplitFirst(s);
    }
  }

  /** Escaping the bytes that are printed is printing the escaped bytes. */
  lemma {:induction false} EscapeCString(s: seq<byte>)
    ensures CString(Escape(s)) == Escape(CString(s))
    decreases |s|
  {
    if s != [] {
      var c, s' := s[0], s[1..];
      SplitFirst(s);
      EscapeCons(c, s');
      if c != NUL {
        EscapeCString(s');
        CStringCons(c, s');
        EscapeCons(c, CString(s'));
        PrintEscapedByte(c, Escape(s'));
      }
    }
  }

  lemma PrintEscapedByte(c: byte, tail: seq<byte>)
    requires c != NUL
    ensures CString(EscapeByte(c) + tail) == EscapeByte(c) + CString(tail)
  {
    hide CString;
    if LetterOf(c) == 0 {
      CStringCons(c, tail);
    } else {
      CStringCons(LetterOf(c), tail);
      CStringCons(BACKSLASH, [LetterOf(c)] + tail);
      assert EscapeByte(c) + tail == [BACKSLASH] + ([LetterOf(c)] + tail);
      assert EscapeByte(c) + CString(tail) == [BACKSLASH] + ([LetterOf(c)] + CString(tail));
    }
  }

  /** Decoding one escaped byte gives the byte back and goes on with what follows. */
  lemma UnescapeEscapedByte(c: byte, tail: seq<byte>)
    requires c != NUL
    ensures var t := Unescape(tail);
      Unescape(EscapeByte(c) + tail) == Token([c] + t.out, |EscapeByte(c)| + t.used)
  {
    hide UnescapeFrom;
    if LetterOf(c) == 0 {
      UnescapeCons(c, tail, false, NL);
    } else {
      UnescapeCons(LetterOf(c), tail, true, NL);
      UnescapeCons(BACKSLASH, [LetterOf(c)] + tail, false, NL);
      assert EscapeByte(c) + tail == [BACKSLASH] + ([LetterOf(c)] + tail);
    }
  }

  /** Unescaping undoes escaping, whatever follows the token. */
  lemma {:induction false} UnescapeEscape(s: seq<byte>, rest: seq<byte>)
    requires NulFree(s) && (rest == [] || Stops(rest[0], NL))
    ensures Unescape(Escape(s) + rest) == Token(s, |Escape(s)|)
  {
    if s == [] {
      assert Escape(s) + rest == rest;
    } else {
      var c, tail := s[0], Escape(s[1..]) + rest;
      UnescapeEscape(s[1..], rest);
      SplitFirst(s);
      assert Escape(s) + rest == EscapeByte(c) + tail;
      UnescapeEscapedByte(c, tail);
    }
  }

  /** The decoder stops exactly at the first NUL, tab or delimiter. */
  lemma {:induction false} UnescapeStopsAtToken(s: seq<byte>, esc: bool, delim: byte)
    ensures var used := UnescapeFrom(s, esc, delim).used;
      && (forall i :: 0 <= i < used ==> !Stops(s[i], delim))
      && (used < |s| ==> Stops(s[used], delim))
  {
    if s != [] && !Stops(s[0], delim) {
      UnescapeStopsAtToken(s[1..], UnescapeByte(s[0], esc).1, delim);
    }
  }

  /** No decoded string contains NUL, so a string holding one can never come back. */
  lemma {:induction false} UnescapeNulFree(s: seq<byte>, esc: bool, delim: byte)
    ensures NulFree(UnescapeFrom(s, esc, delim).out)
  {
    if s != [] && !Stops(s[0], delim) {
      UnescapeNulFree(s[1..], UnescapeByte(s[0], esc).1, delim);
    }
  }

  // ---------------------------------------------------------------- the text itself

  /** A string is escaped piece by piece. */
  lemma {:induction false} EscapeAppend(a: seq<byte>, b: seq<byte>)
    ensures Escape(a + b) == Escape(a) + Escape(b)
  {
    if a == [] {
      assert a + b == b;
    } else {
      assert (a + b)[1..] == a[1..] + b;
      EscapeAppend(a[1..], b);
    }
  }

  /** Backslash, tab, backspace, carriage return and newline are written as two characters, all
      other bytes as they are. */
  lemma EscapeTexts(c: byte)
    ensures Escape([92]) == [92, 92] && Escape([9]) == [92, 116] && Escape([8]) == [92, 98]
    ensures Escape([13]) == [92, 114] && Escape([10]) == [92, 110] && Escape([]) == []
    ensures c !in {8, 9, 10, 13, 92} ==> Escape([c]) == [c]
  {
    assert forall x: byte :: [x][1..] == [];
  }

  /** What the decoder does with plain bytes, with the five pairs, with a backslash before any
      other byte, which is dropped, and with a backslash at the end. */
  lemma UnescapeTexts(c: byte, s: seq<byte>)
    ensures c !in {0, 9, 10, 92} ==> var t := Unescape(s); Unescape([c] + s) == Token([c] + t.out, 1 + t.used)
    ensures var t := Unescape(s);
      && Unescape([92, 92] + s) == Token([92] + t.out, 2 + t.used)
      && Unescape([92, 116] + s) == Token([9] + t.out, 2 + t.used)
      && Unescape([92, 98] + s) == Token([8] + t.out, 2 + t.used)
      && Unescape([92, 114] + s) == Token([13] + t.out, 2 + t.used)
      && Unescape([92, 110] + s) == Token([10] + t.out, 2 + t.used)
      && (c !in {0, 9, 10, 92, 98, 110, 114, 116} ==> Unescape([92, c] + s) == Token([c] + t.out, 2 + t.used))
    ensures s == [] || s[0] in {0, 9, 10} ==> Unescape(s) == Token([], 0) && Unescape([92] + s) == Token([], 1)
  {
    hide UnescapeFrom;
    if c !in {0, 9, 10, 92} {
      UnescapeCons(c, s, false, NL);
      UnescapePair(c, s);
    }
    UnescapePair(92, s);
    UnescapePair(116, s);
    UnescapePair(98, s);
    UnescapePair(114, s);
    UnescapePair(110, s);
    UnescapeEnd(s);
  }

  lemma UnescapePair(c: byte, s: seq<byte>)
    requires !Stops(c, NL)
    ensures var (w, esc) := UnescapeByte(c, true); var t := UnescapeFrom(s, esc, NL);
      Unescape([92, c] + s) == Token(w + t.out, 2 + t.used)
  {
    hide UnescapeFrom;
    UnescapeCons(92, [c] + s, false, NL);
    UnescapeCons(c, s, true, NL);
    assert [92, c] + s == [92] + ([c] + s);
    var (w, esc) := UnescapeByte(c, true);
    assert [] + (w + UnescapeFrom(s, esc, NL).out) == w + UnescapeFrom(s, esc, NL).out;
  }

  lemma UnescapeEnd(s: seq<byte>)
    ensures s == [] || Stops(s[0], NL) ==> Unescape(s) == Token([], 0) && Unescape([92] + s) == Token([], 1)
  {
    if s == [] || Stops(s[0], NL) {
      assert UnescapeFrom(s, true, NL) == Token([], 0);
      UnescapeCons(92, s, false, NL);
    }
  }

  // ---------------------------------------------------------------- string buffers

  /** The part of the source that `EscapeStr` reads: up to the NUL when the length is negative. */
  function SourceOf(from: seq<byte>, iLen: int): seq<byte>
    requires iLen <= |from|
  {
    if iLen < 0 then CString(from) else from[..iLen]
  }

  /** `strlen` */
  method StrLen(s: seq<byte>) returns (n: nat)
    requires NUL in s
    ensures n <= |s| && CString(s) == s[..n]
  {
    hide CString;
    n := 0;
    while s[n] != NUL
      invariant n < |s| && NUL in s[n..]
      invariant CString(s) == s[..n] + CString(s[n..])
      decreases |s| - n
    {
      assert s[n..] == [s[n]] + s[n + 1..];
      CStringCons(s[n], s[n + 1..]);
      n := n + 1;
    }
    CStringStops(s[n..]);
  }

  lemma CStringStops(s: seq<byte>)
    requires s != [] && s[0] == NUL
    ensures CString(s) == []
  {
  }

  /** `EscapeStr`; a negative length stands for that of a C string. */
  method EscapeStr(to: array<byte>, from: seq<byte>, iLen: int) returns (n: nat)
    requires iLen <= |from| && (iLen < 0 ==> NUL in from)
    requires 2 * |SourceOf(from, iLen)| + 1 <= to.Length
    modifies to
    ensures n == |Escape(SourceOf(from, iLen))| < to.Length
    ensures to[..n] == Escape(SourceOf(from, iLen)) && to[n] == NUL
    ensures to[n + 1..] == old(to[n + 1..])
  {
    hide Escape, CString;
    var len := iLen;
    if len < 0 {
      len := StrLen(from);
    }
    n := EscapeLoop(to, from[..len]);
  }

  /** The loop of `EscapeStr` and the NUL it ends with. */
  method EscapeLoop(to: array<byte>, from: seq<byte>) returns (n: nat)
    requires 2 * |from| + 1 <= to.Length
    modifies to
    ensures n == |Escape(from)| < to.Length
    ensures to[..n] == Escape(from) && to[n] == NUL
    ensures to[n + 1..] == old(to[n + 1..])
  {
    hide Escape;
    assert Escape([]) == [] by { EscapeClean([]); }
    ghost var was := to[..];
    n := 0;
    for i := 0 to |from|
      invariant n <= 2 * i
      invariant Escape(from) == to[..n] + Escape(from[i..])
      invariant forall j :: n <= j < to.Length ==> to[j] == was[j]
    {
      var c := from[i];
      EscapeCons(c, from[i + 1..]);
      assert from[i..] == [c] + from[i + 1..];
      ghost var done := to[..n];
      if LetterOf(c) != 0 {
        to[n] := BACKSLASH;
        to[n + 1] := LetterOf(c);
        n := n + 2;
      } else {
        to[n] := c;
        n := n + 1;
      }
      assert to[..n] == done + EscapeByte(c);
    }
    to[n] := NUL;
  }

  /** Having read `s[..cur]` and written `done`, what is left to decode completes the token. */
  ghost predicate Decoding(s: seq<byte>, cur: nat, esc: bool, delim: byte, done: seq<byte>) {
    && cur <= |s|
    && var t := UnescapeFrom(s[cur..], esc, delim);
       UnescapeFrom(s, false, delim) == Token(done + t.out, cur + t.used)
  }

  lemma DecodingStarts(s: seq<byte>, delim: byte)
    ensures Decoding(s, 0, false, delim, [])
  {
    assert s[0..] == s;
  }

  lemma DecodingStep(s: seq<byte>, cur: nat, esc: bool, delim: byte, done: seq<byte>)
    requires Decoding(s, cur, esc, delim, done) && cur < |s| && !Stops(s[cur], delim)
    ensures var (w, esc') := UnescapeByte(s[cur], esc); Decoding(s, cur + 1, esc', delim, done + w)
  {
    hide UnescapeFrom, UnescapeByte;
    UnescapeCons(s[cur], s[cur + 1..], esc, delim);
    assert s[cur..] == [s[cur]] + s[cur + 1..];
  }

  lemma DecodingEnds(s: seq<byte>, cur: nat, esc: bool, delim: byte, done: seq<byte>)
    requires Decoding(s, cur, esc, delim, done) && cur < |s| && Stops(s[cur], delim)
    ensures UnescapeFrom(s, false, delim) == Token(done, cur)
  {
    assert done + [] == done;
  }

  /** One round of the loop of `UnescapeStr`: `p` writes behind `cur`. */
  method UnescapeRound(buf: array<byte>, p: nat, cur: nat, esc: bool) returns (p': nat, esc': bool)
    requires p <= cur < buf.Length
    modifies buf
    ensures var (w, e) := UnescapeByte(old(buf[cur]), esc);
      && p' == p + |w| && esc' == e
      && buf[..] == if w == [] then old(buf[..]) else old(buf[..])[p := w[0]]
  {
    p', esc' := p, esc;
    var c := buf[cur];
    if c == BACKSLASH {
      if esc {
        buf[p'] := BACKSLASH;
        p' := p' + 1;
      }
      esc' := !esc;
    } else if ByteOf(c) != 0 && esc {
      buf[p'] := ByteOf(c);
      esc' := false;
      p' := p' + 1;
    } else {
      esc' := false;
      buf[p'] := c;
      p' := p' + 1;
    }
  }

  ghost predicate StrLoop(b: seq<byte>, b0: seq<byte>, start: nat, p: nat, at: nat, esc: bool, delim: byte,
                          done: seq<byte>)
  {
    && InPlace(b, b0, start, p, start + at, done)
    && Decoding(b0[start..], at, esc, delim, done)
    && start + at < |b0| && NUL in b0[start + at..]
  }

  lemma StrLoopStarts(b: seq<byte>, start: nat, delim: byte)
    requires start <= |b| && NUL in b[start..]
    ensures StrLoop(b, b, start, start, 0, false, delim, []) && start < |b|
  {
    DecodingStarts(b[start..], delim);
  }

  lemma StrLoopStep(b: seq<byte>, b0: seq<byte>, start: nat, p: nat, at: nat, esc: bool, delim: byte,
                    done: seq<byte>)
    requires StrLoop(b, b0, start, p, at, esc, delim, done)
    requires p <= start + at < |b| && !Stops(b[start + at], delim)
    ensures var (w, esc') := UnescapeByte(b[start + at], esc);
      && StrLoop(if w == [] then b else b[p := w[0]], b0, start, p + |w|, at + 1, esc', delim, done + w)
      && start + at + 1 < |b|
  {
    hide UnescapeFrom, Decoding, InPlace, UnescapeByte;
    UnreadAt(b, b0, start, p, start + at, done);
    assert b0[start..][at] == b0[start + at];
    DecodingStep(b0[start..], at, esc, delim, done);
    var w := UnescapeByte(b[start + at], esc).0;
    assert b0[start + at..] == [b[start + at]] + b0[start + at + 1..];
    if w == [] {
      InPlaceRead(b, b0, start, p, start + at, done, start + at + 1);
      assert done + w == done;
    } else {
      InPlaceWrite(b, b0, start, p, start + at, done, w[0]);
      assert done + w == done + [w[0]];
    }
  }

  lemma StrLoopEnds(b: seq<byte>, b0: seq<byte>, start: nat, p: nat, at: nat, esc: bool, delim: byte, done: seq<byte>)
    requires StrLoop(b, b0, start, p, at, esc, delim, done) && start + at < |b| && Stops(b[start + at], delim)
    ensures |b| == |b0| && start <= p <= |b| && UnescapeFrom(b0[start..], false, delim) == Token(b[start..p], at)
    ensures b[..start] == b0[..start] && b[start + at..] == b0[start + at..] && NUL in b[start + at..]
  {
    UnreadAt(b, b0, start, p, start + at, done);
    DecodingEnds(b0[start..], at, esc, delim, done);
  }

  /** `UnescapeStr`: decodes the token at `start` into the same buffer, from `start` on.
      Nothing before `start` or from the end of the token on is touched. */
  method UnescapeStr(buf: array<byte>, start: nat, delim: byte) returns (cur: nat, len: nat)
    requires start <= buf.Length && NUL in buf[start..]
    modifies buf
    ensures var t := UnescapeFrom(old(buf[start..]), false, delim);
      cur == start + t.used && len == |t.out| && cur < buf.Length && buf[start..start + len] == t.out
    ensures buf[..start] == old(buf[..start]) && buf[cur..] == old(buf[cur..])
    ensures Stops(buf[cur], delim) && NUL in buf[cur..]
  {
    hide UnescapeFrom, UnescapeByte, StrLoop, Stops;
    ghost var b0, done := buf[..], [];
    assert b0[start..] == buf[start..];
    StrLoopStarts(b0, start, delim);
    var p: nat, at: nat, esc := start, 0, false;
    while !Stops(buf[start + at], delim)
      invariant start <= p <= start + at < buf.Length
      invariant StrLoop(buf[..], b0, start, p, at, esc, delim, done)
      decreases buf.Length - at
    {
      StrLoopStep(buf[..], b0, start, p, at, esc, delim, done);
      done := done + UnescapeByte(buf[start + at], esc).0;
      p, esc := UnescapeRound(buf, p, start + at, esc);
      at := at + 1;
    }
    StrLoopEnds(buf[..], b0, start, p, at, esc, delim, done);
    cur, len := start + at, p - start;
    assert buf[start..p] == buf[..][start..p] && buf[cur..] == buf[..][cur..];
  }
}
