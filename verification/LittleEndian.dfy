/** 32-bit fields of packet and frame headers. */
module LittleEndian {
  import opened Basics
  import opened Bytes

  function LE32(n: nat): (s: seq<byte>)
    requires n < TWO32
    ensures |s| == 4
  {
    [n % 0x100, n / 0x100 % 0x100, n / 0x1_0000 % 0x100, n / 0x100_0000]
  }

  function FromLE32(s: seq<byte>, at: nat): nat
    requires at + 4 <= |s|
  {
    s[at] + 0x100 * (s[at + 1] as int) + 0x1_0000 * (s[at + 2] as int) + 0x100_0000 * (s[at + 3] as int)
  }

  /** The number four bytes stand for, the lowest first. */
  function Word(a: byte, b: byte, c: byte, d: byte): nat {
    a + 0x100 * (b as int) + 0x1_0000 * (c as int) + 0x100_0000 * (d as int)
  }

  lemma LE32RoundTrip(n: nat, pre: seq<byte>, post: seq<byte>)
    requires n < TWO32
    ensures FromLE32(pre + LE32(n) + post, |pre|) == n
  {
    hide LE32;
    var s := pre + LE32(n) + post;
    assert s[|pre|] == LE32(n)[0] && s[|pre| + 1] == LE32(n)[1];
    assert s[|pre| + 2] == LE32(n)[2] && s[|pre| + 3] == LE32(n)[3];
    FourBytes(n);
  }

  lemma FourBytes(n: nat)
    requires n < TWO32
    ensures FromLE32(LE32(n), 0) == n
  {
    var a := n / 0x100;
    var b := a / 0x100;
    assert n == 0x100 * a + n % 0x100 && a == 0x100 * b + a % 0x100;
    assert n / 0x1_0000 == b && n / 0x100_0000 == b / 0x100;
    assert b == 0x100 * (b / 0x100) + b % 0x100;
  }

  /** A field is the four bytes it is made of, and the only one that is. */
  lemma WordIs(a: byte, b: byte, c: byte, d: byte)
    ensures Word(a, b, c, d) < TWO32 && LE32(Word(a, b, c, d)) == [a, b, c, d]
  {
    var n := Word(a, b, c, d);
    LowByte(a, b + 0x100 * (c as int) + 0x1_0000 * (d as int));
    LowByte(b, c + 0x100 * (d as int));
    LowByte(c, d);
    DivTwice(n);
  }

  lemma LowByte(a: byte, m: nat)
    ensures (a + 0x100 * m) / 0x100 == m && (a + 0x100 * m) % 0x100 == a
  {
  }

  lemma DivTwice(n: nat)
    ensures n / 0x1_0000 == n / 0x100 / 0x100 && n / 0x100_0000 == n / 0x100 / 0x100 / 0x100
  {
  }

  lemma WordAt(s: seq<byte>, at: nat)
    requires at + 4 <= |s|
    ensures FromLE32(s, at) == Word(s[at], s[at + 1], s[at + 2], s[at + 3]) < TWO32
  {
  }

  /** Numbers as consecutive fields. */
  function Words(ns: seq<nat>): (s: seq<byte>)
    requires forall i :: 0 <= i < |ns| ==> ns[i] < TWO32
    ensures |s| == 4 * |ns|
  {
    if ns == [] then [] else LE32(ns[0]) + Words(ns[1..])
  }

  /** Field `i` of consecutive fields, with anything around them. */
  lemma {:induction false} WordsAt(pre: seq<byte>, ns: seq<nat>, post: seq<byte>, i: nat)
    requires (forall j :: 0 <= j < |ns| ==> ns[j] < TWO32) && i < |ns|
    ensures FromLE32(pre + Words(ns) + post, |pre| + 4 * i) == ns[i]
    decreases |ns|
  {
    hide FromLE32, LE32;
    var a, b := LE32(ns[0]), Words(ns[1..]);
    if i == 0 {
      assert pre + (a + b) + post == pre + a + (b + post);
      LE32RoundTrip(ns[0], pre, b + post);
    } else {
      assert pre + (a + b) + post == (pre + a) + b + post;
      WordsAt(pre + a, ns[1..], post, i - 1);
    }
  }
}
