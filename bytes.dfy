/**
 * Bytes as written to a `Vec<u8>` by Rust's `write!`, which emits the UTF-8
 * encoding of the formatted text, and the splitting of a byte sequence at the
 * first occurrence of a separator (how a reader takes a message apart).
 */
module Bytes {
  import opened Results

  type byte = b: int | 0 <= b < 0x100

  const TAB: byte := 9
  const LF: byte := 10
  const CR: byte := 13
  const SP: byte := 32
  const COLON: byte := 58
  const CRLF: seq<byte> := [CR, LF]

  /** The UTF-8 encoding of one Unicode scalar value. */
  function Utf8Char(c: char): (r: seq<byte>)
    ensures 1 <= |r| <= 4
    ensures c as int < 0x80 ==> r == [c as int]
    ensures c as int >= 0x80 ==> forall i :: 0 <= i < |r| ==> r[i] >= 0x80
  {
    var n := c as int;
    if n < 0x80 then [n]
    else if n < 0x800 then [0xC0 + n / 0x40, 0x80 + n % 0x40]
    else if n < 0x1_0000 then [0xE0 + n / 0x1000, 0x80 + (n / 0x40) % 0x40, 0x80 + n % 0x40]
    else [0xF0 + n / 0x4_0000, 0x80 + (n / 0x1000) % 0x40, 0x80 + (n / 0x40) % 0x40, 0x80 + n % 0x40]
  }

  /** The UTF-8 encoding of a string: what `write!` appends for a `{}` argument. */
  function Utf8(s: string): seq<byte>
  {
    if s == [] then [] else Utf8Char(s[0]) + Utf8(s[1..])
  }

  predicate IsAscii(s: string)
  {
    forall i :: 0 <= i < |s| ==> s[i] as int < 0x80
  }

  /** The bytes of an ASCII string, one per character. */
  function AsciiBytes(s: string): (b: seq<byte>)
    requires IsAscii(s)
  {
    seq(|s|, i requires 0 <= i < |s| => s[i] as int)
  }

  lemma {:induction false} Utf8Concat(a: string, b: string)
    ensures Utf8(a + b) == Utf8(a) + Utf8(b)
  {
    if a == [] {
      assert a + b == b;
    } else {
      assert (a + b)[1..] == a[1..] + b;
      Utf8Concat(a[1..], b);
    }
  }

  /** An ASCII string is written byte for byte. */
  lemma {:induction false} Utf8Ascii(s: string)
    requires IsAscii(s)
    ensures Utf8(s) == AsciiBytes(s)
  {
    if s != [] {
      Utf8Ascii(s[1..]);
      assert AsciiBytes(s) == [s[0] as int] + AsciiBytes(s[1..]);
    }
  }

  /** An ASCII byte that stands for no character of `s` does not occur in its encoding:
      every byte of a multi-byte encoding has its high bit set. */
  lemma {:induction false} Utf8Excludes(s: string, x: byte)
    requires x < 0x80
    requires forall i :: 0 <= i < |s| ==> s[i] as int != x
    ensures x !in Utf8(s)
  {
    if s != [] {
      Utf8Excludes(s[1..], x);
    }
  }

  /** Splits `b` at the first occurrence of `sep`: the part before it and the part after it. */
  function SplitOn(b: seq<byte>, sep: seq<byte>): (r: Option<(seq<byte>, seq<byte>)>)
    requires |sep| > 0
    ensures r.Some? ==> b == r.value.0 + sep + r.value.1
    decreases |b|
  {
    if |b| < |sep| then None
    else if b[..|sep|] == sep then Some(([], b[|sep|..]))
    else
      match SplitOn(b[1..], sep)
      case None => None
      case Some((x, y)) => Some(([b[0]] + x, y))
  }

  /** When the separator's first byte does not occur before it, the split is exactly there. */
  lemma {:induction false} SplitOnFirst(x: seq<byte>, sep: seq<byte>, y: seq<byte>)
    requires |sep| > 0 && sep[0] !in x
    ensures SplitOn(x + sep + y, sep) == Some((x, y))
  {
    var b := x + sep + y;
    if x == [] {
      assert b[..|sep|] == sep;
      assert b[|sep|..] == y;
    } else {
      assert b[..|sep|] != sep by { assert b[0] == x[0] != sep[0]; }
      assert b[1..] == x[1..] + sep + y;
      SplitOnFirst(x[1..], sep, y);
      assert [b[0]] + x[1..] == x;
    }
  }
}
