/** The bytes that the context budget counts: UTF-8, section 3 of RFC 3629. */
module Utf8 {
  import opened Text
  import opened ContextSerializer

  function Bytes(c: char): (r: seq<int>)
    ensures |r| > 0
  {
    var n := c as int;
    if n < 0x80 then [n]
    else if n < 0x800 then [0xC0 + n / 0x40, 0x80 + n % 0x40]
    else if n < 0x1_0000 then [0xE0 + n / 0x40 / 0x40, 0x80 + n / 0x40 % 0x40, 0x80 + n % 0x40]
    else [0xF0 + n / 0x40 / 0x40 / 0x40, 0x80 + n / 0x40 / 0x40 % 0x40, 0x80 + n / 0x40 % 0x40, 0x80 + n % 0x40]
  }

  function Encode(s: string): seq<int> {
    if s == "" then [] else Bytes(s[0]) + Encode(s[1..])
  }

  // How long the sequence is that begins with this byte.
  function Announced(first: int): nat {
    if first < 0x80 then 1 else if first < 0xE0 then 2 else if first < 0xF0 then 3 else 4
  }

  // The number that a sequence of this length stands for, and the least one that needs it.
  function Scalar(bytes: seq<int>): int
    requires 1 <= |bytes| <= 4
  {
    match |bytes|
    case 1 => bytes[0]
    case 2 => (bytes[0] - 0xC0) * 0x40 + (bytes[1] - 0x80)
    case 3 => (bytes[0] - 0xE0) * 0x1000 + (bytes[1] - 0x80) * 0x40 + (bytes[2] - 0x80)
    case _ => (bytes[0] - 0xF0) * 0x4_0000 + (bytes[1] - 0x80) * 0x1000 + (bytes[2] - 0x80) * 0x40 + (bytes[3] - 0x80)
  }

  function Least(length: nat): int {
    if length == 1 then 0 else if length == 2 then 0x80 else if length == 3 then 0x800 else 0x1_0000
  }

  // The one sequence that the standard allows for a character: announced by its
  // first byte, continued by bytes from 0x80 to 0xBF, and no longer than needed.
  predicate IsSequenceOf(bytes: seq<int>, c: char) {
    && 1 <= |bytes| <= 4 && 0 <= bytes[0] < 0x100 && |bytes| == Announced(bytes[0])
    && (forall i :: 1 <= i < |bytes| ==> 0x80 <= bytes[i] < 0xC0)
    && Scalar(bytes) == c as int && Least(|bytes|) <= c as int
  }

  lemma BytesAreSequence(c: char)
    ensures IsSequenceOf(Bytes(c), c)
  {
    var n, bytes := c as int, Bytes(c);
    var a := n / 0x40;
    var b := a / 0x40;
    assert n == a * 0x40 + n % 0x40 && a == b * 0x40 + a % 0x40 && b == b / 0x40 * 0x40 + b % 0x40;
    if n < 0x800 {
    } else if n < 0x1_0000 {
      assert bytes == [0xE0 + b, 0x80 + a % 0x40, 0x80 + n % 0x40];
    } else {
      assert bytes == [0xF0 + b / 0x40, 0x80 + b % 0x40, 0x80 + a % 0x40, 0x80 + n % 0x40];
    }
  }

  /** A character is counted with the length of its one sequence. */
  lemma CharBytesExactly(c: char, bytes: seq<int>)
    requires IsSequenceOf(bytes, c)
    ensures CharBytes(c) == |bytes|
  {
  }

  /** A text is counted with the length of its encoding. */
  lemma {:induction false} LengthOfEncoding(s: string)
    ensures Utf8Length(s) == |Encode(s)|
  {
    if s != "" {
      LengthOfEncoding(s[1..]);
      BytesAreSequence(s[0]);
      CharBytesExactly(s[0], Bytes(s[0]));
    }
  }
}
