/**
 * Text of the metadata agent, bin/rshyve/src/mdata.rs: splitting at a
 * character, and numbers as they are printed and parsed. One `char` stands
 * for one byte of the UTF-8 text, so that `|s|` is its length in bytes.
 */
module MdataText {
  import opened Prelude

  /** Where `c` first occurs. */
  function IndexOf(s: string, c: char): (i: nat)
    requires c in s
    ensures i < |s| && s[i] == c && c !in s[..i]
  {
    if s[0] == c then 0 else
      var i := IndexOf(s[1..], c) + 1;
      assert s[..i] == [s[0]] + s[1..][..i - 1];
      i
  }

  lemma IndexAfter(head: string, c: char, tail: string)
    requires c !in head
    ensures IndexOf(head + [c] + tail, c) == |head|
  {
    var s := head + [c] + tail;
    var i := IndexOf(s, c);
    assert s[|head|] == c && forall j :: 0 <= j < |head| ==> s[j] == head[j] != c;
  }

  // ----- splitting at spaces

  /** At most `n` parts; the last is whatever is left. */
  function SplitN(s: string, n: nat): (parts: seq<string>)
    requires n > 0
    ensures 1 <= |parts| <= n
    decreases n
  {
    if n == 1 || ' ' !in s then [s] else
      [s[..IndexOf(s, ' ')]] + SplitN(s[IndexOf(s, ' ') + 1..], n - 1)
  }

  lemma SplitHead(head: string, tail: string, n: nat)
    requires n > 1 && ' ' !in head
    ensures SplitN(head + " " + tail, n) == [head] + SplitN(tail, n - 1)
  {
    var s := head + " " + tail;
    assert s == head + [' '] + tail;
    IndexAfter(head, ' ', tail);
    assert s[..|head|] == head && s[|head| + 1..] == tail;
  }

  /** A split into two or more parts comes apart at the first space. */
  lemma SplitTail(s: string, n: nat) returns (tail: string)
    requires n > 1 && |SplitN(s, n)| > 1
    ensures s == SplitN(s, n)[0] + " " + tail && ' ' !in SplitN(s, n)[0]
    ensures SplitN(s, n)[1..] == SplitN(tail, n - 1)
  {
    tail := s[IndexOf(s, ' ') + 1..];
    assert s == s[..IndexOf(s, ' ')] + [' '] + tail;
  }

  // ----- numbers

  function Digit(c: char, radix: nat): (d: Option<nat>)
    ensures d.Some? ==> d.value < radix
  {
    var v := if '0' <= c <= '9' then c as int - '0' as int
             else if 'a' <= c <= 'f' then c as int - 'a' as int + 10
             else if 'A' <= c <= 'F' then c as int - 'A' as int + 10
             else radix;
    if v < radix then Some(v) else None
  }

  /** The value of a string of digits. */
  function Value(s: string, radix: nat): Option<nat>
  {
    if s == [] then Some(0) else
      var (rest, d) := (Value(s[..|s| - 1], radix), Digit(s[|s| - 1], radix));
      if rest.Some? && d.Some? then Some(rest.value * radix + d.value) else None
  }

  /** An unsigned parse: a plus sign may lead, a digit must follow, and the value must fit. */
  function ParseUnsigned(s: string, radix: nat, max: nat): Option<nat>
  {
    var digits := if s != [] && s[0] == '+' then s[1..] else s;
    var v := Value(digits, radix);
    if digits != [] && v.Some? && v.value <= max then v else None
  }

  function DigitChar(d: nat): (c: char)
    requires d < 16
    ensures c != ' ' && c != '+' && Digit(c, 16) == Some(d)
    ensures d < 10 ==> Digit(c, 10) == Some(d)
  {
    if d < 10 then (d + '0' as int) as char else (d - 10 + 'a' as int) as char
  }

  /** No space or sign in it. */
  ghost predicate Plain(s: string)
  {
    forall i :: 0 <= i < |s| ==> s[i] != ' ' && s[i] != '+'
  }

  function ToDecimal(n: nat): (s: string)
    ensures s != [] && Plain(s)
  {
    if n < 10 then [DigitChar(n)] else ToDecimal(n / 10) + [DigitChar(n % 10)]
  }

  /** `n` hexadecimal digits, zeros leading. */
  function ToHex(v: nat, n: nat): (s: string)
    ensures |s| == n && Plain(s)
  {
    if n == 0 then [] else ToHex(v / 16, n - 1) + [DigitChar(v % 16)]
  }

  function Pow16(n: nat): nat { if n == 0 then 1 else 16 * Pow16(n - 1) }

  lemma ValueSnoc(s: string, c: char, radix: nat)
    ensures Value(s + [c], radix) ==
            if Value(s, radix).Some? && Digit(c, radix).Some?
            then Some(Value(s, radix).value * radix + Digit(c, radix).value) else None
  {
    assert (s + [c])[..|s|] == s;
  }

  lemma {:induction false} DecimalValue(n: nat)
    ensures Value(ToDecimal(n), 10) == Some(n)
  {
    if n < 10 {
      ValueSnoc([], DigitChar(n), 10);
      assert [] + [DigitChar(n)] == [DigitChar(n)];
    } else {
      DecimalValue(n / 10);
      ValueSnoc(ToDecimal(n / 10), DigitChar(n % 10), 10);
    }
  }

  lemma {:induction false} HexValue(v: nat, n: nat)
    requires v < Pow16(n)
    ensures Value(ToHex(v, n), 16) == Some(v)
  {
    if n > 0 {
      HexValue(v / 16, n - 1);
      ValueSnoc(ToHex(v / 16, n - 1), DigitChar(v % 16), 16);
    }
  }

  lemma Pow16Eight()
    ensures Pow16(8) == U32_MAX + 1
  {
    assert Pow16(2) == 256;
    assert Pow16(4) == 0x1_0000;
    assert Pow16(6) == 0x100_0000;
  }

  /** A printed length parses back to itself. */
  lemma LengthRoundTrip(n: nat)
    requires n <= U64_MAX
    ensures ParseUnsigned(ToDecimal(n), 10, U64_MAX) == Some(n)
  {
    DecimalValue(n);
  }

  /** A printed checksum parses back to itself. */
  lemma ChecksumRoundTrip(v: nat)
    requires v <= U32_MAX
    ensures ParseUnsigned(ToHex(v, 8), 16, U32_MAX) == Some(v)
  {
    Pow16Eight();
    HexValue(v, 8);
  }
}
