/** Standard padded Base64 as in section 4 of RFC 4648, decoded the way
    the Go library's `StdEncoding.Decode` of the time does it: the input
    length must be a multiple of four, `=` padding may only close the last
    quantum (`xx==` or `xxx=`), and the unused bits of a padded quantum are
    not checked. `Encode` is the inverse used to state the round trip. */
module Base64 {
  import opened Wrappers

  type Byte = x: int | 0 <= x < 256
  type Sextet = x: int | 0 <= x < 64

  const Pad: char := '='

  /** The 64 characters of the standard alphabet. */
  predicate IsAlphabetChar(c: char) {
    || 'A' <= c <= 'Z'
    || 'a' <= c <= 'z'
    || '0' <= c <= '9'
    || c == '+'
    || c == '/'
  }

  function SextetOf(c: char): (v: Sextet)
    requires IsAlphabetChar(c)
  {
    if 'A' <= c <= 'Z' then c as int - 'A' as int
    else if 'a' <= c <= 'z' then c as int - 'a' as int + 26
    else if '0' <= c <= '9' then c as int - '0' as int + 52
    else if c == '+' then 62
    else 63
  }

  /** The alphabet character of a 6-bit value; `SextetOf` inverts it. */
  function CharOf(v: Sextet): (c: char)
    ensures IsAlphabetChar(c)
    ensures SextetOf(c) == v
  {
    if v < 26 then ('A' as int + v) as char
    else if v < 52 then ('a' as int + v - 26) as char
    else if v < 62 then ('0' as int + v - 52) as char
    else if v == 62 then '+'
    else '/'
  }

  /** The acceptance rule for one quantum: two alphabet characters, then
      either two more, or, in the `last` quantum only, one more and `=`, or
      `==`. */
  predicate QuantumOk(q: string, last: bool)
    requires |q| == 4
  {
    && IsAlphabetChar(q[0]) && IsAlphabetChar(q[1])
    && (|| (IsAlphabetChar(q[2]) && IsAlphabetChar(q[3]))
        || (last && IsAlphabetChar(q[2]) && q[3] == Pad)
        || (last && q[2] == Pad && q[3] == Pad))
  }

  /** Whole quanta, each acceptable, where only the final one is `last`. */
  predicate WellFormed(s: string)
    decreases |s|
  {
    |s| == 0 || (|s| >= 4 && QuantumOk(s[..4], |s| == 4) && WellFormed(s[4..]))
  }

  /** Number of `=` characters closing `s` (0, 1 or 2). */
  function PadCount(s: string): nat {
    if |s| >= 1 && s[|s| - 1] == Pad then
      if |s| >= 2 && s[|s| - 2] == Pad then 2 else 1
    else 0
  }

  /** Decodes one four-character quantum; only the `last` one may carry
      padding. */
  function DecodeQuantum(q: string, last: bool): (r: Option<seq<Byte>>)
    requires |q| == 4
    ensures r.Some? <==> QuantumOk(q, last)
    ensures r.Some? ==> |r.value| == (if q[2] == Pad then 1 else if q[3] == Pad then 2 else 3)
    ensures r.Some? && |r.value| < 3 ==> last && q[3] == Pad
  {
    if !IsAlphabetChar(q[0]) || !IsAlphabetChar(q[1]) then None
    else
      var a, b := SextetOf(q[0]), SextetOf(q[1]);
      if last && q[2] == Pad then
        if q[3] == Pad then Some([a * 4 + b / 16]) else None
      else if !IsAlphabetChar(q[2]) then None
      else
        var c := SextetOf(q[2]);
        if last && q[3] == Pad then Some([a * 4 + b / 16, (b % 16) * 16 + c / 4])
        else if !IsAlphabetChar(q[3]) then None
        else
          var d := SextetOf(q[3]);
          Some([a * 4 + b / 16, (b % 16) * 16 + c / 4, (c % 4) * 64 + d])
  }

  /** `StdEncoding.Decode`: decodes quantum after quantum; an input that is
      not whole quanta fails. */
  function Decode(s: string): (r: Option<seq<Byte>>)
    ensures |s| % 4 != 0 ==> r.None?
    ensures r.Some? <==> WellFormed(s)
    ensures r.Some? ==> (|r.value| == 0 <==> |s| == 0)
    decreases |s|
  {
    if |s| == 0 then Some([])
    else if |s| < 4 then None
    else
      match DecodeQuantum(s[..4], |s| == 4)
      case None => None
      case Some(head) =>
        if |s| == 4 then Some(head)
        else
          match Decode(s[4..])
          case None => None
          case Some(tail) => Some(head + tail)
  }

  /** The decoded length: three bytes per quantum, less one per `=`. */
  lemma {:induction false} DecodeLength(s: string)
    requires Decode(s).Some?
    ensures 4 * (|Decode(s).value| + PadCount(s)) == 3 * |s|
    decreases |s|
  {
    if |s| > 4 {
      var rest := s[4..];
      DecodeLength(rest);
      assert s[|s| - 1] == rest[|rest| - 1] && s[|s| - 2] == rest[|rest| - 2];
      assert PadCount(s) == PadCount(rest);
      assert DecodeQuantum(s[..4], false).Some? && s[..4][3] != Pad;
    }
  }

  /** Padding closes only the final quantum: a `=` in the third position
      of an earlier quantum makes the whole input fail. */
  lemma PaddingOnlyAtEnd(s: string)
    requires |s| > 4 && s[2] == Pad
    ensures Decode(s).None?
  {
  }

  /** Padded encoding of a byte sequence. */
  function Encode(bytes: seq<Byte>): (s: string)
    ensures |s| == (|bytes| + 2) / 3 * 4
    ensures forall i :: 0 <= i < |s| ==> IsAlphabetChar(s[i]) || s[i] == Pad
    decreases |bytes|
  {
    if |bytes| == 0 then ""
    else if |bytes| == 1 then
      var x := bytes[0];
      [CharOf(x / 4), CharOf((x % 4) * 16), Pad, Pad]
    else if |bytes| == 2 then
      var x, y := bytes[0], bytes[1];
      [CharOf(x / 4), CharOf((x % 4) * 16 + y / 16), CharOf((y % 16) * 4), Pad]
    else
      EncodeTriple(bytes[0], bytes[1], bytes[2]) + Encode(bytes[3..])
  }

  function EncodeTriple(x: Byte, y: Byte, z: Byte): (q: string)
    ensures |q| == 4
    ensures forall i :: 0 <= i < 4 ==> IsAlphabetChar(q[i])
  {
    [CharOf(x / 4), CharOf((x % 4) * 16 + y / 16), CharOf((y % 16) * 4 + z / 64), CharOf(z % 64)]
  }

  lemma SplitByte16(x: int, y: int)
    requires 0 <= y < 16
    ensures (x * 16 + y) / 16 == x && (x * 16 + y) % 16 == y
  {
  }

  lemma SplitByte4(x: int, y: int)
    requires 0 <= y < 4
    ensures (x * 4 + y) / 4 == x && (x * 4 + y) % 4 == y
  {
  }

  /** A full quantum decodes back to the three bytes it encodes. */
  lemma DecodeEncodeTriple(x: Byte, y: Byte, z: Byte, last: bool)
    ensures DecodeQuantum(EncodeTriple(x, y, z), last) == Some([x, y, z])
  {
    var q := EncodeTriple(x, y, z);
    var a, b, c, d := x / 4, (x % 4) * 16 + y / 16, (y % 16) * 4 + z / 64, z % 64;
    assert SextetOf(q[0]) == a && SextetOf(q[1]) == b && SextetOf(q[2]) == c && SextetOf(q[3]) == d;
    SplitByte16(x % 4, y / 16);
    SplitByte4(y % 16, z / 64);
    assert a * 4 + b / 16 == x;
    assert (b % 16) * 16 + c / 4 == y;
    assert (c % 4) * 64 + d == z;
  }

  /** A quantum padded with `==` decodes back to its one byte. */
  lemma DecodeEncodeOne(x: Byte)
    ensures DecodeQuantum(Encode([x]), true) == Some([x])
  {
    var q := Encode([x]);
    assert SextetOf(q[0]) == x / 4 && SextetOf(q[1]) == (x % 4) * 16;
    SplitByte16(x % 4, 0);
  }

  /** A quantum padded with `=` decodes back to its two bytes. */
  lemma DecodeEncodeTwo(x: Byte, y: Byte)
    ensures DecodeQuantum(Encode([x, y]), true) == Some([x, y])
  {
    var q := Encode([x, y]);
    var b, c := (x % 4) * 16 + y / 16, (y % 16) * 4;
    assert SextetOf(q[0]) == x / 4 && SextetOf(q[1]) == b && SextetOf(q[2]) == c;
    SplitByte16(x % 4, y / 16);
    SplitByte4(y % 16, 0);
    assert (b % 16) * 16 + c / 4 == y;
  }

  /** Decoding a quantum followed by more quanta decodes each part. */
  lemma DecodeCons(q: string, rest: string, head: seq<Byte>, tail: seq<Byte>)
    requires |q| == 4
    requires DecodeQuantum(q, |rest| == 0) == Some(head)
    requires Decode(rest) == Some(tail)
    ensures Decode(q + rest) == Some(head + tail)
  {
    var s := q + rest;
    assert s[..4] == q && s[4..] == rest;
    if |rest| == 0 {
      assert head + tail == head;
    }
  }

  /** The inductive step: a leading full quantum followed by the encoding
      of the remaining bytes. */
  lemma DecodeEncodeStep(bytes: seq<Byte>)
    requires |bytes| >= 3
    requires Decode(Encode(bytes[3..])) == Some(bytes[3..])
    ensures Decode(Encode(bytes)) == Some(bytes)
  {
    var q := EncodeTriple(bytes[0], bytes[1], bytes[2]);
    var rest := Encode(bytes[3..]);
    assert Encode(bytes) == q + rest;
    DecodeEncodeTriple(bytes[0], bytes[1], bytes[2], |rest| == 0);
    DecodeCons(q, rest, [bytes[0], bytes[1], bytes[2]], bytes[3..]);
    ConsThree(bytes);
  }

  lemma ConsThree(bytes: seq<Byte>)
    requires |bytes| >= 3
    ensures bytes == [bytes[0], bytes[1], bytes[2]] + bytes[3..]
  {
  }

  /** Decoding undoes encoding for every byte sequence. */
  lemma {:induction false} DecodeEncode(bytes: seq<Byte>)
    ensures Decode(Encode(bytes)) == Some(bytes)
    decreases |bytes|
  {
    var s := Encode(bytes);
    if |bytes| == 0 {
    } else if |bytes| == 1 {
      DecodeEncodeOne(bytes[0]);
      assert s[..4] == s && bytes == [bytes[0]];
    } else if |bytes| == 2 {
      DecodeEncodeTwo(bytes[0], bytes[1]);
      assert s[..4] == s && bytes == [bytes[0], bytes[1]];
    } else {
      DecodeEncode(bytes[3..]);
      DecodeEncodeStep(bytes);
    }
  }
}
