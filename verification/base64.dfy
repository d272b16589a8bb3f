/**
 * Standard base64 as defined in section 4 of RFC 4648: the 64-character
 * alphabet A-Z, a-z, 0-9, '+', '/', each 3-byte group written as four
 * characters, and a final group of one or two bytes padded with '=' to
 * four characters. The generator stores every template's bytes in this
 * form (embedded.go:45, embedded.go:65).
 */
module Base64 {
  import opened Wrappers

  newtype byte = x: int | 0 <= x < 256

  /** The pad character that fills the last group to four characters. */
  const Pad: char := '='

  predicate IsAlphabetChar(c: char) {
    'A' <= c <= 'Z' || 'a' <= c <= 'z' || '0' <= c <= '9' || c == '+' || c == '/'
  }

  /** The character that stands for the 6-bit value `v`. */
  function CharOf(v: int): (c: char)
    requires 0 <= v < 64
    ensures IsAlphabetChar(c)
  {
    if v < 26 then ('A' as int + v) as char
    else if v < 52 then ('a' as int + (v - 26)) as char
    else if v < 62 then ('0' as int + (v - 52)) as char
    else if v == 62 then '+'
    else '/'
  }

  /** The 6-bit value of an alphabet character; it inverts CharOf. */
  function ValueOf(c: char): (v: int)
    requires IsAlphabetChar(c)
    ensures 0 <= v < 64
    ensures CharOf(v) == c
  {
    if 'A' <= c <= 'Z' then c as int - 'A' as int
    else if 'a' <= c <= 'z' then c as int - 'a' as int + 26
    else if '0' <= c <= '9' then c as int - '0' as int + 52
    else if c == '+' then 62
    else 63
  }

  /** CharOf and ValueOf are inverse on the 64 values. */
  lemma ValueOfCharOf(v: int)
    requires 0 <= v < 64
    ensures ValueOf(CharOf(v)) == v
  {
  }

  /** The four characters for one full group of three bytes. */
  function EncodeGroup(x: byte, y: byte, z: byte): (r: string)
    ensures |r| == 4 && forall i :: 0 <= i < 4 ==> IsAlphabetChar(r[i])
  {
    [CharOf(x as int / 4),
     CharOf(x as int % 4 * 16 + y as int / 16),
     CharOf(y as int % 16 * 4 + z as int / 64),
     CharOf(z as int % 64)]
  }

  /** The padded group for the last one or two bytes. */
  function EncodeFinal(b: seq<byte>): (r: string)
    requires 1 <= |b| <= 2
    ensures |r| == 4 && r[3] == Pad && (r[2] == Pad <==> |b| == 1)
    ensures forall i :: 0 <= i < 4 ==> IsAlphabetChar(r[i]) || r[i] == Pad
  {
    if |b| == 1 then
      [CharOf(b[0] as int / 4), CharOf(b[0] as int % 4 * 16), Pad, Pad]
    else
      [CharOf(b[0] as int / 4), CharOf(b[0] as int % 4 * 16 + b[1] as int / 16),
       CharOf(b[1] as int % 16 * 4), Pad]
  }

  /** The encoding of `b`: full groups first, then at most one padded group. */
  function Encode(b: seq<byte>): (r: string)
    ensures |r| == 4 * ((|b| + 2) / 3)
    ensures forall i :: 0 <= i < |r| ==> IsAlphabetChar(r[i]) || r[i] == Pad
    decreases |b|
  {
    if |b| == 0 then ""
    else if |b| < 3 then EncodeFinal(b)
    else EncodeGroup(b[0], b[1], b[2]) + Encode(b[3..])
  }

  /**
   * Decodes one four-character quantum: four alphabet characters give three
   * bytes, "xxx=" gives two and "xx==" gives one; anything else is malformed.
   * Bits below the last byte of a padded quantum are ignored.
   */
  function DecodeQuantum(q: string): (r: Option<seq<byte>>)
    requires |q| == 4
    ensures r.Some? ==> 1 <= |r.value| <= 3
    ensures r.Some? && |r.value| < 3 ==> q[3] == Pad
    ensures r.Some? && |r.value| == 3 ==> q[3] != Pad
  {
    if !IsAlphabetChar(q[0]) || !IsAlphabetChar(q[1]) then None
    else
      var a, b := ValueOf(q[0]), ValueOf(q[1]);
      var x := (a * 4 + b / 16) as byte;
      if q[2] == Pad && q[3] == Pad then Some([x])
      else if !IsAlphabetChar(q[2]) then None
      else
        var c := ValueOf(q[2]);
        var y := (b % 16 * 16 + c / 4) as byte;
        if q[3] == Pad then Some([x, y])
        else if !IsAlphabetChar(q[3]) then None
        else Some([x, y, (c % 4 * 64 + ValueOf(q[3])) as byte])
  }

  /**
   * Decodes a whole text: its length must be a multiple of four and only its
   * last quantum may carry padding. None marks a malformed text.
   */
  function Decode(s: string): (r: Option<seq<byte>>)
    decreases |s|
  {
    if |s| == 0 then Some([])
    else if |s| < 4 then None
    else
      match DecodeQuantum(s[..4])
      case None => None
      case Some(q) =>
        if |s| == 4 then Some(q)
        else if |q| < 3 then None
        else
          match Decode(s[4..])
          case None => None
          case Some(rest) => Some(q + rest)
  }

  /** The bit arithmetic of one group: the four 6-bit values put back together give the three bytes. */
  lemma GroupArithmetic(x: int, y: int, z: int)
    requires 0 <= x < 256 && 0 <= y < 256 && 0 <= z < 256
    ensures x / 4 * 4 + (x % 4 * 16 + y / 16) / 16 == x
    ensures (x % 4 * 16 + y / 16) % 16 * 16 + (y % 16 * 4 + z / 64) / 4 == y
    ensures (y % 16 * 4 + z / 64) % 4 * 64 + z % 64 == z
  {
    var c1 := x % 4 * 16 + y / 16;
    var c2 := y % 16 * 4 + z / 64;
    assert c1 / 16 == x % 4 && c1 % 16 == y / 16;
    assert c2 / 4 == y % 16 && c2 % 4 == z / 64;
  }

  lemma GroupRoundTrip(x: byte, y: byte, z: byte)
    ensures DecodeQuantum(EncodeGroup(x, y, z)) == Some([x, y, z])
  {
    var q := EncodeGroup(x, y, z);
    var a, b, c, d := x as int / 4, x as int % 4 * 16 + y as int / 16, y as int % 16 * 4 + z as int / 64, z as int % 64;
    ValueOfCharOf(a);
    ValueOfCharOf(b);
    ValueOfCharOf(c);
    ValueOfCharOf(d);
    GroupArithmetic(x as int, y as int, z as int);
  }

  lemma PartialRoundTrip(x: byte, y: byte)
    ensures Decode(EncodeFinal([x])) == Some([x])
    ensures Decode(EncodeFinal([x, y])) == Some([x, y])
  {
    assert EncodeFinal([x])[..4] == EncodeFinal([x]);
    assert EncodeFinal([x, y])[..4] == EncodeFinal([x, y]);
    ValueOfCharOf(x as int / 4);
    ValueOfCharOf(x as int % 4 * 16);
    ValueOfCharOf(x as int % 4 * 16 + y as int / 16);
    ValueOfCharOf(y as int % 16 * 4);
    GroupArithmetic(x as int, y as int, 0);
  }

  /** A full quantum in front of a well-formed text decodes to its group in front of the text's bytes. */
  lemma DecodeFullQuantumFirst(q: string, s: string, g: seq<byte>, rest: seq<byte>)
    requires |q| == 4 && DecodeQuantum(q) == Some(g) && |g| == 3
    requires Decode(s) == Some(rest)
    ensures Decode(q + s) == Some(g + rest)
  {
    var t := q + s;
    assert t[..4] == q;
    assert t[4..] == s;
    if s == [] {
      assert rest == [];
      assert g + rest == g;
    }
  }

  /** A full group's encoding in front of a well-formed text decodes to the group in front of the text's bytes. */
  lemma DecodeGroupThen(x: byte, y: byte, z: byte, s: string, rest: seq<byte>)
    requires Decode(s) == Some(rest)
    ensures Decode(EncodeGroup(x, y, z) + s) == Some([x, y, z] + rest)
  {
    GroupRoundTrip(x, y, z);
    DecodeFullQuantumFirst(EncodeGroup(x, y, z), s, [x, y, z], rest);
  }

  /** Kept generic: stated over `seq<byte>` inside the round-trip step, this equality is expensive to prove. */
  lemma SplitFirstThree<T>(b: seq<T>)
    requires |b| >= 3
    ensures [b[0], b[1], b[2]] + b[3..] == b
  {
  }

  lemma EncodeFirstGroup(b: seq<byte>)
    requires |b| >= 3
    ensures Encode(b) == EncodeGroup(b[0], b[1], b[2]) + Encode(b[3..])
  {
  }

  /** One step of the round trip: the first group, given the round trip of the rest. */
  lemma DecodeEncodeStep(b: seq<byte>)
    requires |b| >= 3 && Decode(Encode(b[3..])) == Some(b[3..])
    ensures Decode(Encode(b)) == Some(b)
  {
    EncodeFirstGroup(b);
    DecodeGroupThen(b[0], b[1], b[2], Encode(b[3..]), b[3..]);
    SplitFirstThree(b);
  }

  /** Decoding the encoding of any byte sequence, the empty one included, gives it back. */
  lemma {:induction false} DecodeEncode(b: seq<byte>)
    ensures Decode(Encode(b)) == Some(b)
    decreases |b|
  {
    if |b| == 0 {
    } else if |b| == 1 {
      PartialRoundTrip(b[0], 0);
      assert b == [b[0]];
    } else if |b| == 2 {
      PartialRoundTrip(b[0], b[1]);
      assert b == [b[0], b[1]];
    } else {
      DecodeEncode(b[3..]);
      DecodeEncodeStep(b);
    }
  }

  /** Distinct contents never share an encoding. */
  lemma EncodeInjective(b1: seq<byte>, b2: seq<byte>)
    requires Encode(b1) == Encode(b2)
    ensures b1 == b2
  {
    DecodeEncode(b1);
    DecodeEncode(b2);
  }

  /** Every text the decoder accepts has the length the encoder would give its result. */
  lemma {:induction false} DecodeLength(s: string)
    requires Decode(s).Some?
    ensures |s| == 4 * ((|Decode(s).value| + 2) / 3)
    decreases |s|
  {
    if |s| > 4 {
      var q := DecodeQuantum(s[..4]).value;
      var rest := Decode(s[4..]).value;
      assert |q| == 3 && Decode(s).value == q + rest;
      DecodeLength(s[4..]);
      assert (|rest| + 3 + 2) / 3 == (|rest| + 2) / 3 + 1;
    }
  }

  /** The test vectors of section 10 of RFC 4648 for "", "f", "fo" and "foo": no padding, two pad characters, one, none. */
  lemma StandardTestVectors()
    ensures Encode([]) == ""
    ensures Encode([102]) == "Zg=="
    ensures Encode([102, 111]) == "Zm8="
    ensures Encode([102, 111, 111]) == "Zm9v"
  {
  }
}
