/**
 * Base64 with the standard alphabet and '=' padding (section 4 of RFC 4648):
 * Convert.ToBase64String and Convert.FromBase64String.
 */
module Base64 {
  import opened Common

  /** A 6-bit value, carried in the low bits of a byte. */
  type Sextet = v: bv8 | v < 64

  /** The character for a 6-bit value: A-Z, a-z, 0-9, '+', '/'. */
  function CharOf(v: Sextet): (c: char)
    ensures c != '='
  {
    var n := v as int;
    if n < 26 then ('A' as int + n) as char
    else if n < 52 then ('a' as int + (n - 26)) as char
    else if n < 62 then ('0' as int + (n - 52)) as char
    else if n == 62 then '+'
    else '/'
  }

  /** The 6-bit value of an alphabet character; None for any other character. */
  function ValueOf(c: char): (r: Option<Sextet>)
    ensures c == '=' ==> r.None?
  {
    if 'A' <= c <= 'Z' then Some(ByteOf((c as int - 'A' as int)))
    else if 'a' <= c <= 'z' then Some(ByteOf((c as int - 'a' as int + 26)))
    else if '0' <= c <= '9' then Some(ByteOf((c as int - '0' as int + 52)))
    else if c == '+' then Some(62)
    else if c == '/' then Some(63)
    else None
  }

  /** Every alphabet character is the character of its 6-bit value. */
  lemma CharOfValueOf(c: char)
    requires ValueOf(c).Some?
    ensures CharOf(ValueOf(c).value) == c
  {
  }

  /** Every 6-bit value is recovered from its character. */
  lemma ValueOfCharOf(v: Sextet)
    ensures ValueOf(CharOf(v)) == Some(v)
  {
  }

  /** The four 6-bit values of three bytes, most significant bits first. */
  function Sextets(b0: bv8, b1: bv8, b2: bv8): (v: seq<Sextet>)
    ensures |v| == 4
  {
    [b0 >> 2, ((b0 & 3) << 4) | (b1 >> 4), ((b1 & 15) << 2) | (b2 >> 6), b2 & 63]
  }

  /** Three bytes from four 6-bit values. */
  function Combine(v0: Sextet, v1: Sextet, v2: Sextet, v3: Sextet): (b: seq<bv8>)
    ensures |b| == 3
  {
    [(v0 << 2) | (v1 >> 4), (v1 << 4) | (v2 >> 2), (v2 << 6) | v3]
  }

  /** Combining the sextets of three bytes gives the bytes back. */
  lemma CombineSextets(b0: bv8, b1: bv8, b2: bv8)
    ensures var v := Sextets(b0, b1, b2); Combine(v[0], v[1], v[2], v[3]) == [b0, b1, b2]
  {
  }

  /** Three bytes as four characters. */
  function EncodeGroup(b0: bv8, b1: bv8, b2: bv8): (q: seq<char>)
    ensures |q| == 4
  {
    var v := Sextets(b0, b1, b2);
    [CharOf(v[0]), CharOf(v[1]), CharOf(v[2]), CharOf(v[3])]
  }

  /** Convert.ToBase64String: a group of four characters per three bytes, the last one padded with '='. */
  function Encode(b: seq<bv8>): (s: seq<char>)
    ensures |s| == 4 * ((|b| + 2) / 3)
    decreases |b|
  {
    if |b| == 0 then []
    else if |b| == 1 then
      var v := Sextets(b[0], 0, 0);
      [CharOf(v[0]), CharOf(v[1]), '=', '=']
    else if |b| == 2 then
      var v := Sextets(b[0], b[1], 0);
      [CharOf(v[0]), CharOf(v[1]), CharOf(v[2]), '=']
    else EncodeGroup(b[0], b[1], b[2]) + Encode(b[3..])
  }

  /** Four alphabet characters as three bytes. */
  function DecodeGroup(q: seq<char>): (r: Option<seq<bv8>>)
    requires |q| == 4
    ensures r.Some? ==> |r.value| == 3
  {
    match (ValueOf(q[0]), ValueOf(q[1]), ValueOf(q[2]), ValueOf(q[3]))
    case (Some(v0), Some(v1), Some(v2), Some(v3)) => Some(Combine(v0, v1, v2, v3))
    case _ => None
  }

  /**
   * The last group: "xx==" carries one byte, "xxx=" two, "xxxx" three. The
   * bits of the last character that fall beyond the final byte are ignored.
   */
  function DecodeLast(q: seq<char>): (r: Option<seq<bv8>>)
    requires |q| == 4
    ensures r.Some? ==> 1 <= |r.value| <= 3
  {
    if q[2] == '=' && q[3] == '=' then
      match (ValueOf(q[0]), ValueOf(q[1]))
      case (Some(v0), Some(v1)) => Some(Combine(v0, v1, 0, 0)[..1])
      case _ => None
    else if q[3] == '=' then
      match (ValueOf(q[0]), ValueOf(q[1]), ValueOf(q[2]))
      case (Some(v0), Some(v1), Some(v2)) => Some(Combine(v0, v1, v2, 0)[..2])
      case _ => None
    else DecodeGroup(q)
  }

  /** The number of '=' characters that end s, counting at most two. */
  function Padding(s: seq<char>): (n: nat)
    ensures n <= 2 && n <= |s|
    ensures forall i :: |s| - n <= i < |s| ==> s[i] == '='
  {
    if |s| >= 2 && s[|s| - 2] == '=' && s[|s| - 1] == '=' then 2
    else if |s| >= 1 && s[|s| - 1] == '=' then 1
    else 0
  }

  /**
   * The text Convert.FromBase64String accepts (without white space): whole
   * groups of four characters, each an alphabet character except for the
   * one or two '=' that may end the text.
   */
  predicate Canonical(s: seq<char>)
  {
    |s| % 4 == 0 && forall i :: 0 <= i < |s| - Padding(s) ==> ValueOf(s[i]).Some?
  }

  /** Past the first group, the text is canonical exactly when its first group is all alphabet characters and the rest is canonical. */
  lemma CanonicalSplit(s: seq<char>)
    requires |s| > 4 && |s| % 4 == 0
    ensures Padding(s[4..]) == Padding(s)
    ensures Canonical(s) <==> (forall i :: 0 <= i < 4 ==> ValueOf(s[..4][i]).Some?) && Canonical(s[4..])
  {
    var t := s[4..];
    assert t[|t| - 1] == s[|s| - 1] && t[|t| - 2] == s[|s| - 2];
    assert forall i :: 0 <= i < |t| ==> t[i] == s[i + 4];
    if Canonical(t) && forall i :: 0 <= i < 4 ==> ValueOf(s[..4][i]).Some? {
      forall i | 0 <= i < |s| - Padding(s)
        ensures ValueOf(s[i]).Some?
      {
        if i < 4 {
          assert s[i] == s[..4][i];
        } else {
          assert s[i] == t[i - 4];
        }
      }
    }
  }

  /**
   * Convert.FromBase64String on text without white space: None stands for
   * the FormatException it throws on text that is not canonical
   * (DecodeAccepts).
   */
  function Decode(s: seq<char>): (r: Option<seq<bv8>>)
    ensures r.Some? ==> |s| % 4 == 0
    ensures r.Some? && |s| > 0 ==> 3 * (|s| / 4) - 2 <= |r.value| <= 3 * (|s| / 4)
    decreases |s|
  {
    if |s| == 0 then Some([])
    else if |s| < 4 then None
    else if |s| == 4 then DecodeLast(s)
    else match (DecodeGroup(s[..4]), Decode(s[4..]))
      case (Some(g), Some(rest)) => Some(g + rest)
      case _ => None
  }

  /** A group decodes exactly when all four of its characters are alphabet characters. */
  lemma GroupAccepts(q: seq<char>)
    requires |q| == 4
    ensures DecodeGroup(q).Some? <==> forall i :: 0 <= i < 4 ==> ValueOf(q[i]).Some?
  {
  }

  /** The last group decodes exactly when it is canonical, to 3 bytes less one per '='. */
  lemma LastGroupAccepts(q: seq<char>)
    requires |q| == 4
    ensures DecodeLast(q).Some? <==> Canonical(q)
    ensures DecodeLast(q).Some? ==> |DecodeLast(q).value| == 3 - Padding(q)
  {
    assert Canonical(q) <==> forall i :: 0 <= i < 4 - Padding(q) ==> ValueOf(q[i]).Some?;
  }

  /**
   * The FormatException condition: decoding succeeds exactly on canonical
   * text, and gives 3 bytes per group of four characters less one per '='
   * of padding.
   */
  lemma {:induction false} DecodeAccepts(s: seq<char>)
    ensures Decode(s).Some? <==> Canonical(s)
    ensures Decode(s).Some? ==> |Decode(s).value| == 3 * (|s| / 4) - Padding(s)
    decreases |s|
  {
    if |s| == 4 {
      LastGroupAccepts(s);
    } else if |s| > 4 && |s| % 4 == 0 {
      DecodeAccepts(s[4..]);
      GroupAccepts(s[..4]);
      CanonicalSplit(s);
    }
  }

  lemma GroupRoundTrip(b0: bv8, b1: bv8, b2: bv8)
    ensures DecodeGroup(EncodeGroup(b0, b1, b2)) == Some([b0, b1, b2])
  {
    var v := Sextets(b0, b1, b2);
    ValueOfCharOf(v[0]);
    ValueOfCharOf(v[1]);
    ValueOfCharOf(v[2]);
    ValueOfCharOf(v[3]);
    CombineSextets(b0, b1, b2);
  }

  lemma OneByteRoundTrip(b0: bv8)
    ensures Decode(Encode([b0])) == Some([b0])
  {
    var v := Sextets(b0, 0, 0);
    ValueOfCharOf(v[0]);
    ValueOfCharOf(v[1]);
    CombineSextets(b0, 0, 0);
    assert v[2] == 0 && v[3] == 0;
    var s := Encode([b0]);
    assert s == [CharOf(v[0]), CharOf(v[1]), '=', '='];
    assert DecodeLast(s) == Some(Combine(v[0], v[1], 0, 0)[..1]);
    assert Combine(v[0], v[1], 0, 0) == [b0, 0, 0];
    assert Decode(s) == DecodeLast(s);
    assert [b0, 0, 0][..1] == [b0];
    assert Decode(s) == Some([b0]);
  }

  lemma TwoBytesRoundTrip(b0: bv8, b1: bv8)
    ensures Decode(Encode([b0, b1])) == Some([b0, b1])
  {
    var v := Sextets(b0, b1, 0);
    ValueOfCharOf(v[0]);
    ValueOfCharOf(v[1]);
    ValueOfCharOf(v[2]);
    CombineSextets(b0, b1, 0);
    assert v[3] == 0;
    var s := Encode([b0, b1]);
    assert s == [CharOf(v[0]), CharOf(v[1]), CharOf(v[2]), '='];
    assert DecodeLast(s) == Some(Combine(v[0], v[1], v[2], 0)[..2]);
    assert Combine(v[0], v[1], v[2], 0) == [b0, b1, 0];
    assert Decode(s) == DecodeLast(s);
    assert [b0, b1, 0][..2] == [b0, b1];
    assert Decode(s) == Some([b0, b1]);
  }

  lemma ThreeBytesRoundTrip(b0: bv8, b1: bv8, b2: bv8)
    ensures Decode(EncodeGroup(b0, b1, b2)) == Some([b0, b1, b2])
  {
    var g := EncodeGroup(b0, b1, b2);
    GroupRoundTrip(b0, b1, b2);
    assert g[3] != '=';
    assert Decode(g) == DecodeLast(g) == DecodeGroup(g);
  }

  /** A full group in front of decodable text decodes to the group's bytes in front of the text's. */
  lemma DecodeGroupThen(g: seq<char>, t: seq<char>)
    requires |g| == 4 && DecodeGroup(g).Some?
    requires |t| > 0 && Decode(t).Some?
    ensures Decode(g + t) == Some(DecodeGroup(g).value + Decode(t).value)
  {
    var s := g + t;
    assert s[..4] == g && s[4..] == t;
  }

  /** A tail of fewer than three bytes comes back from its padded group. */
  lemma {:induction false} ShortRoundTrip(b: seq<bv8>)
    requires |b| < 3
    ensures Decode(Encode(b)) == Some(b)
  {
    if |b| == 1 {
      assert b == [b[0]];
      OneByteRoundTrip(b[0]);
    } else if |b| == 2 {
      assert b == [b[0], b[1]];
      TwoBytesRoundTrip(b[0], b[1]);
    }
  }

  /** Decoding inverts encoding: every byte string comes back exactly. */
  lemma {:induction false} DecodeEncode(b: seq<bv8>)
    ensures Decode(Encode(b)) == Some(b)
    decreases |b|
  {
    if |b| < 3 {
      ShortRoundTrip(b);
    } else if |b| == 3 {
      ThreeBytesRoundTrip(b[0], b[1], b[2]);
      assert b == [b[0], b[1], b[2]];
    } else {
      DecodeEncode(b[3..]);
      LongRoundTrip(b);
    }
  }

  /** One group in front of a tail that round-trips. */
  lemma {:induction false} LongRoundTrip(b: seq<bv8>)
    requires |b| > 3 && Decode(Encode(b[3..])) == Some(b[3..])
    ensures Decode(Encode(b)) == Some(b)
  {
    assert b == [b[0], b[1], b[2]] + b[3..];
    var g, t := EncodeGroup(b[0], b[1], b[2]), Encode(b[3..]);
    assert Encode(b) == g + t;
    GroupRoundTrip(b[0], b[1], b[2]);
    DecodeGroupThen(g, t);
  }

}
