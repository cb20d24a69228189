/** The "basic" Base64 alphabet of section 4 of RFC 4648, decoded the way
    java.util.Base64.getDecoder() decodes a String:
    - every character must be one of the 64 alphabet characters, except for
      padding at the very end;
    - padding is optional, but when present it must complete the last
      4-character unit ("xx==" or "xxx=");
    - a last unit of a single character is refused;
    - the unused low bits of a short last unit are ignored, not checked.
    Failure stands for the IllegalArgumentException the decoder throws. */
module Base64 {
  import opened Options

  /** One octet of a byte[] (its Java sign plays no part here). */
  type byte = x: int | 0 <= x < 256

  predicate IsBase64Char(c: char) {
    ('A' <= c <= 'Z') || ('a' <= c <= 'z') || ('0' <= c <= '9') || c == '+' || c == '/'
  }

  predicate AllBase64Chars(s: string) {
    forall i :: 0 <= i < |s| ==> IsBase64Char(s[i])
  }

  /** The alphabet character of a 6-bit value (Table 1 of RFC 4648). */
  function CharOf(v: nat): (c: char)
    requires v < 64
    ensures IsBase64Char(c)
  {
    if v < 26 then ('A' as int + v) as char
    else if v < 52 then ('a' as int + (v - 26)) as char
    else if v < 62 then ('0' as int + (v - 52)) as char
    else if v == 62 then '+'
    else '/'
  }

  /** The 6-bit value an alphabet character stands for: the inverse of CharOf. */
  function SixBits(c: char): (v: nat)
    requires IsBase64Char(c)
    ensures v < 64 && CharOf(v) == c
  {
    if 'A' <= c <= 'Z' then c as int - 'A' as int
    else if 'a' <= c <= 'z' then c as int - 'a' as int + 26
    else if '0' <= c <= '9' then c as int - '0' as int + 52
    else if c == '+' then 62
    else 63
  }

  lemma SixBitsOfCharOf(v: nat)
    requires v < 64
    ensures SixBits(CharOf(v)) == v
  {
  }

  /** The three octets carried by four alphabet characters. */
  function DecodeQuantum(a: char, b: char, c: char, d: char): (r: seq<byte>)
    requires IsBase64Char(a) && IsBase64Char(b) && IsBase64Char(c) && IsBase64Char(d)
  {
    var v0, v1, v2, v3 := SixBits(a), SixBits(b), SixBits(c), SixBits(d);
    [v0 * 4 + v1 / 16, (v1 % 16) * 16 + v2 / 4, (v2 % 4) * 64 + v3]
  }

  /** The last unit of the input when it is not four alphabet characters:
      "xx" and "xx==" carry one octet, "xxx" and "xxx=" two; anything else
      is refused. */
  function DecodeFinalUnit(s: string): (r: Option<seq<byte>>)
    ensures r.Some? ==> 4 * |r.value| <= 3 * |Unpadded(s)| < 4 * |r.value| + 4
  {
    if |s| == 2 && IsBase64Char(s[0]) && IsBase64Char(s[1]) then
      assert Unpadded(s) == s;
      Some([SixBits(s[0]) * 4 + SixBits(s[1]) / 16])
    else if |s| == 3 && IsBase64Char(s[0]) && IsBase64Char(s[1]) && IsBase64Char(s[2]) then
      assert Unpadded(s) == s;
      var v1 := SixBits(s[1]);
      Some([SixBits(s[0]) * 4 + v1 / 16, (v1 % 16) * 16 + SixBits(s[2]) / 4])
    else if |s| == 4 && IsBase64Char(s[0]) && IsBase64Char(s[1]) && s[2] == '=' && s[3] == '=' then
      assert Unpadded(s) == s[..2];
      Some([SixBits(s[0]) * 4 + SixBits(s[1]) / 16])
    else if |s| == 4 && IsBase64Char(s[0]) && IsBase64Char(s[1]) && IsBase64Char(s[2]) && s[3] == '=' then
      assert Unpadded(s) == s[..3];
      var v1 := SixBits(s[1]);
      Some([SixBits(s[0]) * 4 + v1 / 16, (v1 % 16) * 16 + SixBits(s[2]) / 4])
    else
      None
  }

  /** Base64.getDecoder().decode(s): the decoded octets, or None where the
      decoder throws. Every four alphabet characters carry three octets: an
      accepted input decodes to three quarters of its unpadded length,
      rounded down. */
  function Decode(s: string): (r: Option<seq<byte>>)
    ensures r.Some? ==> 4 * |r.value| <= 3 * |Unpadded(s)| < 4 * |r.value| + 4
    decreases |s|
  {
    if |s| == 0 then Some([])
    else if |s| >= 4 && IsBase64Char(s[0]) && IsBase64Char(s[1]) && IsBase64Char(s[2]) && IsBase64Char(s[3]) then
      match Decode(s[4..])
      case None => None
      case Some(rest) =>
        assert AllBase64Chars(s[..4]);
        UnpaddedAfterQuantum(s);
        Some(DecodeQuantum(s[0], s[1], s[2], s[3]) + rest)
    else
      DecodeFinalUnit(s)
  }

  /** Base64.getEncoder().encodeToString(b): the padded encoding a client
      puts in its header. */
  function Encode(b: seq<byte>): (s: string)
    decreases |b|
  {
    if |b| == 0 then []
    else if |b| == 1 then
      [CharOf(b[0] / 4), CharOf((b[0] % 4) * 16), '=', '=']
    else if |b| == 2 then
      [CharOf(b[0] / 4), CharOf((b[0] % 4) * 16 + b[1] / 16), CharOf((b[1] % 16) * 4), '=']
    else
      EncodeQuantum(b[0], b[1], b[2]) + Encode(b[3..])
  }

  /** The four alphabet characters that carry three octets. */
  function EncodeQuantum(x: byte, y: byte, z: byte): (q: string)
    ensures |q| == 4 && AllBase64Chars(q)
  {
    [CharOf(x / 4), CharOf((x % 4) * 16 + y / 16), CharOf((y % 16) * 4 + z / 64), CharOf(z % 64)]
  }

  /** The input without its trailing padding (at most two '='). */
  function Unpadded(s: string): (body: string)
    ensures |body| <= |s| <= |body| + 2 && body == s[..|body|]
    ensures forall i :: |body| <= i < |s| ==> s[i] == '='
  {
    if |s| >= 2 && s[|s| - 2] == '=' && s[|s| - 1] == '=' then s[..|s| - 2]
    else if |s| >= 1 && s[|s| - 1] == '=' then s[..|s| - 1]
    else s
  }

  /** An input the decoder accepts, stated without reference to the decoder:
      alphabet characters, then either no padding and a length that does not
      leave a single dangling character, or padding that completes the last
      4-character unit. */
  predicate WellFormed(s: string) {
    var body := Unpadded(s);
    AllBase64Chars(body) && if |body| == |s| then |s| % 4 != 1 else |s| % 4 == 0
  }

  lemma UnpaddedAfterQuantum(s: string)
    requires |s| >= 4 && AllBase64Chars(s[..4])
    ensures Unpadded(s) == s[..4] + Unpadded(s[4..])
  {
    var t := s[4..];
    assert s == s[..4] + t;
    assert IsBase64Char(s[3]) && !IsBase64Char('=');
    if |s| >= 2 && s[|s| - 2] == '=' && s[|s| - 1] == '=' {
      assert s[..|s| - 2] == s[..4] + t[..|t| - 2];
    } else if |s| >= 1 && s[|s| - 1] == '=' {
      assert s[..|s| - 1] == s[..4] + t[..|t| - 1];
    }
  }

  lemma AllBase64CharsAppend(a: string, b: string)
    requires AllBase64Chars(a)
    ensures AllBase64Chars(a + b) <==> AllBase64Chars(b)
  {
    if AllBase64Chars(b) {
      forall i | 0 <= i < |a + b| ensures IsBase64Char((a + b)[i]) {
        if i >= |a| { assert (a + b)[i] == b[i - |a|]; }
      }
    }
    if AllBase64Chars(a + b) {
      forall i | 0 <= i < |b| ensures IsBase64Char(b[i]) {
        assert (a + b)[|a| + i] == b[i];
      }
    }
  }

  lemma WellFormedAfterQuantum(s: string)
    requires |s| >= 4 && AllBase64Chars(s[..4])
    ensures WellFormed(s) <==> WellFormed(s[4..])
  {
    var t := s[4..];
    UnpaddedAfterQuantum(s);
    AllBase64CharsAppend(s[..4], Unpadded(t));
    assert |Unpadded(s)| == |Unpadded(t)| + 4;
    assert |s| % 4 == |t| % 4;
  }

  /** When the input does not start with four alphabet characters, it is
      well formed exactly when it is one of the short last units. */
  lemma FinalUnitWellFormed(s: string)
    requires |s| > 0
    requires !(|s| >= 4 && IsBase64Char(s[0]) && IsBase64Char(s[1]) && IsBase64Char(s[2]) && IsBase64Char(s[3]))
    ensures DecodeFinalUnit(s).Some? <==> WellFormed(s)
  {
    var body := Unpadded(s);
    if WellFormed(s) {
      assert forall i :: 0 <= i < |body| ==> IsBase64Char(s[i]);
      assert |body| < 4;
      assert |body| >= 2 ==> IsBase64Char(s[0]) && IsBase64Char(s[1]);
      assert |body| >= 3 ==> IsBase64Char(s[2]);
    }
    if DecodeFinalUnit(s).Some? {
      if |s| == 4 && s[2] == '=' && s[3] == '=' {
        assert body == s[..2];
      } else if |s| == 4 {
        assert body == s[..3];
      } else {
        assert body == s;
      }
    }
  }

  /** Acceptance: the decoder succeeds on exactly the well-formed inputs. */
  lemma {:induction false} DecodeSucceedsIffWellFormed(s: string)
    ensures Decode(s).Some? <==> WellFormed(s)
    decreases |s|
  {
    if |s| == 0 {
    } else if |s| >= 4 && IsBase64Char(s[0]) && IsBase64Char(s[1]) && IsBase64Char(s[2]) && IsBase64Char(s[3]) {
      DecodeSucceedsIffWellFormed(s[4..]);
      assert AllBase64Chars(s[..4]);
      WellFormedAfterQuantum(s);
    } else {
      FinalUnitWellFormed(s);
    }
  }

  /** Every character of an accepted input is an alphabet character or '='. */
  lemma DecodedInputAlphabet(s: string)
    requires Decode(s).Some?
    ensures forall i :: 0 <= i < |s| ==> IsBase64Char(s[i]) || s[i] == '='
  {
    DecodeSucceedsIffWellFormed(s);
    var body := Unpadded(s);
    forall i | 0 <= i < |s| ensures IsBase64Char(s[i]) || s[i] == '=' {
      if i < |body| { assert body[i] == s[i]; }
    }
  }

  /** Four alphabet characters decode back to the three octets they encode. */
  lemma QuantumRoundTrip(x: byte, y: byte, z: byte)
    ensures var q := EncodeQuantum(x, y, z); DecodeQuantum(q[0], q[1], q[2], q[3]) == [x, y, z]
  {
    var v0, v1, v2, v3 := x / 4, (x % 4) * 16 + y / 16, (y % 16) * 4 + z / 64, z % 64;
    SixBitsOfCharOf(v0);
    SixBitsOfCharOf(v1);
    SixBitsOfCharOf(v2);
    SixBitsOfCharOf(v3);
    assert v1 / 16 == x % 4 && v1 % 16 == y / 16;
    assert v2 / 4 == y % 16 && v2 % 4 == z / 64;
  }

  /** A last unit "xx==" decodes back to its one octet. */
  lemma OneOctetRoundTrip(x: byte)
    ensures Decode(Encode([x])) == Some([x])
  {
    SixBitsOfCharOf(x / 4);
    SixBitsOfCharOf((x % 4) * 16);
    var s := Encode([x]);
    assert !IsBase64Char(s[2]);
    assert (x / 4) * 4 + ((x % 4) * 16) / 16 == x;
  }

  /** A last unit "xxx=" decodes back to its two octets. */
  lemma TwoOctetsRoundTrip(x: byte, y: byte)
    ensures Decode(Encode([x, y])) == Some([x, y])
  {
    SixBitsOfCharOf(x / 4);
    SixBitsOfCharOf((x % 4) * 16 + y / 16);
    SixBitsOfCharOf((y % 16) * 4);
    var s := Encode([x, y]);
    assert !IsBase64Char(s[3]);
  }

  /** The padded encoding of three or more octets starts with one unit of
      four alphabet characters that carries the first three octets. */
  lemma EncodeHead(b: seq<byte>)
    requires |b| >= 3
    ensures var e := Encode(b);
      && |e| >= 4 && AllBase64Chars(e[..4])
      && DecodeQuantum(e[0], e[1], e[2], e[3]) == b[..3]
      && e[4..] == Encode(b[3..])
  {
    var q := EncodeQuantum(b[0], b[1], b[2]);
    QuantumRoundTrip(b[0], b[1], b[2]);
    assert Encode(b) == q + Encode(b[3..]);
    assert (q + Encode(b[3..]))[..4] == q;
  }

  /** Four leading alphabet characters: the input is accepted exactly when
      the rest is, and then decodes to their unit ahead of the rest. */
  lemma DecodeUnit(e: string)
    requires |e| >= 4 && AllBase64Chars(e[..4])
    ensures Decode(e) == if Decode(e[4..]).Some? then Some(DecodeQuantum(e[0], e[1], e[2], e[3]) + Decode(e[4..]).value) else None
  {
    assert IsBase64Char(e[..4][0]) && IsBase64Char(e[..4][1]) && IsBase64Char(e[..4][2]) && IsBase64Char(e[..4][3]);
  }

  /** Decoding splits at any unit boundary: a run of whole units decodes on
      its own, and whatever follows it decodes independently, the input
      being refused exactly when what follows is refused. */
  lemma {:induction false} DecodeConcat(a: string, b: string)
    requires |a| % 4 == 0 && AllBase64Chars(a)
    ensures Decode(a).Some?
    ensures Decode(a + b) == if Decode(b).Some? then Some(Decode(a).value + Decode(b).value) else None
    decreases |a|
  {
    if |a| == 0 {
      assert a + b == b && Decode(a) == Some([]);
      if Decode(b).Some? {
        assert [] + Decode(b).value == Decode(b).value;
      }
    } else {
      assert a == a[..4] + a[4..];
      AllBase64CharsAppend(a[..4], a[4..]);
      DecodeConcat(a[4..], b);
      DecodeConcatStep(a, b);
    }
  }

  /** One unit of the induction in DecodeConcat. */
  lemma DecodeConcatStep(a: string, b: string)
    requires |a| >= 4 && AllBase64Chars(a[..4])
    requires Decode(a[4..]).Some?
    requires Decode(a[4..] + b) == if Decode(b).Some? then Some(Decode(a[4..]).value + Decode(b).value) else None
    ensures Decode(a).Some?
    ensures Decode(a + b) == if Decode(b).Some? then Some(Decode(a).value + Decode(b).value) else None
  {
    var t, ab := a[4..], a + b;
    UnitOfConcat(a, b);
    DecodeUnit(a);
    if Decode(b).Some? {
      UnitThenDecoded(ab, DecodeQuantum(a[0], a[1], a[2], a[3]), Decode(t).value, Decode(b).value);
    } else {
      UnitThenRefused(ab);
    }
  }

  /** The first unit of a + b is the first unit of a. */
  lemma UnitOfConcat(a: string, b: string)
    requires |a| >= 4
    ensures var ab := a + b;
      && ab[..4] == a[..4] && ab[4..] == a[4..] + b
      && ab[0] == a[0] && ab[1] == a[1] && ab[2] == a[2] && ab[3] == a[3]
  {
  }

  /** A unit ahead of an accepted rest decodes to its octets ahead of the
      rest's (DecodeUnit, with the concatenation regrouped). */
  lemma UnitThenDecoded(e: string, x: seq<byte>, y: seq<byte>, z: seq<byte>)
    requires |e| >= 4 && AllBase64Chars(e[..4])
    requires DecodeQuantum(e[0], e[1], e[2], e[3]) == x
    requires Decode(e[4..]) == Some(y + z)
    ensures Decode(e) == Some((x + y) + z)
  {
    DecodeUnit(e);
    assert x + (y + z) == (x + y) + z;
  }

  /** A unit ahead of a refused rest is refused (DecodeUnit, refused case). */
  lemma UnitThenRefused(e: string)
    requires |e| >= 4 && AllBase64Chars(e[..4])
    requires Decode(e[4..]).None?
    ensures Decode(e).None?
  {
    DecodeUnit(e);
  }

  /** Padding carries no data: an accepted input decodes to the same octets
      with its padding removed. */
  lemma {:induction false} DecodeUnpadded(s: string)
    requires Decode(s).Some?
    ensures Decode(Unpadded(s)) == Decode(s)
    decreases |s|
  {
    assert !IsBase64Char('=');
    if |s| == 0 {
    } else if |s| >= 4 && IsBase64Char(s[0]) && IsBase64Char(s[1]) && IsBase64Char(s[2]) && IsBase64Char(s[3]) {
      var t := s[4..];
      assert AllBase64Chars(s[..4]);
      DecodeUnpadded(t);
      UnpaddedAfterQuantum(s);
      var u := Unpadded(s);
      var x := DecodeQuantum(s[0], s[1], s[2], s[3]);
      assert u[..4] == s[..4] && u[4..] == Unpadded(t);
      DecodeUnit(s);
      DecodeUnit(u);
    } else if |s| == 4 && s[2] == '=' && s[3] == '=' {
      assert Unpadded(s) == s[..2];
    } else if |s| == 4 {
      assert Unpadded(s) == s[..3];
    } else {
      assert Unpadded(s) == s;
    }
  }

  /** Two tails that decode alike still decode alike after the same run of
      whole units. */
  lemma DecodeSameTail(p: string, u: string, v: string)
    requires |p| % 4 == 0 && AllBase64Chars(p)
    requires Decode(u) == Decode(v)
    ensures Decode(p + u) == Decode(p + v)
  {
    DecodeConcat(p, u);
    DecodeConcat(p, v);
  }

  /** The unused low bits of a last unit "xx" are ignored: only the top two
      bits of its second character reach the one octet it carries. */
  lemma DecodeIgnoresUnusedBitsOfOneOctet(p: string, a: char, b: char, b2: char)
    requires |p| % 4 == 0 && AllBase64Chars(p)
    requires IsBase64Char(a) && IsBase64Char(b) && IsBase64Char(b2)
    requires SixBits(b) / 16 == SixBits(b2) / 16
    ensures Decode(p + [a, b]) == Decode(p + [a, b2])
  {
    assert Decode([a, b]) == Decode([a, b2]);
    DecodeSameTail(p, [a, b], [a, b2]);
  }

  /** The unused low bits of a last unit "xxx" are ignored: only the top
      four bits of its third character reach the two octets it carries. */
  lemma DecodeIgnoresUnusedBitsOfTwoOctets(p: string, a: char, b: char, c: char, c2: char)
    requires |p| % 4 == 0 && AllBase64Chars(p)
    requires IsBase64Char(a) && IsBase64Char(b) && IsBase64Char(c) && IsBase64Char(c2)
    requires SixBits(c) / 4 == SixBits(c2) / 4
    ensures Decode(p + [a, b, c]) == Decode(p + [a, b, c2])
  {
    assert Decode([a, b, c]) == Decode([a, b, c2]);
    DecodeSameTail(p, [a, b, c], [a, b, c2]);
  }

  /** Round trip without padding (what Base64.getEncoder().withoutPadding()
      sends): the decoder recovers every octet string from its encoding
      with the padding dropped. */
  lemma DecodeUnpaddedEncode(b: seq<byte>)
    ensures Decode(Unpadded(Encode(b))) == Some(b)
  {
    DecodeEncode(b);
    DecodeUnpadded(Encode(b));
  }

  /** Round trip: the decoder recovers every octet string the encoder
      encodes. */
  lemma {:induction false} DecodeEncode(b: seq<byte>)
    ensures Decode(Encode(b)) == Some(b)
    decreases |b|
  {
    if |b| == 0 {
    } else if |b| == 1 {
      assert b == [b[0]];
      OneOctetRoundTrip(b[0]);
    } else if |b| == 2 {
      assert b == [b[0], b[1]];
      TwoOctetsRoundTrip(b[0], b[1]);
    } else {
      EncodeHead(b);
      DecodeEncode(b[3..]);
      DecodeUnit(Encode(b));
      assert b[..3] + b[3..] == b;
    }
  }
}
