/** The base64 encoding of section 4 of RFC 4648 (alphabet A-Z a-z 0-9 + /,
    padded with '=' to a multiple of four characters), which is what a
    Node.js Buffer produces for toString('base64'). The server uses it to
    turn an uploaded proof image into a data URL. */
module Base64 {
  import opened Optional

  type Byte = x: int | 0 <= x < 256
  /** A six-bit group: the value one base64 character stands for. */
  type Sextet = x: int | 0 <= x < 64

  const Pad: char := '='

  /** The character for a six-bit value (Table 1 of RFC 4648). */
  function CharOf(i: Sextet): (c: char)
    ensures c != Pad
  {
    if i < 26 then ('A' as int + i) as char
    else if i < 52 then ('a' as int + (i - 26)) as char
    else if i < 62 then ('0' as int + (i - 52)) as char
    else if i == 62 then '+'
    else '/'
  }

  predicate IsBase64Char(c: char) {
    'A' <= c <= 'Z' || 'a' <= c <= 'z' || '0' <= c <= '9' || c == '+' || c == '/'
  }

  /** The six-bit value of a base64 character. */
  function ValueOf(c: char): (i: Sextet)
    requires IsBase64Char(c)
    ensures CharOf(i) == c
  {
    if 'A' <= c <= 'Z' then c as int - 'A' as int
    else if 'a' <= c <= 'z' then c as int - 'a' as int + 26
    else if '0' <= c <= '9' then c as int - '0' as int + 52
    else if c == '+' then 62
    else 63
  }

  /** Every character of the alphabet reads back as the value it encodes. */
  lemma ValueOfCharOf(i: Sextet)
    ensures IsBase64Char(CharOf(i)) && ValueOf(CharOf(i)) == i
  {
  }

  /** Three bytes as four characters. */
  function EncodeGroup(b0: Byte, b1: Byte, b2: Byte): seq<char> {
    [CharOf(b0 / 4), CharOf((b0 % 4) * 16 + b1 / 16), CharOf((b1 % 16) * 4 + b2 / 64), CharOf(b2 % 64)]
  }

  function Encode(bytes: seq<Byte>): seq<char>
    decreases |bytes|
  {
    if |bytes| == 0 then []
    else if |bytes| == 1 then
      [CharOf(bytes[0] / 4), CharOf((bytes[0] % 4) * 16), Pad, Pad]
    else if |bytes| == 2 then
      [CharOf(bytes[0] / 4), CharOf((bytes[0] % 4) * 16 + bytes[1] / 16), CharOf((bytes[1] % 16) * 4), Pad]
    else
      EncodeGroup(bytes[0], bytes[1], bytes[2]) + Encode(bytes[3..])
  }

  /** The test vectors of section 10 of RFC 4648 for "f", "fo" and "foobar":
      they pin the encoding to the standard alphabet and padding. */
  lemma EncodeTestVectors()
    ensures Encode([102]) == "Zg=="
    ensures Encode([102, 111]) == "Zm8="
    ensures Encode([102, 111, 111, 98, 97, 114]) == "Zm9vYmFy"
  {
    var foobar: seq<Byte> := [102, 111, 111, 98, 97, 114];
    assert foobar[3..] == [98, 97, 114];
    assert foobar[3..][3..] == [];
    FooGroup();
    BarGroup();
  }

  lemma FooGroup()
    ensures EncodeGroup(102, 111, 111) == "Zm9v"
  {
    assert CharOf(25) == 'Z' && CharOf(38) == 'm' && CharOf(61) == '9' && CharOf(47) == 'v';
  }

  lemma BarGroup()
    ensures EncodeGroup(98, 97, 114) == "YmFy"
  {
    assert CharOf(24) == 'Y' && CharOf(38) == 'm' && CharOf(5) == 'F' && CharOf(50) == 'y';
  }

  /** Four characters for every started group of three bytes. */
  lemma {:induction false} EncodeLength(bytes: seq<Byte>)
    ensures |Encode(bytes)| == (|bytes| + 2) / 3 * 4
    decreases |bytes|
  {
    if |bytes| >= 3 {
      EncodeLength(bytes[3..]);
      EncodeStep(bytes);
      GroupsStep(|bytes|);
    }
  }

  /** Three more bytes make one more group of four characters. */
  lemma GroupsStep(n: int)
    requires n >= 3
    ensures (n + 2) / 3 * 4 == (n - 3 + 2) / 3 * 4 + 4
  {
    assert (n + 2) / 3 == (n - 3 + 2) / 3 + 1;
  }

  /** Four characters as one, two or three bytes, or None if they are not a
      well-formed final group. */
  function DecodeGroup(q: seq<char>): Option<seq<Byte>>
    requires |q| == 4
  {
    if !(IsBase64Char(q[0]) && IsBase64Char(q[1])) then None
    else
      var i0, i1 := ValueOf(q[0]), ValueOf(q[1]);
      var b0 := i0 * 4 + i1 / 16;
      if q[2] == Pad && q[3] == Pad then Some([b0])
      else if !IsBase64Char(q[2]) then None
      else
        var i2 := ValueOf(q[2]);
        var b1 := (i1 % 16) * 16 + i2 / 4;
        if q[3] == Pad then Some([b0, b1])
        else if !IsBase64Char(q[3]) then None
        else Some([b0, b1, (i2 % 4) * 64 + ValueOf(q[3])])
  }

  /** Decoding: groups of four characters; only the last group may be padded. */
  function Decode(s: seq<char>): Option<seq<Byte>>
    decreases |s|
  {
    if |s| == 0 then Some([])
    else if |s| < 4 then None
    else if |s| == 4 then DecodeGroup(s)
    else
      match DecodeGroup(s[..4])
      case None => None
      case Some(g) =>
        if |g| != 3 then None
        else
          match Decode(s[4..])
          case None => None
          case Some(rest) => Some(g + rest)
  }

  /** Four alphabet characters decode to the three bytes their values spell. */
  lemma DecodeFull(q: seq<char>, i0: Sextet, i1: Sextet, i2: Sextet, i3: Sextet)
    requires |q| == 4
    requires IsBase64Char(q[0]) && ValueOf(q[0]) == i0 && IsBase64Char(q[1]) && ValueOf(q[1]) == i1
    requires IsBase64Char(q[2]) && ValueOf(q[2]) == i2 && IsBase64Char(q[3]) && ValueOf(q[3]) == i3
    ensures DecodeGroup(q) == Some([i0 * 4 + i1 / 16, (i1 % 16) * 16 + i2 / 4, (i2 % 4) * 64 + i3])
  {
    assert q[2] != Pad && q[3] != Pad;
  }

  /** Splitting three bytes into four six-bit values and joining them again gives the bytes back. */
  lemma SextetsJoin(b0: Byte, b1: Byte, b2: Byte)
    ensures var i0, i1, i2, i3 := b0 / 4, (b0 % 4) * 16 + b1 / 16, (b1 % 16) * 4 + b2 / 64, b2 % 64;
      && i0 * 4 + i1 / 16 == b0
      && (i1 % 16) * 16 + i2 / 4 == b1
      && (i2 % 4) * 64 + i3 == b2
  {
    var i1, i2 := (b0 % 4) * 16 + b1 / 16, (b1 % 16) * 4 + b2 / 64;
    assert i1 / 16 == b0 % 4 && i1 % 16 == b1 / 16;
    assert i2 / 4 == b1 % 16 && i2 % 4 == b2 / 64;
  }

  lemma GroupRoundTrip(b0: Byte, b1: Byte, b2: Byte)
    ensures DecodeGroup(EncodeGroup(b0, b1, b2)) == Some([b0, b1, b2])
  {
    var i0, i1, i2, i3 := b0 / 4, (b0 % 4) * 16 + b1 / 16, (b1 % 16) * 4 + b2 / 64, b2 % 64;
    ValueOfCharOf(i0);
    ValueOfCharOf(i1);
    ValueOfCharOf(i2);
    ValueOfCharOf(i3);
    DecodeFull(EncodeGroup(b0, b1, b2), i0, i1, i2, i3);
    SextetsJoin(b0, b1, b2);
  }

  lemma OneByteRoundTrip(b0: Byte)
    ensures DecodeGroup([CharOf(b0 / 4), CharOf((b0 % 4) * 16), Pad, Pad]) == Some([b0])
  {
    ValueOfCharOf(b0 / 4);
    ValueOfCharOf((b0 % 4) * 16);
  }

  lemma TwoByteRoundTrip(b0: Byte, b1: Byte)
    ensures DecodeGroup([CharOf(b0 / 4), CharOf((b0 % 4) * 16 + b1 / 16), CharOf((b1 % 16) * 4), Pad]) == Some([b0, b1])
  {
    var i1, i2 := (b0 % 4) * 16 + b1 / 16, (b1 % 16) * 4;
    ValueOfCharOf(b0 / 4);
    ValueOfCharOf(i1);
    ValueOfCharOf(i2);
    assert i1 / 16 == b0 % 4 && i1 % 16 == b1 / 16;
    assert i2 / 4 == b1 % 16;
  }

  /** Decoding undoes encoding: the stored proof image can be recovered byte for byte. */
  lemma {:induction false} DecodeEncode(bytes: seq<Byte>)
    ensures Decode(Encode(bytes)) == Some(bytes)
    decreases |bytes|
  {
    if |bytes| == 1 {
      DecodeEncodeOne(bytes);
    } else if |bytes| == 2 {
      DecodeEncodeTwo(bytes);
    } else if |bytes| >= 3 {
      DecodeEncode(bytes[3..]);
      EncodeStep(bytes);
      DecodeEncodeStep(bytes, Encode(bytes[3..]));
    }
  }

  /** One full group in front of a text that decodes to the rest of the bytes decodes to all of them. */
  lemma DecodeEncodeStep(bytes: seq<Byte>, t: seq<char>)
    requires |bytes| >= 3 && Decode(t) == Some(bytes[3..])
    ensures Decode(EncodeGroup(bytes[0], bytes[1], bytes[2]) + t) == Some(bytes)
  {
    GroupThen(bytes[0], bytes[1], bytes[2], t, bytes[3..]);
    assert [bytes[0], bytes[1], bytes[2]] + bytes[3..] == bytes;
  }

  /** A group of three bytes in front of a decodable text decodes to those bytes in front of the text's. */
  lemma GroupThen(b0: Byte, b1: Byte, b2: Byte, t: seq<char>, y: seq<Byte>)
    requires Decode(t) == Some(y)
    ensures Decode(EncodeGroup(b0, b1, b2) + t) == Some([b0, b1, b2] + y)
  {
    GroupRoundTrip(b0, b1, b2);
    DecodeGroupThen(EncodeGroup(b0, b1, b2), t, [b0, b1, b2], y);
  }

  /** Encoding three or more bytes encodes the first three, then the rest. */
  lemma EncodeStep(bytes: seq<Byte>)
    requires |bytes| >= 3
    ensures Encode(bytes) == EncodeGroup(bytes[0], bytes[1], bytes[2]) + Encode(bytes[3..])
  {
  }

  lemma DecodeEncodeOne(bytes: seq<Byte>)
    requires |bytes| == 1
    ensures Decode(Encode(bytes)) == Some(bytes)
  {
    OneByteRoundTrip(bytes[0]);
    assert bytes == [bytes[0]];
  }

  lemma DecodeEncodeTwo(bytes: seq<Byte>)
    requires |bytes| == 2
    ensures Decode(Encode(bytes)) == Some(bytes)
  {
    assert bytes == [bytes[0], bytes[1]];
    DecodeTwoBytes(Encode(bytes), bytes[0], bytes[1]);
  }

  /** The final group of two bytes decodes to them. */
  lemma DecodeTwoBytes(e: seq<char>, b0: Byte, b1: Byte)
    requires e == [CharOf(b0 / 4), CharOf((b0 % 4) * 16 + b1 / 16), CharOf((b1 % 16) * 4), Pad]
    ensures Decode(e) == Some([b0, b1])
  {
    TwoByteRoundTrip(b0, b1);
  }

  /** A full group followed by a decodable rest decodes to the group's bytes followed by the rest's. */
  lemma DecodeGroupThen(g: seq<char>, t: seq<char>, x: seq<Byte>, y: seq<Byte>)
    requires |g| == 4 && DecodeGroup(g) == Some(x) && |x| == 3 && Decode(t) == Some(y)
    ensures Decode(g + t) == Some(x + y)
  {
    if |t| == 0 {
      assert g + t == g;
      assert x + y == x;
    } else {
      assert (g + t)[..4] == g && (g + t)[4..] == t;
    }
  }

  /** An encoding uses only the alphabet and the pad character; in particular it holds no ','. */
  lemma {:induction false} EncodeAlphabet(bytes: seq<Byte>)
    ensures forall k :: 0 <= k < |Encode(bytes)| ==> IsBase64Char(Encode(bytes)[k]) || Encode(bytes)[k] == Pad
    decreases |bytes|
  {
    if |bytes| >= 3 {
      EncodeAlphabet(bytes[3..]);
      EncodeStep(bytes);
      GroupAlphabet(bytes[0], bytes[1], bytes[2]);
      AlphabetAppend(EncodeGroup(bytes[0], bytes[1], bytes[2]), Encode(bytes[3..]));
    } else if |bytes| == 2 {
      TwoBytesAlphabet(Encode(bytes), bytes[0], bytes[1]);
    } else if |bytes| == 1 {
      OneByteAlphabet(Encode(bytes), bytes[0]);
    }
  }

  predicate AlphabetOnly(s: seq<char>) {
    forall k :: 0 <= k < |s| ==> IsBase64Char(s[k]) || s[k] == Pad
  }

  lemma AlphabetAppend(a: seq<char>, b: seq<char>)
    requires AlphabetOnly(a) && AlphabetOnly(b)
    ensures AlphabetOnly(a + b)
  {
    forall k | 0 <= k < |a + b| ensures IsBase64Char((a + b)[k]) || (a + b)[k] == Pad {
      if k >= |a| {
        assert (a + b)[k] == b[k - |a|];
      }
    }
  }

  lemma GroupAlphabet(b0: Byte, b1: Byte, b2: Byte)
    ensures AlphabetOnly(EncodeGroup(b0, b1, b2))
  {
    ValueOfCharOf(b0 / 4);
    ValueOfCharOf((b0 % 4) * 16 + b1 / 16);
    ValueOfCharOf((b1 % 16) * 4 + b2 / 64);
    ValueOfCharOf(b2 % 64);
  }

  lemma TwoBytesAlphabet(e: seq<char>, b0: Byte, b1: Byte)
    requires e == [CharOf(b0 / 4), CharOf((b0 % 4) * 16 + b1 / 16), CharOf((b1 % 16) * 4), Pad]
    ensures AlphabetOnly(e)
  {
    ValueOfCharOf(b0 / 4);
    ValueOfCharOf((b0 % 4) * 16 + b1 / 16);
    ValueOfCharOf((b1 % 16) * 4);
  }

  lemma OneByteAlphabet(e: seq<char>, b0: Byte)
    requires e == [CharOf(b0 / 4), CharOf((b0 % 4) * 16), Pad, Pad]
    ensures AlphabetOnly(e)
  {
    ValueOfCharOf(b0 / 4);
    ValueOfCharOf((b0 % 4) * 16);
  }
}
