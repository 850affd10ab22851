/**
 * Base64 as defined in section 4 of RFC 4648: the standard alphabet, '=' padding,
 * four output characters for every started group of three input bytes.
 */
module Base64 {
  import opened Basics

  type Sextet = i: int | 0 <= i < 64

  /** The value-to-character table of the standard alphabet. */
  function Char(i: Sextet): (c: char)
    ensures c != '='
  {
    if i < 26 then ('A' as int + i) as char
    else if i < 52 then ('a' as int + i - 26) as char
    else if i < 62 then ('0' as int + i - 52) as char
    else if i == 62 then '+'
    else '/'
  }

  /** The inverse table: `None` for characters outside the alphabet (padding included). */
  function Index(c: char): (r: Option<Sextet>)
    ensures r.Some? ==> Char(r.value) == c
  {
    if 'A' <= c <= 'Z' then Some(c as int - 'A' as int)
    else if 'a' <= c <= 'z' then Some(c as int - 'a' as int + 26)
    else if '0' <= c <= '9' then Some(c as int - '0' as int + 52)
    else if c == '+' then Some(62)
    else if c == '/' then Some(63)
    else None
  }

  lemma IndexOfChar(i: Sextet)
    ensures Index(Char(i)) == Some(i)
  {
  }

  predicate IsAlphabetOrPad(c: char) {
    Index(c).Some? || c == '='
  }

  /** True when every character of `s` is in the alphabet or is the pad character. */
  predicate AllAlphabetOrPad(s: string) {
    forall i :: 0 <= i < |s| ==> IsAlphabetOrPad(s[i])
  }

  /** Three bytes, 24 bits, as four characters of six bits each. */
  function EncodeGroup(b0: byte, b1: byte, b2: byte): (s: string)
    ensures |s| == 4
  {
    [Char(b0 / 4), Char((b0 % 4) * 16 + b1 / 16), Char((b1 % 16) * 4 + b2 / 64), Char(b2 % 64)]
  }

  /** A final group of one byte: two characters and two pads. */
  function EncodeOne(b0: byte): (s: string)
    ensures |s| == 4
  {
    [Char(b0 / 4), Char((b0 % 4) * 16), '=', '=']
  }

  /** A final group of two bytes: three characters and one pad. */
  function EncodeTwo(b0: byte, b1: byte): (s: string)
    ensures |s| == 4
  {
    [Char(b0 / 4), Char((b0 % 4) * 16 + b1 / 16), Char((b1 % 16) * 4), '=']
  }

  /** `b64encode`: whole groups first, then one final quantum padded with '='. */
  function Encode(b: Bytes): (s: string)
    ensures |s| == 4 * ((|b| + 2) / 3)
    ensures |s| % 4 == 0 && (|b| > 0 ==> |s| >= 4)
    decreases |b|
  {
    if |b| == 0 then ""
    else if |b| == 1 then EncodeOne(b[0])
    else if |b| == 2 then EncodeTwo(b[0], b[1])
    else EncodeGroup(b[0], b[1], b[2]) + Encode(b[3..])
  }

  /** Every character of an encoding is in the alphabet or is padding. */
  /** The short test vectors of section 10 of RFC 4648, which fix the bit order and the padding. */
  lemma EncodeShortExamples()
    ensures Encode([]) == ""
    ensures Encode([102]) == "Zg=="
    ensures Encode([102, 111]) == "Zm8="
    ensures Encode([102, 111, 111]) == "Zm9v"
  {
  }

  /** The longer vectors of section 10 of RFC 4648: groups are emitted in order, the partial one last. */
  lemma EncodeLongExamples()
    ensures Encode([102, 111, 111, 98]) == "Zm9vYg=="
    ensures Encode([102, 111, 111, 98, 97]) == "Zm9vYmE="
    ensures Encode([102, 111, 111, 98, 97, 114]) == "Zm9vYmFy"
  {
    EncodeShortExamples();
    assert Encode([102, 111, 111, 98]) == "Zm9v" + Encode([98]) by {
      assert [102, 111, 111, 98][3..] == [98];
    }
    assert Encode([102, 111, 111, 98, 97]) == "Zm9v" + Encode([98, 97]) by {
      assert [102, 111, 111, 98, 97][3..] == [98, 97];
    }
    assert Encode([102, 111, 111, 98, 97, 114]) == "Zm9v" + Encode([98, 97, 114]) by {
      assert [102, 111, 111, 98, 97, 114][3..] == [98, 97, 114];
    }
  }

  lemma {:induction false} EncodeAlphabet(b: Bytes)
    ensures AllAlphabetOrPad(Encode(b))
    decreases |b|
  {
    if |b| == 1 {
      IndexOfChar(b[0] / 4);
      IndexOfChar((b[0] % 4) * 16);
    } else if |b| == 2 {
      IndexOfChar(b[0] / 4);
      IndexOfChar((b[0] % 4) * 16 + b[1] / 16);
      IndexOfChar((b[1] % 16) * 4);
    } else if |b| >= 3 {
      IndexOfChar(b[0] / 4);
      IndexOfChar((b[0] % 4) * 16 + b[1] / 16);
      IndexOfChar((b[1] % 16) * 4 + b[2] / 64);
      IndexOfChar(b[2] % 64);
      var g, rest := EncodeGroup(b[0], b[1], b[2]), Encode(b[3..]);
      EncodeAlphabet(b[3..]);
      assert Encode(b) == g + rest;
      assert forall i :: 4 <= i < |g + rest| ==> (g + rest)[i] == rest[i - 4];
    }
  }

  /** Four alphabet characters back into three bytes. */
  function DecodeGroup(a: Sextet, b: Sextet, c: Sextet, d: Sextet): Bytes
  {
    [a * 4 + b / 16, (b % 16) * 16 + c / 4, (c % 4) * 64 + d]
  }

  /** A quantum that is not the last one: four alphabet characters, no padding. */
  function DecodeFull(q: string): Option<Bytes>
    requires |q| == 4
  {
    var i0, i1, i2, i3 := Index(q[0]), Index(q[1]), Index(q[2]), Index(q[3]);
    if i0.None? || i1.None? || i2.None? || i3.None? then None
    else Some(DecodeGroup(i0.value, i1.value, i2.value, i3.value))
  }

  /**
   * The last quantum: "xx==" carries one byte, "xxx=" two, "xxxx" three. The
   * bits below the last full byte must be zero, as the encoder leaves them.
   */
  function DecodeFinal(q: string): Option<Bytes>
    requires |q| == 4
  {
    var i0, i1 := Index(q[0]), Index(q[1]);
    if i0.None? || i1.None? then None
    else if q[2] == '=' && q[3] == '=' then
      if i1.value % 16 != 0 then None
      else Some([i0.value * 4 + i1.value / 16])
    else if Index(q[2]).None? then None
    else if q[3] == '=' then
      var c := Index(q[2]).value;
      if c % 4 != 0 then None
      else Some([i0.value * 4 + i1.value / 16, (i1.value % 16) * 16 + c / 4])
    else DecodeFull(q)
  }

  /**
   * Strict decoding: a multiple of four characters, padding only in the last
   * quantum, and zero pad bits.
   */
  function Decode(s: string): Option<Bytes>
    decreases |s|
  {
    if |s| == 0 then Some([])
    else if |s| % 4 != 0 then None
    else if |s| == 4 then DecodeFinal(s)
    else
      match DecodeFull(s[..4])
      case None => None
      case Some(g) =>
        match Decode(s[4..])
        case None => None
        case Some(rest) => Some(g + rest)
  }

  lemma GroupRoundTrip(b0: byte, b1: byte, b2: byte)
    ensures DecodeGroup(b0 / 4, (b0 % 4) * 16 + b1 / 16, (b1 % 16) * 4 + b2 / 64, b2 % 64) == [b0, b1, b2]
  {
    var x := (b0 % 4) * 16 + b1 / 16;
    assert x / 16 == b0 % 4 && x % 16 == b1 / 16;
    var y := (b1 % 16) * 4 + b2 / 64;
    assert y / 4 == b1 % 16 && y % 4 == b2 / 64;
  }

  lemma EncodeGroupDecodes(b0: byte, b1: byte, b2: byte)
    ensures DecodeFull(EncodeGroup(b0, b1, b2)) == Some([b0, b1, b2])
    ensures DecodeFinal(EncodeGroup(b0, b1, b2)) == Some([b0, b1, b2])
  {
    var g := EncodeGroup(b0, b1, b2);
    IndexOfChar(b0 / 4);
    IndexOfChar((b0 % 4) * 16 + b1 / 16);
    IndexOfChar((b1 % 16) * 4 + b2 / 64);
    IndexOfChar(b2 % 64);
    GroupRoundTrip(b0, b1, b2);
  }

  lemma FinalOneDecodes(b0: byte)
    ensures Decode(Encode([b0])) == Some([b0])
  {
    IndexOfChar(b0 / 4);
    IndexOfChar((b0 % 4) * 16);
    assert (b0 / 4) * 4 + ((b0 % 4) * 16) / 16 == b0;
  }

  lemma FinalTwoDecodes(b0: byte, b1: byte)
    ensures Decode(Encode([b0, b1])) == Some([b0, b1])
  {
    IndexOfChar(b0 / 4);
    IndexOfChar((b0 % 4) * 16 + b1 / 16);
    IndexOfChar((b1 % 16) * 4);
    var x := (b0 % 4) * 16 + b1 / 16;
    assert x / 16 == b0 % 4 && x % 16 == b1 / 16;
    assert ((b1 % 16) * 4) / 4 == b1 % 16;
    assert (b0 / 4) * 4 + x / 16 == b0;
    assert (x % 16) * 16 + ((b1 % 16) * 4) / 4 == b1;
  }

  lemma GroupThenRest(b: Bytes)
    requires |b| >= 3
    ensures Encode(b) == EncodeGroup(b[0], b[1], b[2]) + Encode(b[3..])
    ensures Encode(b)[..4] == EncodeGroup(b[0], b[1], b[2])
    ensures Encode(b)[4..] == Encode(b[3..])
  {
  }

  lemma DecodeSplits(s: string)
    requires |s| > 4 && |s| % 4 == 0
    requires DecodeFull(s[..4]).Some? && Decode(s[4..]).Some?
    ensures Decode(s) == Some(DecodeFull(s[..4]).value + Decode(s[4..]).value)
  {
  }

  /** Decoding what was encoded gives the bytes back. */
  lemma {:induction false} DecodeEncode(b: Bytes)
    ensures Decode(Encode(b)) == Some(b)
    decreases |b|
  {
    if |b| > 3 {
      DecodeEncode(b[3..]);
      DecodeEncodeStep(b);
    } else {
      DecodeEncodeShort(b);
    }
  }

  /** The base cases of `DecodeEncode`: at most one final group. */
  lemma DecodeEncodeShort(b: Bytes)
    requires |b| <= 3
    ensures Decode(Encode(b)) == Some(b)
  {
    if |b| == 1 {
      assert b == [b[0]];
      FinalOneDecodes(b[0]);
    } else if |b| == 2 {
      assert b == [b[0], b[1]];
      FinalTwoDecodes(b[0], b[1]);
    } else if |b| == 3 {
      DecodeEncodeGroup(b);
    }
  }

  /** A single whole group is the final quantum of its encoding. */
  lemma DecodeEncodeGroup(b: Bytes)
    requires |b| == 3
    ensures Decode(Encode(b)) == Some(b)
  {
    var s := Encode(b);
    assert s == EncodeGroup(b[0], b[1], b[2]) by {
      assert Encode(b[3..]) == "";
    }
    EncodeGroupDecodes(b[0], b[1], b[2]);
    assert Decode(s) == DecodeFinal(s);
    assert b == [b[0], b[1], b[2]];
  }

  /** The inductive step of `DecodeEncode`: a whole group, then the rest. */
  lemma DecodeEncodeStep(b: Bytes)
    requires |b| > 3
    requires Decode(Encode(b[3..])) == Some(b[3..])
    ensures Decode(Encode(b)) == Some(b)
  {
    assert Decode(Encode(b)) == Some(b[..3] + b[3..]) by {
      EncodeStartsWithGroup(b);
      DecodeSplits(Encode(b));
    }
    TakeDrop(b, 3);
  }

  lemma TakeDrop<T>(xs: seq<T>, k: nat)
    requires k <= |xs|
    ensures xs[..k] + xs[k..] == xs
  {
  }

  /** The encoding of more than three bytes: the first group's quantum, then the encoding of the rest. */
  lemma EncodeStartsWithGroup(b: Bytes)
    requires |b| > 3
    ensures |Encode(b)| > 4
    ensures DecodeFull(Encode(b)[..4]) == Some(b[..3])
    ensures Encode(b)[4..] == Encode(b[3..])
  {
    GroupThenRest(b);
    EncodeGroupDecodes(b[0], b[1], b[2]);
    assert b[..3] == [b[0], b[1], b[2]];
  }

  /** Encoding is injective: different bytes never share an encoding. */
  lemma EncodeInjective(a: Bytes, b: Bytes)
    requires Encode(a) == Encode(b)
    ensures a == b
  {
    DecodeEncode(a);
    DecodeEncode(b);
  }

  /** Every encoding is ASCII text, so `.decode()` and `.encode()` on it are byte-for-character. */
  lemma EncodeIsAscii(b: Bytes)
    ensures IsAscii(Encode(b))
  {
    var s := Encode(b);
    EncodeAlphabet(b);
    forall i | 0 <= i < |s|
      ensures s[i] as int < 128
    {
      assert IsAlphabetOrPad(s[i]);
    }
  }

  /** Encoding the bytes of four sextets gives those four characters back. */
  lemma DecodeGroupEncodes(a: Sextet, b: Sextet, c: Sextet, d: Sextet)
    ensures var g := DecodeGroup(a, b, c, d);
      EncodeGroup(g[0], g[1], g[2]) == [Char(a), Char(b), Char(c), Char(d)]
  {
    var g := DecodeGroup(a, b, c, d);
    assert g[0] / 4 == a && g[0] % 4 == b / 16;
    assert g[1] / 16 == b % 16 && g[1] % 16 == c / 4;
    assert g[2] / 64 == c % 4 && g[2] % 64 == d;
    assert (b / 16) * 16 + b % 16 == b;
    assert (c / 4) * 4 + c % 4 == c;
  }

  lemma DecodeFullEncodes(q: string)
    requires |q| == 4 && DecodeFull(q).Some?
    ensures |DecodeFull(q).value| == 3
    ensures EncodeGroup(DecodeFull(q).value[0], DecodeFull(q).value[1], DecodeFull(q).value[2]) == q
  {
    var i0, i1, i2, i3 := Index(q[0]).value, Index(q[1]).value, Index(q[2]).value, Index(q[3]).value;
    DecodeGroupEncodes(i0, i1, i2, i3);
    assert q == [q[0], q[1], q[2], q[3]];
  }

  /** "xx==" with zero pad bits is the encoding of the one byte it decodes to. */
  lemma OnePadEncodes(i0: Sextet, i1: Sextet)
    requires i1 % 16 == 0
    ensures EncodeOne(i0 * 4 + i1 / 16) == [Char(i0), Char(i1), '=', '=']
  {
    var b0: int := i0 * 4 + i1 / 16;
    assert b0 / 4 == i0 && (b0 % 4) * 16 == i1;
  }

  /** "xxx=" with zero pad bits is the encoding of the two bytes it decodes to. */
  lemma TwoPadEncodes(i0: Sextet, i1: Sextet, c: Sextet)
    requires c % 4 == 0
    ensures EncodeTwo(i0 * 4 + i1 / 16, (i1 % 16) * 16 + c / 4) == [Char(i0), Char(i1), Char(c), '=']
  {
    TwoPadArithmetic(i0, i1, c);
  }

  /** The bit arithmetic behind `TwoPadEncodes`, on plain integers. */
  lemma TwoPadArithmetic(i0: int, i1: int, c: int)
    requires 0 <= i0 < 64 && 0 <= i1 < 64 && 0 <= c < 64 && c % 4 == 0
    ensures (i0 * 4 + i1 / 16) / 4 == i0
    ensures ((i0 * 4 + i1 / 16) % 4) * 16 + ((i1 % 16) * 16 + c / 4) / 16 == i1
    ensures (((i1 % 16) * 16 + c / 4) % 16) * 4 == c
  {
    var b0, b1 := i0 * 4 + i1 / 16, (i1 % 16) * 16 + c / 4;
    assert b0 % 4 == i1 / 16;
    assert b1 / 16 == i1 % 16 && b1 % 16 == c / 4;
  }

  lemma DecodeFinalEncodes(q: string)
    requires |q| == 4 && DecodeFinal(q).Some?
    ensures Encode(DecodeFinal(q).value) == q
  {
    var i0, i1 := Index(q[0]).value, Index(q[1]).value;
    assert q == [q[0], q[1], q[2], q[3]];
    if q[2] == '=' && q[3] == '=' {
      OnePadEncodes(i0, i1);
    } else if q[3] == '=' {
      TwoPadEncodes(i0, i1, Index(q[2]).value);
    } else {
      DecodeFullEncodes(q);
      var g := DecodeFull(q).value;
      assert g == [g[0], g[1], g[2]];
      assert Encode(g) == EncodeGroup(g[0], g[1], g[2]) + Encode(g[3..]);
      assert Encode(g[3..]) == "";
    }
  }

  /** Every string the decoder accepts is exactly the encoding of what it decodes to. */
  lemma {:induction false} EncodeDecode(s: string)
    requires Decode(s).Some?
    ensures Encode(Decode(s).value) == s
    decreases |s|
  {
    if |s| > 4 {
      DecodeParts(s);
      EncodeDecode(s[4..]);
      EncodeDecodeStep(s);
    } else {
      EncodeDecodeShort(s);
    }
  }

  /** The base cases of `EncodeDecode`: the empty string and a single final quantum. */
  lemma EncodeDecodeShort(s: string)
    requires Decode(s).Some? && |s| <= 4
    ensures Encode(Decode(s).value) == s
  {
    DecodeShort(s);
    if |s| == 4 {
      DecodeFinalEncodes(s);
    }
  }

  /** Strings of at most one quantum: only the empty string and a final quantum are accepted. */
  lemma DecodeShort(s: string)
    requires |s| <= 4
    ensures |s| == 0 ==> Decode(s) == Some([])
    ensures |s| == 4 ==> Decode(s) == DecodeFinal(s)
    ensures 0 < |s| < 4 ==> Decode(s) == None
  {
  }

  /** The inductive step of `EncodeDecode`: a leading full quantum re-encodes to itself. */
  lemma EncodeDecodeStep(s: string)
    requires Decode(s).Some? && |s| > 4
    requires Encode(Decode(s[4..]).value) == s[4..]
    ensures Encode(Decode(s).value) == s
  {
    DecodeParts(s);
    var g, rest := DecodeFull(s[..4]).value, Decode(s[4..]).value;
    DecodeFullEncodes(s[..4]);
    EncodeAfterGroup(g, rest);
    assert s == s[..4] + s[4..];
  }

  /** Encoding a whole group followed by more bytes encodes the group first. */
  lemma EncodeAfterGroup(g: Bytes, rest: Bytes)
    requires |g| == 3
    ensures Encode(g + rest) == EncodeGroup(g[0], g[1], g[2]) + Encode(rest)
  {
    var b := g + rest;
    assert b[0] == g[0] && b[1] == g[1] && b[2] == g[2];
    assert b[3..] == rest;
    GroupThenRest(b);
  }

  /** An accepted string longer than one quantum decodes its first quantum and then the rest. */
  lemma DecodeParts(s: string)
    requires Decode(s).Some? && |s| > 4
    ensures DecodeFull(s[..4]).Some? && Decode(s[4..]).Some?
    ensures Decode(s).value == DecodeFull(s[..4]).value + Decode(s[4..]).value
  {
  }

  /** Each byte string has exactly one accepted encoding. */
  lemma DecodeInjective(s: string, t: string)
    requires Decode(s).Some? && Decode(s) == Decode(t)
    ensures s == t
  {
    EncodeDecode(s);
    EncodeDecode(t);
  }
}
