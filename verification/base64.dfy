/** Base64 with the standard alphabet and '=' padding, as section 4 of
    RFC 4648 defines it and Go's `base64.StdEncoding.EncodeToString`
    produces it, with the decoder that inverts it. */
module Base64 {
  import opened Wrappers
  import opened Bytes

  /** Table 1 of section 4 of RFC 4648, value 0 first, eight values per piece. */
  const Alphabet: string :=
    "ABCDEFGH" + "IJKLMNOP" + "QRSTUVWX" + "YZabcdef" + "ghijklmn" + "opqrstuv" + "wxyz0123" + "456789+/"

  const Pad: char := '='

  /** The character that encodes the 6-bit value `v`. */
  function CharOf(v: nat): (c: char)
    requires v < 64
    ensures c != Pad
  {
    if v < 26 then ('A' as int + v) as char
    else if v < 52 then ('a' as int + (v - 26)) as char
    else if v < 62 then ('0' as int + (v - 52)) as char
    else if v == 62 then '+'
    else '/'
  }

  /** The 6-bit value a character encodes, if it belongs to the alphabet. */
  function ValueOf(c: char): Option<nat>
  {
    if 'A' <= c <= 'Z' then Some(c as int - 'A' as int)
    else if 'a' <= c <= 'z' then Some(c as int - 'a' as int + 26)
    else if '0' <= c <= '9' then Some(c as int - '0' as int + 52)
    else if c == '+' then Some(62)
    else if c == '/' then Some(63)
    else None
  }

  /** `CharOf` is the RFC's table. */
  lemma CharOfIsAlphabet(v: nat)
    requires v < 64
    ensures CharOf(v) == Alphabet[v]
  {
  }

  lemma ValueOfCharOf(v: nat)
    requires v < 64
    ensures ValueOf(CharOf(v)) == Some(v)
  {
  }

  /** The four characters of one complete 24-bit group. */
  function EncodeTriple(b0: Byte, b1: Byte, b2: Byte): string
  {
    [CharOf(b0 / 4), CharOf(b0 % 4 * 16 + b1 / 16), CharOf(b1 % 16 * 4 + b2 / 64), CharOf(b2 % 64)]
  }

  /** Base64 text of a byte string: four characters per started group of
      three bytes, a final group of one or two bytes padded with "==" or "=". */
  function Encode(bs: seq<Byte>): (s: string)
    ensures |s| == (|bs| + 2) / 3 * 4
    decreases |bs|
  {
    if |bs| == 0 then ""
    else if |bs| == 1 then [CharOf(bs[0] / 4), CharOf(bs[0] % 4 * 16), Pad, Pad]
    else if |bs| == 2 then [CharOf(bs[0] / 4), CharOf(bs[0] % 4 * 16 + bs[1] / 16), CharOf(bs[1] % 16 * 4), Pad]
    else EncodeTriple(bs[0], bs[1], bs[2]) + Encode(bs[3..])
  }

  // Reassembling bytes from the 6-bit values v0 v1 v2 v3 of a group.
  function High(v0: nat, v1: nat): nat { v0 * 4 + v1 / 16 }
  function Middle(v1: nat, v2: nat): nat { v1 % 16 * 16 + v2 / 4 }
  function Low(v2: nat, v3: nat): nat { v2 % 4 * 64 + v3 }

  /** The bytes of one four-character group, or None if it is malformed.
      Padding is accepted only in the final group. */
  function DecodeGroup(q: string, last: bool): Option<seq<Byte>>
    requires |q| == 4
  {
    var o0, o1, o2, o3 := ValueOf(q[0]), ValueOf(q[1]), ValueOf(q[2]), ValueOf(q[3]);
    if o0.None? || o1.None? || o0.value >= 64 || o1.value >= 64 then None
    else if last && q[2] == Pad && q[3] == Pad then
      if o1.value % 16 == 0 then Some([High(o0.value, o1.value)]) else None
    else if o2.None? || o2.value >= 64 then None
    else if last && q[3] == Pad then
      if o2.value % 4 == 0 then Some([High(o0.value, o1.value), Middle(o1.value, o2.value)]) else None
    else if o3.None? || o3.value >= 64 then None
    else Some([High(o0.value, o1.value), Middle(o1.value, o2.value), Low(o2.value, o3.value)])
  }

  /** Decodes padded Base64 text; None for a length that is not a multiple
      of four, a character outside the alphabet, misplaced padding or
      non-zero bits after the last encoded byte. */
  function Decode(s: string): Option<seq<Byte>>
    decreases |s|
  {
    if |s| == 0 then Some([])
    else if |s| < 4 then None
    else
      match DecodeGroup(s[..4], |s| == 4)
      case None => None
      case Some(group) =>
        match Decode(s[4..])
        case None => None
        case Some(rest) => Some(group + rest)
  }

  lemma HighOfSplit(b0: Byte, b1: Byte)
    ensures High(b0 / 4, b0 % 4 * 16 + b1 / 16) == b0
  {
  }

  lemma MiddleOfSplit(b0: Byte, b1: Byte, b2: Byte)
    ensures Middle(b0 % 4 * 16 + b1 / 16, b1 % 16 * 4 + b2 / 64) == b1
  {
  }

  lemma LowOfSplit(b1: Byte, b2: Byte)
    ensures Low(b1 % 16 * 4 + b2 / 64, b2 % 64) == b2
  {
  }

  lemma DecodeEncodeTriple(b0: Byte, b1: Byte, b2: Byte, last: bool)
    ensures DecodeGroup(EncodeTriple(b0, b1, b2), last) == Some([b0, b1, b2])
  {
    ValueOfCharOf(b0 / 4);
    ValueOfCharOf(b0 % 4 * 16 + b1 / 16);
    ValueOfCharOf(b1 % 16 * 4 + b2 / 64);
    ValueOfCharOf(b2 % 64);
    HighOfSplit(b0, b1);
    MiddleOfSplit(b0, b1, b2);
    LowOfSplit(b1, b2);
  }

  lemma DecodeEncodeSingle(b0: Byte)
    ensures DecodeGroup([CharOf(b0 / 4), CharOf(b0 % 4 * 16), Pad, Pad], true) == Some([b0])
  {
    ValueOfCharOf(b0 / 4);
    ValueOfCharOf(b0 % 4 * 16);
    HighOfSplit(b0, 0);
  }

  lemma DecodeEncodePair(b0: Byte, b1: Byte)
    ensures DecodeGroup([CharOf(b0 / 4), CharOf(b0 % 4 * 16 + b1 / 16), CharOf(b1 % 16 * 4), Pad], true)
         == Some([b0, b1])
  {
    ValueOfCharOf(b0 / 4);
    ValueOfCharOf(b0 % 4 * 16 + b1 / 16);
    ValueOfCharOf(b1 % 16 * 4);
    HighOfSplit(b0, b1);
    MiddleOfSplit(b0, b1, 0);
  }

  /** A decoded final group is all that a four-character text holds. */
  lemma DecodeLastGroup(s: string, group: seq<Byte>)
    requires |s| == 4 && DecodeGroup(s, true) == Some(group)
    ensures Decode(s) == Some(group)
  {
    assert s[..4] == s;
    assert Decode(s[4..]) == Some([]);
    assert group + [] == group;
  }

  lemma DecodeEncodeOne(bs: seq<Byte>)
    requires |bs| == 1
    ensures Decode(Encode(bs)) == Some(bs)
  {
    var t := [CharOf(bs[0] / 4), CharOf(bs[0] % 4 * 16), Pad, Pad];
    assert Encode(bs) == t;
    DecodeEncodeSingle(bs[0]);
    assert [bs[0]] == bs;
    DecodeLastGroup(t, bs);
  }

  lemma DecodeEncodeTwo(bs: seq<Byte>)
    requires |bs| == 2
    ensures Decode(Encode(bs)) == Some(bs)
  {
    var t := [CharOf(bs[0] / 4), CharOf(bs[0] % 4 * 16 + bs[1] / 16), CharOf(bs[1] % 16 * 4), Pad];
    EncodeTwoText(bs);
    DecodeEncodePair(bs[0], bs[1]);
    PairOf(bs);
    DecodeLastGroup(t, bs);
  }

  lemma PairOf(bs: seq<Byte>)
    requires |bs| == 2
    ensures [bs[0], bs[1]] == bs
  {
  }

  lemma EncodeTwoText(bs: seq<Byte>)
    requires |bs| == 2
    ensures Encode(bs) == [CharOf(bs[0] / 4), CharOf(bs[0] % 4 * 16 + bs[1] / 16), CharOf(bs[1] % 16 * 4), Pad]
  {
  }

  /** A complete group followed by more text decodes group by group. */
  lemma DecodeCons(t: string, rest: string, group: seq<Byte>, more: seq<Byte>)
    requires |t| == 4
    requires DecodeGroup(t, |rest| == 0) == Some(group) && Decode(rest) == Some(more)
    ensures Decode(t + rest) == Some(group + more)
  {
    var s := t + rest;
    assert s[..4] == t;
    assert s[4..] == rest;
  }

  lemma EncodeCons(bs: seq<Byte>)
    requires |bs| >= 3
    ensures Encode(bs) == EncodeTriple(bs[0], bs[1], bs[2]) + Encode(bs[3..])
  {
  }

  /** One complete group in front of a text that decodes. */
  lemma DecodeEncodeStep(bs: seq<Byte>)
    requires |bs| >= 3 && Decode(Encode(bs[3..])) == Some(bs[3..])
    ensures Decode(Encode(bs)) == Some(bs)
  {
    var head := [bs[0], bs[1], bs[2]];
    var rest := Encode(bs[3..]);
    EncodeCons(bs);
    DecodeEncodeTriple(bs[0], bs[1], bs[2], |rest| == 0);
    DecodeCons(EncodeTriple(bs[0], bs[1], bs[2]), rest, head, bs[3..]);
    SplitHead(bs);
  }

  lemma SplitHead(bs: seq<Byte>)
    requires |bs| >= 3
    ensures [bs[0], bs[1], bs[2]] + bs[3..] == bs
  {
  }

  /** Decoding undoes encoding, for every byte string. */
  lemma {:induction false} DecodeEncode(bs: seq<Byte>)
    ensures Decode(Encode(bs)) == Some(bs)
    decreases |bs|
  {
    if |bs| == 1 {
      DecodeEncodeOne(bs);
    } else if |bs| == 2 {
      DecodeEncodeTwo(bs);
    } else if |bs| >= 3 {
      DecodeEncode(bs[3..]);
      DecodeEncodeStep(bs);
    }
  }

  // ---------------------------------------------------------------------------
  // Canonical texts: whatever decodes is the encoding of what it decodes to
  // ---------------------------------------------------------------------------

  lemma CharOfValueOf(c: char)
    requires ValueOf(c).Some?
    ensures ValueOf(c).value < 64 && CharOf(ValueOf(c).value) == c
  {
  }

  lemma SplitOfHigh(v0: nat, v1: nat)
    requires v0 < 64 && v1 < 64
    ensures High(v0, v1) / 4 == v0
    ensures High(v0, v1) % 4 * 16 == v1 / 16 * 16
  {
  }

  lemma SplitOfMiddle(v1: nat, v2: nat)
    requires v1 < 64 && v2 < 64
    ensures Middle(v1, v2) / 16 + v1 / 16 * 16 == v1
    ensures Middle(v1, v2) % 16 * 4 == v2 / 4 * 4
  {
  }

  lemma SplitOfLow(v2: nat, v3: nat)
    requires v2 < 64 && v3 < 64
    ensures Low(v2, v3) / 64 + v2 / 4 * 4 == v2
    ensures Low(v2, v3) % 64 == v3
  {
  }

  /** A group that decodes is the encoding of its bytes: three bytes from a
      full group, or one or two from a padded final group. */
  /** A final group with two padding characters is the encoding of its one byte. */
  lemma EncodeSingleGroup(v0: nat, v1: nat)
    requires v0 < 64 && v1 < 64 && v1 % 16 == 0
    ensures High(v0, v1) < 256
    ensures Encode([High(v0, v1) as Byte]) == [CharOf(v0), CharOf(v1), Pad, Pad]
  {
    SplitOfHigh(v0, v1);
  }

  /** A final group with one padding character is the encoding of its two bytes. */
  lemma EncodePairGroup(v0: nat, v1: nat, v2: nat)
    requires v0 < 64 && v1 < 64 && v2 < 64 && v2 % 4 == 0
    ensures High(v0, v1) < 256 && Middle(v1, v2) < 256
    ensures Encode([High(v0, v1) as Byte, Middle(v1, v2) as Byte]) == [CharOf(v0), CharOf(v1), CharOf(v2), Pad]
  {
    SplitOfHigh(v0, v1);
    SplitOfMiddle(v1, v2);
    var b0, b1 := High(v0, v1) as Byte, Middle(v1, v2) as Byte;
    assert b0 % 4 * 16 + b1 / 16 == v1;
    assert b1 % 16 * 4 == v2 by {
      assert v2 == v2 / 4 * 4 + v2 % 4;
    }
    assert Encode([b0, b1]) == [CharOf(b0 / 4), CharOf(b0 % 4 * 16 + b1 / 16), CharOf(b1 % 16 * 4), Pad];
  }

  /** A full group is the encoding of its three bytes. */
  lemma EncodeFullGroup(v0: nat, v1: nat, v2: nat, v3: nat)
    requires v0 < 64 && v1 < 64 && v2 < 64 && v3 < 64
    ensures High(v0, v1) < 256 && Middle(v1, v2) < 256 && Low(v2, v3) < 256
    ensures EncodeTriple(High(v0, v1) as Byte, Middle(v1, v2) as Byte, Low(v2, v3) as Byte)
         == [CharOf(v0), CharOf(v1), CharOf(v2), CharOf(v3)]
  {
    SplitOfHigh(v0, v1);
    SplitOfMiddle(v1, v2);
    SplitOfLow(v2, v3);
  }

  lemma EncodeDecodeGroup(q: string, last: bool)
    requires |q| == 4 && DecodeGroup(q, last).Some?
    ensures var g := DecodeGroup(q, last).value;
      (|g| == 3 && EncodeTriple(g[0], g[1], g[2]) == q) || (last && 1 <= |g| < 3 && Encode(g) == q)
  {
    var g := DecodeGroup(q, last).value;
    CharOfValueOf(q[0]);
    CharOfValueOf(q[1]);
    var v0, v1 := ValueOf(q[0]).value, ValueOf(q[1]).value;
    if last && q[2] == Pad && q[3] == Pad {
      EncodeSingleGroup(v0, v1);
      assert q == [CharOf(v0), CharOf(v1), Pad, Pad];
    } else {
      CharOfValueOf(q[2]);
      var v2 := ValueOf(q[2]).value;
      if last && q[3] == Pad {
        EncodePairGroup(v0, v1, v2);
        assert q == [CharOf(v0), CharOf(v1), CharOf(v2), Pad];
      } else {
        CharOfValueOf(q[3]);
        var v3 := ValueOf(q[3]).value;
        EncodeFullGroup(v0, v1, v2, v3);
        assert q == [CharOf(v0), CharOf(v1), CharOf(v2), CharOf(v3)];
      }
    }
  }


  /** Encoding undoes decoding: the decoder accepts only canonical texts, so
      one byte string has exactly one Base64 text. */
  lemma {:induction false} EncodeDecode(s: string, bs: seq<Byte>)
    requires Decode(s) == Some(bs)
    ensures Encode(bs) == s
    decreases |s|
  {
    if |s| > 0 {
      var g := DecodeGroup(s[..4], |s| == 4).value;
      var rest := Decode(s[4..]).value;
      assert bs == g + rest;
      EncodeDecodeGroup(s[..4], |s| == 4);
      if |g| == 3 {
        EncodeDecode(s[4..], rest);
        EncodeCons(g + rest);
        assert (g + rest)[3..] == rest;
        assert s == s[..4] + s[4..];
      } else {
        assert s[4..] == [] && rest == [];
        assert bs == g && s == s[..4];
      }
    }
  }

  /** Distinct byte strings have distinct Base64 texts. */
  lemma EncodeInjective(xs: seq<Byte>, ys: seq<Byte>)
    requires Encode(xs) == Encode(ys)
    ensures xs == ys
  {
    DecodeEncode(xs);
    DecodeEncode(ys);
  }
}
