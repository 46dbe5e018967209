/** Octets, as Go's `[]byte` holds them. */
module Bytes {
  type Byte = b: int | 0 <= b < 256
}

/** UTF-8 (RFC 3629): the bytes Go's `[]byte(s)` conversion yields for a
    string whose characters are Unicode scalar values, together with the
    decoder that undoes it. */
module Utf8 {
  import opened Wrappers
  import opened Bytes

  /** Number of bytes a sequence starting with lead byte `b` occupies. */
  function LeadLength(b: Byte): nat
  {
    if b < 0x80 then 1 else if b < 0xE0 then 2 else if b < 0xF0 then 3 else 4
  }

  predicate IsContinuation(b: Byte)
  {
    0x80 <= b < 0xC0
  }

  predicate IsScalarValue(v: int)
  {
    (0 <= v < 0xD800) || (0xE000 <= v < 0x11_0000)
  }

  /** The UTF-8 encoding of one character: one to four bytes, the lead byte
      announcing the length and every further byte a continuation byte. */
  function EncodeChar(c: char): (bs: seq<Byte>)
    ensures 1 <= |bs| <= 4
    ensures LeadLength(bs[0]) == |bs|
    ensures forall i | 1 <= i < |bs| :: IsContinuation(bs[i])
  {
    var n := c as int;
    if n < 0x80 then [n]
    else if n < 0x800 then [0xC0 + n / 0x40, 0x80 + n % 0x40]
    else if n < 0x1_0000 then [0xE0 + n / 0x1000, 0x80 + (n / 0x40) % 0x40, 0x80 + n % 0x40]
    else [0xF0 + n / 0x4_0000, 0x80 + (n / 0x1000) % 0x40, 0x80 + (n / 0x40) % 0x40, 0x80 + n % 0x40]
  }

  /** The code point spelled by one to four bytes, read as UTF-8. */
  function DecodeValue(bs: seq<Byte>): int
    requires 1 <= |bs| <= 4
  {
    if |bs| == 1 then bs[0]
    else if |bs| == 2 then (bs[0] as int - 0xC0) * 0x40 + (bs[1] as int - 0x80)
    else if |bs| == 3 then (bs[0] as int - 0xE0) * 0x1000 + (bs[1] as int - 0x80) * 0x40 + (bs[2] as int - 0x80)
    else (bs[0] as int - 0xF0) * 0x4_0000 + (bs[1] as int - 0x80) * 0x1000 + (bs[2] as int - 0x80) * 0x40 + (bs[3] as int - 0x80)
  }

  lemma DecodeEncodeChar(c: char)
    ensures DecodeValue(EncodeChar(c)) == c as int
  {
    var n := c as int;
    if 0x800 <= n < 0x1_0000 {
      assert n == (n / 0x1000) * 0x1000 + ((n / 0x40) % 0x40) * 0x40 + n % 0x40;
    } else if 0x1_0000 <= n {
      assert n / 0x40 == (n / 0x1000) * 0x40 + (n / 0x40) % 0x40;
      assert n / 0x1000 == (n / 0x4_0000) * 0x40 + (n / 0x1000) % 0x40;
    }
  }

  /** `[]byte(s)`: the characters' encodings, in order. */
  function Encode(s: string): seq<Byte>
  {
    if |s| == 0 then [] else EncodeChar(s[0]) + Encode(s[1..])
  }

  lemma {:induction false} EncodeAppend(s: string, t: string)
    ensures Encode(s + t) == Encode(s) + Encode(t)
  {
    if |s| == 0 {
      assert s + t == t;
    } else {
      assert (s + t)[1..] == s[1..] + t;
      EncodeAppend(s[1..], t);
    }
  }

  /** Reads UTF-8 back into characters, refusing truncated sequences,
      surrogates, values beyond U+10FFFF and every non-shortest form. */
  function Decode(bs: seq<Byte>): Option<string>
    decreases |bs|
  {
    if |bs| == 0 then Some("")
    else
      var k := LeadLength(bs[0]);
      if k > |bs| then None
      else
        var v := DecodeValue(bs[..k]);
        if !IsScalarValue(v) || EncodeChar(v as char) != bs[..k] then None
        else
          match Decode(bs[k..])
          case None => None
          case Some(rest) => Some([v as char] + rest)
  }

  /** Decoding undoes encoding. */
  lemma {:induction false} DecodeEncode(s: string)
    ensures Decode(Encode(s)) == Some(s)
  {
    if |s| > 0 {
      var e := EncodeChar(s[0]);
      var bs := Encode(s);
      assert bs == e + Encode(s[1..]);
      assert bs[..|e|] == e;
      assert bs[|e|..] == Encode(s[1..]);
      DecodeEncodeChar(s[0]);
      assert (s[0] as int) as char == s[0];
      DecodeEncode(s[1..]);
      assert [s[0]] + s[1..] == s;
    }
  }

  /** Encoding undoes decoding: every byte string the decoder accepts is the
      encoding of what it returns. */
  lemma {:induction false} EncodeDecode(bs: seq<Byte>, s: string)
    requires Decode(bs) == Some(s)
    ensures Encode(s) == bs
    decreases |bs|
  {
    if |bs| > 0 {
      var k := LeadLength(bs[0]);
      var v := DecodeValue(bs[..k]);
      var rest :| Decode(bs[k..]) == Some(rest) && s == [v as char] + rest;
      EncodeDecode(bs[k..], rest);
      assert s[0] == v as char && s[1..] == rest;
      assert bs == bs[..k] + bs[k..];
    }
  }

  /** Distinct strings have distinct encodings. */
  lemma EncodeInjective(s: string, t: string)
    requires Encode(s) == Encode(t)
    ensures s == t
  {
    DecodeEncode(s);
    DecodeEncode(t);
  }
}
