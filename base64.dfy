/**
 * The transport encoding of a reply (index.js:105): standard base64 of the
 * message bytes, then `+` -> `-`, `/` -> `_`, then the trailing `=` run
 * dropped.  That is the base64url encoding without padding (sections 3.2, 4
 * and 5 of RFC 4648), which `EncodeUrl` defines directly.
 */
module Base64 {
  import opened Wrappers
  import opened Text
  import opened Bytes

  /** The 62 letters and digits shared by both alphabets (RFC 4648, Tables 1 and 2). */
  function AlnumChar(i: int): (c: char)
    requires 0 <= i < 62
    ensures IsAlnum(c)
  {
    if i < 26 then ('A' as int + i) as char
    else if i < 52 then ('a' as int + i - 26) as char
    else ('0' as int + i - 52) as char
  }

  predicate IsAlnum(c: char) {
    ('A' <= c <= 'Z') || ('a' <= c <= 'z') || ('0' <= c <= '9')
  }

  /** Table 1 of RFC 4648: the standard alphabet. */
  function StdChar(i: int): char
    requires 0 <= i < 64
  {
    if i < 62 then AlnumChar(i) else if i == 62 then '+' else '/'
  }

  /** Table 2 of RFC 4648: the URL- and filename-safe alphabet. */
  function UrlChar(i: int): (c: char)
    requires 0 <= i < 64
    ensures IsUrlChar(c)
  {
    if i < 62 then AlnumChar(i) else if i == 62 then '-' else '_'
  }

  /** `[A-Za-z0-9_-]`. */
  predicate IsUrlChar(c: char) {
    IsAlnum(c) || c == '-' || c == '_'
  }

  // The four 6-bit groups of a 24-bit group b0 b1 b2 (section 4 of RFC 4648).
  function Sextet0(b0: Byte): int { b0 / 4 }
  function Sextet1(b0: Byte, b1: Byte): int { (b0 % 4) * 16 + b1 / 16 }
  function Sextet2(b1: Byte, b2: Byte): int { (b1 % 16) * 4 + b2 / 64 }
  function Sextet3(b2: Byte): int { b2 % 64 }

  /** Standard base64 with `=` padding, as `Buffer.prototype.toString('base64')` produces. */
  function EncodeStd(bs: seq<Byte>): string
  {
    if |bs| == 0 then ""
    else if |bs| == 1 then
      [StdChar(Sextet0(bs[0])), StdChar(Sextet1(bs[0], 0)), '=', '=']
    else if |bs| == 2 then
      [StdChar(Sextet0(bs[0])), StdChar(Sextet1(bs[0], bs[1])), StdChar(Sextet2(bs[1], 0)), '=']
    else
      [StdChar(Sextet0(bs[0])), StdChar(Sextet1(bs[0], bs[1])),
       StdChar(Sextet2(bs[1], bs[2])), StdChar(Sextet3(bs[2]))] + EncodeStd(bs[3..])
  }

  /** Base64url without padding, defined directly over the URL-safe alphabet. */
  function EncodeUrl(bs: seq<Byte>): string
  {
    if |bs| == 0 then ""
    else if |bs| == 1 then
      [UrlChar(Sextet0(bs[0])), UrlChar(Sextet1(bs[0], 0))]
    else if |bs| == 2 then
      [UrlChar(Sextet0(bs[0])), UrlChar(Sextet1(bs[0], bs[1])), UrlChar(Sextet2(bs[1], 0))]
    else
      [UrlChar(Sextet0(bs[0])), UrlChar(Sextet1(bs[0], bs[1])),
       UrlChar(Sextet2(bs[1], bs[2])), UrlChar(Sextet3(bs[2]))] + EncodeUrl(bs[3..])
  }

  /** The character the two `replace` calls of index.js:105 leave in place of `c`. */
  function SafeChar(c: char): char
  {
    if c == '+' then '-' else if c == '/' then '_' else c
  }

  /** The two `replace` calls of index.js:105 that swap in the URL-safe characters. */
  function UrlSafe(s: string): (r: string)
    ensures |r| == |s|
    ensures forall k :: 0 <= k < |s| ==> r[k] == SafeChar(s[k])
  {
    ReplaceAll(ReplaceAll(s, '+', '-'), '/', '_')
  }

  /** The whole chain of index.js:105, applied to the message bytes. */
  function TransportEncode(bs: seq<Byte>): string
  {
    StripTrailing(UrlSafe(EncodeStd(bs)), '=')
  }

  /** The padding standard base64 appends to a final group of `n % 3` bytes. */
  function Padding(n: nat): string
  {
    if n % 3 == 1 then "==" else if n % 3 == 2 then "=" else ""
  }

  /** The characters `EncodeUrl` adds for a final group of `n % 3` bytes. */
  function TailLength(n: nat): nat
  {
    if n % 3 == 1 then 2 else if n % 3 == 2 then 3 else 0
  }

  lemma UrlSafeChar(i: int)
    requires 0 <= i < 64
    ensures SafeChar(StdChar(i)) == UrlChar(i)
  {
  }

  lemma UrlSafeAppend(a: string, b: string)
    ensures UrlSafe(a + b) == UrlSafe(a) + UrlSafe(b)
  {
    assert forall k :: 0 <= k < |a + b| ==> UrlSafe(a + b)[k] == (UrlSafe(a) + UrlSafe(b))[k];
  }

  lemma UrlSafeOneByte(b0: Byte)
    ensures UrlSafe(EncodeStd([b0])) == EncodeUrl([b0]) + "=="
  {
    var s := EncodeStd([b0]);
    UrlSafeChar(Sextet0(b0));
    UrlSafeChar(Sextet1(b0, 0));
    assert forall k :: 0 <= k < 4 ==> UrlSafe(s)[k] == (EncodeUrl([b0]) + "==")[k];
  }

  lemma UrlSafeTwoBytes(b0: Byte, b1: Byte)
    ensures UrlSafe(EncodeStd([b0, b1])) == EncodeUrl([b0, b1]) + "="
  {
    var s := EncodeStd([b0, b1]);
    UrlSafeChar(Sextet0(b0));
    UrlSafeChar(Sextet1(b0, b1));
    UrlSafeChar(Sextet2(b1, 0));
    assert forall k :: 0 <= k < 4 ==> UrlSafe(s)[k] == (EncodeUrl([b0, b1]) + "=")[k];
  }

  lemma UrlSafeGroup(b0: Byte, b1: Byte, b2: Byte)
    ensures UrlSafe([StdChar(Sextet0(b0)), StdChar(Sextet1(b0, b1)), StdChar(Sextet2(b1, b2)), StdChar(Sextet3(b2))])
         == [UrlChar(Sextet0(b0)), UrlChar(Sextet1(b0, b1)), UrlChar(Sextet2(b1, b2)), UrlChar(Sextet3(b2))]
  {
    UrlSafeChar(Sextet0(b0));
    UrlSafeChar(Sextet1(b0, b1));
    UrlSafeChar(Sextet2(b1, b2));
    UrlSafeChar(Sextet3(b2));
  }

  /** Replacing `+` and `/` in standard base64 gives base64url followed by the padding. */
  lemma {:induction false} UrlSafeEncodeStd(bs: seq<Byte>)
    ensures UrlSafe(EncodeStd(bs)) == EncodeUrl(bs) + Padding(|bs|)
  {
    if |bs| == 1 {
      assert bs == [bs[0]];
      UrlSafeOneByte(bs[0]);
    } else if |bs| == 2 {
      assert bs == [bs[0], bs[1]];
      UrlSafeTwoBytes(bs[0], bs[1]);
    } else if |bs| >= 3 {
      var rest := bs[3..];
      var head := [StdChar(Sextet0(bs[0])), StdChar(Sextet1(bs[0], bs[1])),
                   StdChar(Sextet2(bs[1], bs[2])), StdChar(Sextet3(bs[2]))];
      var urlHead := [UrlChar(Sextet0(bs[0])), UrlChar(Sextet1(bs[0], bs[1])),
                      UrlChar(Sextet2(bs[1], bs[2])), UrlChar(Sextet3(bs[2]))];
      calc {
        UrlSafe(EncodeStd(bs));
        UrlSafe(head + EncodeStd(rest));
        { UrlSafeAppend(head, EncodeStd(rest)); }
        UrlSafe(head) + UrlSafe(EncodeStd(rest));
        { UrlSafeGroup(bs[0], bs[1], bs[2]); UrlSafeEncodeStd(rest); }
        urlHead + (EncodeUrl(rest) + Padding(|rest|));
        { assert |rest| % 3 == |bs| % 3; }
        (urlHead + EncodeUrl(rest)) + Padding(|bs|);
        EncodeUrl(bs) + Padding(|bs|);
      }
    }
  }

  /** Every character of the output is in `[A-Za-z0-9_-]`. */
  lemma {:induction false} EncodeUrlAlphabet(bs: seq<Byte>)
    ensures forall k :: 0 <= k < |EncodeUrl(bs)| ==> IsUrlChar(EncodeUrl(bs)[k])
  {
    if |bs| >= 3 {
      EncodeUrlAlphabet(bs[3..]);
    }
  }

  /** Four characters per full group, then 2 or 3 for a final group of 1 or 2 bytes. */
  lemma {:induction false} EncodeUrlLength(bs: seq<Byte>)
    ensures |EncodeUrl(bs)| == 4 * (|bs| / 3) + TailLength(|bs|)
  {
    if |bs| >= 3 {
      EncodeUrlLength(bs[3..]);
    }
  }

  /** A string that does not end in `=` has nothing to strip. */
  lemma StripNothing(s: string)
    requires |s| == 0 || s[|s| - 1] != '='
    ensures StripTrailing(s, '=') == s
  {
  }

  /** Appending one `=` to a string adds exactly one character to strip. */
  lemma StripOneMore(s: string)
    ensures StripTrailing(s + "=", '=') == StripTrailing(s, '=')
  {
    var t := s + "=";
    assert t[..|t| - 1] == s;
  }

  lemma StripOnePad(s: string)
    requires |s| == 0 || s[|s| - 1] != '='
    ensures StripTrailing(s + "=", '=') == s
  {
    StripOneMore(s);
    StripNothing(s);
  }

  lemma StripTwoPads(s: string)
    requires |s| == 0 || s[|s| - 1] != '='
    ensures StripTrailing(s + "==", '=') == s
  {
    calc {
      StripTrailing(s + "==", '=');
      { assert s + "==" == (s + "=") + "="; }
      StripTrailing((s + "=") + "=", '=');
      { StripOneMore(s + "="); }
      StripTrailing(s + "=", '=');
      { StripOnePad(s); }
      s;
    }
  }

  /** Dropping the trailing `=` run of `s + pad` gives back `s` when `s` does not end in `=`. */
  lemma StripPadding(s: string, n: nat)
    requires |s| == 0 || s[|s| - 1] != '='
    ensures StripTrailing(s + Padding(n), '=') == s
  {
    if n % 3 == 0 {
      assert s + Padding(n) == s;
      StripNothing(s);
    } else if n % 3 == 2 {
      StripOnePad(s);
    } else {
      StripTwoPads(s);
    }
  }

  /**
   * The chain of index.js:105 is exactly unpadded base64url: the output uses
   * only `[A-Za-z0-9_-]`, never ends in `=`, and has the RFC 4648 length.
   */
  lemma TransportEncodeIsBase64Url(bs: seq<Byte>)
    ensures TransportEncode(bs) == EncodeUrl(bs)
    ensures forall k :: 0 <= k < |TransportEncode(bs)| ==> IsUrlChar(TransportEncode(bs)[k])
    ensures |TransportEncode(bs)| == 4 * (|bs| / 3) + TailLength(|bs|)
  {
    UrlSafeEncodeStd(bs);
    EncodeUrlAlphabet(bs);
    var e := EncodeUrl(bs);
    assert |e| > 0 ==> IsUrlChar(e[|e| - 1]);
    StripPadding(e, |bs|);
    EncodeUrlLength(bs);
  }

  // ---------------------------------------------------------------------------
  // Decoding, as the provider does on receipt of `raw`.

  /** The value of a base64url character (RFC 4648, Table 2), if it is one. */
  function UrlIndex(c: char): Option<int>
  {
    if 'A' <= c <= 'Z' then Some(c as int - 'A' as int)
    else if 'a' <= c <= 'z' then Some(c as int - 'a' as int + 26)
    else if '0' <= c <= '9' then Some(c as int - '0' as int + 52)
    else if c == '-' then Some(62)
    else if c == '_' then Some(63)
    else None
  }

  lemma UrlIndexOfChar(i: int)
    requires 0 <= i < 64
    ensures UrlIndex(UrlChar(i)) == Some(i)
  {
  }

  /** The one, two or three bytes that a chunk of two, three or four characters encodes. */
  function DecodeChunk(c: string): Option<seq<Byte>>
    requires 2 <= |c| <= 4
  {
    var i0, i1 := UrlIndex(c[0]), UrlIndex(c[1]);
    var i2 := if |c| > 2 then UrlIndex(c[2]) else Some(0);
    var i3 := if |c| > 3 then UrlIndex(c[3]) else Some(0);
    if i0.None? || i1.None? || i2.None? || i3.None? then None
    else if !(0 <= i0.value < 64 && 0 <= i1.value < 64 && 0 <= i2.value < 64 && 0 <= i3.value < 64) then None
    else
      var b0 := i0.value * 4 + i1.value / 16;
      var b1 := (i1.value % 16) * 16 + i2.value / 4;
      var b2 := (i2.value % 4) * 64 + i3.value;
      if |c| == 2 then Some([b0]) else if |c| == 3 then Some([b0, b1]) else Some([b0, b1, b2])
  }

  /** The bytes whose unpadded base64url encoding is `s`, if `s` is one. */
  function DecodeUrl(s: string): Option<seq<Byte>>
  {
    if |s| == 0 then Some([])
    else if |s| == 1 then None
    else
      var n := if |s| < 4 then |s| else 4;
      match DecodeChunk(s[..n])
      case None => None
      case Some(head) =>
        match DecodeUrl(s[n..])
        case None => None
        case Some(tail) => Some(head + tail)
  }

  lemma SextetsRecombine(b0: Byte, b1: Byte, b2: Byte)
    ensures Sextet0(b0) * 4 + Sextet1(b0, b1) / 16 == b0
    ensures (Sextet1(b0, b1) % 16) * 16 + Sextet2(b1, b2) / 4 == b1
    ensures (Sextet2(b1, b2) % 4) * 64 + Sextet3(b2) == b2
  {
  }

  /** Decoding a full group of four characters gives back its three bytes. */
  lemma DecodeGroup(b0: Byte, b1: Byte, b2: Byte, rest: string)
    ensures var group := [UrlChar(Sextet0(b0)), UrlChar(Sextet1(b0, b1)), UrlChar(Sextet2(b1, b2)), UrlChar(Sextet3(b2))];
            DecodeUrl(group + rest) == match DecodeUrl(rest)
                                       case None => None
                                       case Some(r) => Some([b0, b1, b2] + r)
  {
    var group := [UrlChar(Sextet0(b0)), UrlChar(Sextet1(b0, b1)), UrlChar(Sextet2(b1, b2)), UrlChar(Sextet3(b2))];
    UrlIndexOfChar(Sextet0(b0));
    UrlIndexOfChar(Sextet1(b0, b1));
    UrlIndexOfChar(Sextet2(b1, b2));
    UrlIndexOfChar(Sextet3(b2));
    SextetsRecombine(b0, b1, b2);
    assert DecodeChunk(group) == Some([b0, b1, b2]);
    assert (group + rest)[..4] == group && (group + rest)[4..] == rest;
  }

  /** A final chunk of two, three or four characters decodes on its own. */
  lemma DecodeLastChunk(c: string)
    requires 2 <= |c| <= 4
    ensures DecodeUrl(c) == DecodeChunk(c)
  {
    assert c[..|c|] == c;
    assert DecodeUrl(c[|c|..]) == Some([]);
    if DecodeChunk(c).Some? {
      assert DecodeChunk(c).value + [] == DecodeChunk(c).value;
    }
  }

  lemma ChunkOfOneByte(b0: Byte)
    ensures DecodeChunk([UrlChar(Sextet0(b0)), UrlChar(Sextet1(b0, 0))]) == Some([b0])
  {
    UrlIndexOfChar(Sextet0(b0));
    UrlIndexOfChar(Sextet1(b0, 0));
    SextetsRecombine(b0, 0, 0);
  }

  lemma ChunkOfTwoBytes(b0: Byte, b1: Byte)
    ensures DecodeChunk([UrlChar(Sextet0(b0)), UrlChar(Sextet1(b0, b1)), UrlChar(Sextet2(b1, 0))]) == Some([b0, b1])
  {
    UrlIndexOfChar(Sextet0(b0));
    UrlIndexOfChar(Sextet1(b0, b1));
    UrlIndexOfChar(Sextet2(b1, 0));
    SextetsRecombine(b0, b1, 0);
  }

  lemma DecodeOneByte(b0: Byte)
    ensures DecodeUrl(EncodeUrl([b0])) == Some([b0])
  {
    DecodeLastChunk(EncodeUrl([b0]));
    ChunkOfOneByte(b0);
  }

  lemma DecodeTwoBytes(b0: Byte, b1: Byte)
    ensures DecodeUrl(EncodeUrl([b0, b1])) == Some([b0, b1])
  {
    DecodeLastChunk(EncodeUrl([b0, b1]));
    ChunkOfTwoBytes(b0, b1);
  }

  /** Decoding undoes encoding: the provider recovers exactly the bytes that were encoded. */
  lemma {:induction false} DecodeEncodeUrl(bs: seq<Byte>)
    ensures DecodeUrl(EncodeUrl(bs)) == Some(bs)
  {
    if |bs| == 1 {
      assert bs == [bs[0]];
      DecodeOneByte(bs[0]);
    } else if |bs| == 2 {
      assert bs == [bs[0], bs[1]];
      DecodeTwoBytes(bs[0], bs[1]);
    } else if |bs| >= 3 {
      var rest := bs[3..];
      var group := [UrlChar(Sextet0(bs[0])), UrlChar(Sextet1(bs[0], bs[1])),
                    UrlChar(Sextet2(bs[1], bs[2])), UrlChar(Sextet3(bs[2]))];
      calc {
        DecodeUrl(EncodeUrl(bs));
        DecodeUrl(group + EncodeUrl(rest));
        { DecodeGroup(bs[0], bs[1], bs[2], EncodeUrl(rest)); DecodeEncodeUrl(rest); }
        Some([bs[0], bs[1], bs[2]] + rest);
        { assert bs == [bs[0], bs[1], bs[2]] + rest; }
        Some(bs);
      }
    }
  }
}
