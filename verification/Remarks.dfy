/** Order remarks: a UUID in 23 characters (base64url, section 5 of RFC 4648), and its decoder. */
module Remarks {
  import opened Outcomes

  type Byte = b: int | 0 <= b < 256

  type Sextet = v: int | 0 <= v < 64

  /** A 128-bit UUID. */
  type Uuid = u: seq<Byte> | |u| == 16 witness seq(16, _ => 0)

  // ---------------------------------------------------------------- hexadecimal text

  predicate IsLowerHex(c: char) {
    '0' <= c <= '9' || 'a' <= c <= 'f'
  }

  predicate IsHex(c: char) {
    IsLowerHex(c) || 'A' <= c <= 'F'
  }

  function HexChar(n: int): (c: char)
    requires 0 <= n < 16
    ensures IsLowerHex(c) && c != '-'
  {
    if n < 10 then (48 + n) as char else (87 + n) as char
  }

  function HexValue(c: char): (n: int)
    requires IsHex(c)
    ensures 0 <= n < 16
  {
    if c <= '9' then c as int - 48 else if c <= 'F' then c as int - 55 else c as int - 87
  }

  lemma HexRoundTrip(n: int, c: char)
    ensures 0 <= n < 16 ==> HexValue(HexChar(n)) == n
    ensures IsLowerHex(c) ==> HexChar(HexValue(c)) == c
  {
  }

  function HexText(bytes: seq<Byte>): (t: string)
    ensures |t| == 2 * |bytes| && forall i :: 0 <= i < |t| ==> IsLowerHex(t[i])
  {
    if bytes == [] then "" else [HexChar(bytes[0] / 16), HexChar(bytes[0] % 16)] + HexText(bytes[1..])
  }

  function HexBytes(t: string): (bytes: seq<Byte>)
    requires |t| % 2 == 0 && forall i :: 0 <= i < |t| ==> IsHex(t[i])
    ensures |bytes| == |t| / 2
  {
    if t == "" then [] else [16 * HexValue(t[0]) + HexValue(t[1])] + HexBytes(t[2..])
  }

  lemma {:induction false} HexBytesOfText(bytes: seq<Byte>)
    ensures HexBytes(HexText(bytes)) == bytes
  {
    if bytes != [] {
      HexBytesOfText(bytes[1..]);
      HexRoundTrip(bytes[0] / 16, '0');
      HexRoundTrip(bytes[0] % 16, '0');
      assert HexText(bytes)[2..] == HexText(bytes[1..]);
    }
  }

  lemma {:induction false} HexTextOfBytes(t: string)
    requires |t| % 2 == 0 && forall i :: 0 <= i < |t| ==> IsLowerHex(t[i])
    ensures HexText(HexBytes(t)) == t
  {
    if t != "" {
      HexTextOfBytes(t[2..]);
      HexRoundTrip(0, t[0]);
      HexRoundTrip(0, t[1]);
      var b := 16 * HexValue(t[0]) + HexValue(t[1]);
      assert b / 16 == HexValue(t[0]) && b % 16 == HexValue(t[1]);
      assert t == [t[0], t[1]] + t[2..];
    }
  }

  // ---------------------------------------------------------------- UUID text

  /** 32 digits as 8-4-4-4-12. */
  function Hyphenated(h: string): string
    requires |h| == 32
  {
    h[..8] + "-" + h[8..12] + "-" + h[12..16] + "-" + h[16..20] + "-" + h[20..]
  }

  /** `str(uuid)`. */
  function UuidText(u: Uuid): string {
    Hyphenated(HexText(u))
  }

  function WithoutHyphens(t: string): (r: string)
    ensures |r| <= |t|
  {
    if t == "" then "" else if t[0] == '-' then WithoutHyphens(t[1..]) else [t[0]] + WithoutHyphens(t[1..])
  }

  /** `uuid.UUID(text)`: 32 hexadecimal digits of either case, hyphens anywhere. */
  function ParseUuid(t: string): Option<Uuid> {
    var h := WithoutHyphens(t);
    if |h| == 32 && forall i :: 0 <= i < |h| ==> IsHex(h[i]) then Some(HexBytes(h)) else None
  }

  lemma {:induction false} WithoutHyphensAppend(a: string, b: string)
    ensures WithoutHyphens(a + b) == WithoutHyphens(a) + WithoutHyphens(b)
  {
    if a == "" {
      assert a + b == b;
    } else {
      WithoutHyphensAppend(a[1..], b);
      var w := WithoutHyphens(a[1..]) + WithoutHyphens(b);
      assert [a[0]] + WithoutHyphens(a[1..]) + WithoutHyphens(b) == [a[0]] + w;
      assert (a + b)[0] == a[0] && (a + b)[1..] == a[1..] + b;
    }
  }

  lemma {:induction false} NoHyphens(t: string)
    requires forall i :: 0 <= i < |t| ==> t[i] != '-'
    ensures WithoutHyphens(t) == t
  {
    if t != "" {
      NoHyphens(t[1..]);
      assert t == [t[0]] + t[1..];
    }
  }

  lemma JoinedByHyphen(a: string, b: string)
    ensures WithoutHyphens(a + "-" + b) == WithoutHyphens(a) + WithoutHyphens(b)
  {
    HyphenDropped(b);
    hide WithoutHyphens;
    WithoutHyphensAppend(a, "-" + b);
    assert a + "-" + b == a + ("-" + b);
  }

  lemma HyphenDropped(b: string)
    ensures WithoutHyphens("-" + b) == WithoutHyphens(b)
  {
    assert ("-" + b)[1..] == b;
  }

  lemma HyphensComeOff(h: string)
    requires |h| == 32 && forall i :: 0 <= i < 32 ==> h[i] != '-'
    ensures WithoutHyphens(Hyphenated(h)) == h
  {
    var a, b, c, d, e := h[..8], h[8..12], h[12..16], h[16..20], h[20..];
    NoHyphens(a);
    NoHyphens(b);
    NoHyphens(c);
    NoHyphens(d);
    NoHyphens(e);
    hide WithoutHyphens;
    JoinedByHyphen(a, b);
    JoinedByHyphen(a + "-" + b, c);
    JoinedByHyphen(a + "-" + b + "-" + c, d);
    JoinedByHyphen(a + "-" + b + "-" + c + "-" + d, e);
    assert h == a + b + c + d + e;
  }

  /** Reading the canonical text of a UUID gives the UUID back. */
  lemma ParseCanonical(u: Uuid)
    ensures ParseUuid(UuidText(u)) == Some(u)
  {
    HyphensComeOff(HexText(u));
    HexBytesOfText(u);
  }

  /** The shape that a caller can check: lower-case digits, with hyphens at the four canonical places. */
  predicate IsCanonicalText(t: string) {
    && |t| == 36
    && forall i :: 0 <= i < 36 ==> if i == 8 || i == 13 || i == 18 || i == 23 then t[i] == '-' else IsLowerHex(t[i])
  }

  lemma UuidTextIsCanonical(u: Uuid)
    ensures IsCanonicalText(UuidText(u))
  {
  }

  lemma CanonicalSplits(t: string) returns (h: string)
    requires IsCanonicalText(t)
    ensures |h| == 32 && t == Hyphenated(h) && forall i :: 0 <= i < 32 ==> IsLowerHex(h[i])
  {
    h := t[..8] + t[9..13] + t[14..18] + t[19..23] + t[24..];
    assert h[..8] == t[..8] && h[8..12] == t[9..13] && h[12..16] == t[14..18] && h[16..20] == t[19..23] && h[20..] == t[24..];
    forall i | 0 <= i < 32
      ensures IsLowerHex(h[i])
    {
      assert h[i] == t[if i < 8 then i else if i < 12 then i + 1 else if i < 16 then i + 2 else if i < 20 then i + 3 else i + 4];
    }
  }

  /** A text in canonical shape is the text of the UUID it names. */
  lemma CanonicalTextIsItsUuid(t: string)
    requires IsCanonicalText(t)
    ensures ParseUuid(t).Some? && UuidText(ParseUuid(t).value) == t
  {
    var h := CanonicalSplits(t);
    HyphensComeOff(h);
    HexTextOfBytes(h);
  }

  // ---------------------------------------------------------------- base64url

  function Base64Char(v: Sextet): (c: char)
    ensures c != '=' && c != ' '
  {
    if v < 26 then (65 + v) as char
    else if v < 52 then (71 + v) as char
    else if v < 62 then (v - 4) as char
    else if v == 62 then '-' else '_'
  }

  /** The decoder also reads the two characters of the plain base64 alphabet. */
  function Base64Value(c: char): Option<Sextet> {
    if 'A' <= c <= 'Z' then Some(c as int - 65)
    else if 'a' <= c <= 'z' then Some(c as int - 71)
    else if '0' <= c <= '9' then Some(c as int + 4)
    else if c == '-' || c == '+' then Some(62)
    else if c == '_' || c == '/' then Some(63)
    else None
  }

  lemma Base64RoundTrip(v: Sextet)
    ensures Base64Value(Base64Char(v)) == Some(v)
  {
  }

  /** `urlsafe_b64encode` without its padding. */
  function EncodeBytes(b: seq<Byte>): (t: string)
    ensures |t| == (4 * |b| + 2) / 3
    ensures forall i :: 0 <= i < |t| ==> Base64Value(t[i]).Some?
  {
    if |b| == 0 then ""
    else if |b| == 1 then [Base64Char(b[0] / 4), Base64Char(b[0] % 4 * 16)]
    else if |b| == 2 then [Base64Char(b[0] / 4), Base64Char(b[0] % 4 * 16 + b[1] / 16), Base64Char(b[1] % 16 * 4)]
    else
      [Base64Char(b[0] / 4), Base64Char(b[0] % 4 * 16 + b[1] / 16), Base64Char(b[1] % 16 * 4 + b[2] / 64), Base64Char(b[2] % 64)]
      + EncodeBytes(b[3..])
  }

  /** `urlsafe_b64decode` of text in the alphabet; spare bits of the last character are dropped. */
  function DecodeText(t: string): (r: Option<seq<Byte>>)
    ensures r.Some? ==> |r.value| == 3 * |t| / 4
  {
    if |t| == 0 then Some([])
    else if |t| == 1 then None
    else
      var v, w := Base64Value(t[0]), Base64Value(t[1]);
      if v.None? || w.None? then None else
      var b0: Byte := v.value * 4 + w.value / 16;
      if |t| == 2 then Some([b0]) else
      var x := Base64Value(t[2]);
      if x.None? then None else
      var b1: Byte := w.value % 16 * 16 + x.value / 4;
      if |t| == 3 then Some([b0, b1]) else
      var y := Base64Value(t[3]);
      if y.None? then None else
      var b2: Byte := x.value % 4 * 64 + y.value;
      var rest := DecodeText(t[4..]);
      if rest.None? then None else Some([b0, b1, b2] + rest.value)
  }

  /** Four sextets carry three bytes. */
  lemma GroupRoundTrip(b0: Byte, b1: Byte, b2: Byte)
    ensures b0 / 4 * 4 + (b0 % 4 * 16 + b1 / 16) / 16 == b0
    ensures (b0 % 4 * 16 + b1 / 16) % 16 * 16 + (b1 % 16 * 4 + b2 / 64) / 4 == b1
    ensures (b1 % 16 * 4 + b2 / 64) % 4 * 64 + b2 % 64 == b2
  {
  }

  lemma {:induction false} DecodeEncoded(b: seq<Byte>)
    ensures DecodeText(EncodeBytes(b)) == Some(b)
  {
    var t := EncodeBytes(b);
    if |b| == 0 {
    } else if |b| == 1 {
      DecodeShort(b[0], 0);
      assert b == [b[0]];
    } else if |b| == 2 {
      DecodeShort(b[0], b[1]);
      assert b == [b[0], b[1]];
    } else {
      DecodeEncoded(b[3..]);
      DecodeGroup(b[0], b[1], b[2], EncodeBytes(b[3..]), b[3..]);
      assert b == [b[0], b[1], b[2]] + b[3..];
    }
  }

  lemma DecodeShort(b0: Byte, b1: Byte)
    ensures DecodeText([Base64Char(b0 / 4), Base64Char(b0 % 4 * 16)]) == Some([b0])
    ensures DecodeText([Base64Char(b0 / 4), Base64Char(b0 % 4 * 16 + b1 / 16), Base64Char(b1 % 16 * 4)]) == Some([b0, b1])
  {
    Base64RoundTrip(b0 / 4);
    Base64RoundTrip(b0 % 4 * 16);
    Base64RoundTrip(b0 % 4 * 16 + b1 / 16);
    Base64RoundTrip(b1 % 16 * 4);
    hide Base64Char, Base64Value;
    GroupRoundTrip(b0, b1, 0);
    GroupRoundTrip(b0, 0, 0);
  }

  lemma DecodeGroup(b0: Byte, b1: Byte, b2: Byte, t: string, rest: seq<Byte>)
    requires DecodeText(t) == Some(rest)
    ensures DecodeText([Base64Char(b0 / 4), Base64Char(b0 % 4 * 16 + b1 / 16), Base64Char(b1 % 16 * 4 + b2 / 64), Base64Char(b2 % 64)] + t)
            == Some([b0, b1, b2] + rest)
  {
    var v: Sextet, w: Sextet, x: Sextet, y: Sextet := b0 / 4, b0 % 4 * 16 + b1 / 16, b1 % 16 * 4 + b2 / 64, b2 % 64;
    Base64RoundTrip(v);
    Base64RoundTrip(w);
    Base64RoundTrip(x);
    Base64RoundTrip(y);
    hide Base64Char, Base64Value;
    GroupRoundTrip(b0, b1, b2);
    var all := [Base64Char(v), Base64Char(w), Base64Char(x), Base64Char(y)] + t;
    assert all[4..] == t;
  }

  // ---------------------------------------------------------------- remarks

  predicate IsSpace(c: char) {
    c == ' ' || ('\t' <= c <= '\r') || (28 <= c as int <= 31)
  }

  function Strip(t: string): (r: string)
    ensures |r| <= |t|
    decreases |t|
  {
    if t != "" && IsSpace(t[0]) then Strip(t[1..])
    else if t != "" && IsSpace(t[|t| - 1]) then Strip(t[..|t| - 1])
    else t
  }

  /** `encode_order_remark`; `None` where the identifier is no UUID. */
  function EncodeRemark(clientOrderId: string): Option<string> {
    match ParseUuid(clientOrderId)
    case None => None
    case Some(u) => Some("A" + EncodeBytes(u))
  }

  /** `decode_order_remark`. */
  function DecodeRemark(remark: string): Option<string> {
    var value := Strip(remark);
    if |value| == 23 && value[0] == 'A' then
      match DecodeText(value[1..])
      case None => None
      case Some(bytes) => Some(UuidText(bytes))
    else
      match ParseUuid(value)
      case None => None
      case Some(u) => Some(UuidText(u))
  }

  /** Every 128-bit identifier is encoded in 23 characters, and the remark decodes to its canonical text. */
  lemma RemarkRoundTrip(clientOrderId: string)
    requires ParseUuid(clientOrderId).Some?
    ensures EncodeRemark(clientOrderId).Some? && |EncodeRemark(clientOrderId).value| == 23
    ensures DecodeRemark(EncodeRemark(clientOrderId).value) == Some(UuidText(ParseUuid(clientOrderId).value))
  {
    var u := ParseUuid(clientOrderId).value;
    var t := EncodeBytes(u);
    var remark := "A" + t;
    assert remark[22] == t[21] && Base64Value(t[21]).Some?;
    assert Strip(remark) == remark;
    assert remark[1..] == t;
    DecodeEncoded(u);
  }

  /** An order is recognised by its own remark exactly when the client order id is canonical text; another spelling of the same UUID is submitted but never matched. */
  lemma OwnRemarkIsRecognised(clientOrderId: string)
    requires EncodeRemark(clientOrderId).Some?
    ensures DecodeRemark(EncodeRemark(clientOrderId).value) == Some(clientOrderId) <==> IsCanonicalText(clientOrderId)
  {
    RemarkRoundTrip(clientOrderId);
    UuidTextIsCanonical(ParseUuid(clientOrderId).value);
    if IsCanonicalText(clientOrderId) {
      CanonicalTextIsItsUuid(clientOrderId);
    }
  }

  /** So every 128-bit value, written as its canonical text, comes back unchanged. */
  lemma {:induction false} UuidRoundTrip(u: Uuid)
    ensures EncodeRemark(UuidText(u)).Some? && |EncodeRemark(UuidText(u)).value| == 23
    ensures DecodeRemark(EncodeRemark(UuidText(u)).value) == Some(UuidText(u))
  {
    ParseCanonical(u);
    hide ParseUuid, UuidText;
    RemarkRoundTrip(UuidText(u));
  }

  /** An id of 32 digits without hyphens is submitted, and not recognised by its own remark; here, the digits of any UUID, and one text. */
  lemma {:induction false} UnhyphenatedIsNotRecognised(u: Uuid)
    ensures EncodeRemark(HexText(u)).Some? && DecodeRemark(EncodeRemark(HexText(u)).value) != Some(HexText(u))
    ensures EncodeRemark("0123456789abcdef0123456789abcdef").Some?
    ensures DecodeRemark(EncodeRemark("0123456789abcdef0123456789abcdef").value) != Some("0123456789abcdef0123456789abcdef")
  {
    PlainDigits(HexText(u));
    PlainDigits("0123456789abcdef0123456789abcdef");
  }

  lemma {:induction false} PlainDigits(t: string)
    requires |t| == 32 && forall i :: 0 <= i < 32 ==> IsLowerHex(t[i])
    ensures EncodeRemark(t).Some? && DecodeRemark(EncodeRemark(t).value) != Some(t)
  {
    NoHyphens(t);
    hide WithoutHyphens, DecodeRemark;
    OwnRemarkIsRecognised(t);
  }

  /** Two identifiers share a remark exactly when they name the same UUID. */
  lemma RemarksAreInjective(a: string, b: string)
    requires EncodeRemark(a).Some? && EncodeRemark(b).Some?
    ensures EncodeRemark(a) == EncodeRemark(b) <==> ParseUuid(a) == ParseUuid(b)
  {
    if EncodeRemark(a) == EncodeRemark(b) {
      var ta, tb := EncodeBytes(ParseUuid(a).value), EncodeBytes(ParseUuid(b).value);
      assert ("A" + ta)[1..] == ta && ("A" + tb)[1..] == tb;
      DecodeEncoded(ParseUuid(a).value);
      DecodeEncoded(ParseUuid(b).value);
    }
  }

  /** A remark that is the full canonical text is read as the same identifier. */
  lemma LegacyRemark(clientOrderId: string)
    requires IsCanonicalText(clientOrderId)
    ensures DecodeRemark(clientOrderId) == Some(clientOrderId)
  {
    CanonicalTextIsItsUuid(clientOrderId);
    assert !IsSpace(clientOrderId[0]) && !IsSpace(clientOrderId[35]);
    assert Strip(clientOrderId) == clientOrderId;
  }

  // ---------------------------------------------------------------- the alphabets, and one remark in full

  /** The characters are those of the base64url alphabet (section 5 of RFC 4648) and of lower-case hexadecimal, in their order. */
  lemma {:induction false} AlphabetsAreExact()
    ensures [Base64Char(0), Base64Char(1), Base64Char(2), Base64Char(3), Base64Char(4), Base64Char(5), Base64Char(6), Base64Char(7)] == "ABCDEFGH"
    ensures [Base64Char(8), Base64Char(9), Base64Char(10), Base64Char(11), Base64Char(12), Base64Char(13), Base64Char(14), Base64Char(15)] == "IJKLMNOP"
    ensures [Base64Char(16), Base64Char(17), Base64Char(18), Base64Char(19), Base64Char(20), Base64Char(21), Base64Char(22), Base64Char(23)] == "QRSTUVWX"
    ensures [Base64Char(24), Base64Char(25), Base64Char(26), Base64Char(27), Base64Char(28), Base64Char(29), Base64Char(30), Base64Char(31)] == "YZabcdef"
    ensures [Base64Char(32), Base64Char(33), Base64Char(34), Base64Char(35), Base64Char(36), Base64Char(37), Base64Char(38), Base64Char(39)] == "ghijklmn"
    ensures [Base64Char(40), Base64Char(41), Base64Char(42), Base64Char(43), Base64Char(44), Base64Char(45), Base64Char(46), Base64Char(47)] == "opqrstuv"
    ensures [Base64Char(48), Base64Char(49), Base64Char(50), Base64Char(51), Base64Char(52), Base64Char(53), Base64Char(54), Base64Char(55)] == "wxyz0123"
    ensures [Base64Char(56), Base64Char(57), Base64Char(58), Base64Char(59), Base64Char(60), Base64Char(61), Base64Char(62), Base64Char(63)] == "456789-_"
    ensures [HexChar(0), HexChar(1), HexChar(2), HexChar(3), HexChar(4), HexChar(5), HexChar(6), HexChar(7), HexChar(8), HexChar(9), HexChar(10), HexChar(11), HexChar(12), HexChar(13), HexChar(14), HexChar(15)] == "0123456789abcdef"
  {
  }

  /** The decoder also takes the two last characters of the plain alphabet, and upper-case hexadecimal, and nothing else. */
  lemma {:induction false} DecodersAreExact(c: char)
    ensures Base64Value(c).Some? <==> 'A' <= c <= 'Z' || 'a' <= c <= 'z' || '0' <= c <= '9' || c == '-' || c == '_' || c == '+' || c == '/'
    ensures Base64Value('+') == Base64Value('-') && Base64Value('/') == Base64Value('_')
    ensures IsHex(c) <==> '0' <= c <= '9' || 'a' <= c <= 'f' || 'A' <= c <= 'F'
    ensures 'A' <= c <= 'F' ==> HexValue(c) == HexValue((c as int + 32) as char)
  {
  }

  const ONE_UUID: Uuid := [0x00, 0x11, 0x22, 0x33] + [0x44, 0x55] + [0x66, 0x77] + [0x88, 0x99] + ([0xaa, 0xbb, 0xcc] + [0xdd, 0xee, 0xff])

  /** One identifier and its remark, by which the order of bytes, groups and bits is fixed. */
  lemma {:induction false} OneRemark()
    ensures var text, remark :=
              "00112233" + "-" + "4455" + "-" + "6677" + "-" + "8899" + "-" + ("aabbcc" + "ddeeff"),
              "A" + ("ABEi" + ("M0RV" + ("ZneI" + ("maq7" + ("zN3u" + "_w")))));
            EncodeRemark(text) == Some(remark) && DecodeRemark(remark) == Some(text)
  {
    OneHexText();
    OneEncoding();
    hide *;
    UuidRoundTrip(ONE_UUID);
    ParseCanonical(ONE_UUID);
    EncodesTo(ONE_UUID);
  }

  lemma {:induction false} EncodesTo(u: Uuid)
    requires ParseUuid(UuidText(u)) == Some(u)
    ensures EncodeRemark(UuidText(u)) == Some("A" + EncodeBytes(u))
  {
  }

  lemma {:induction false} OneHexText()
    ensures UuidText(ONE_UUID) == "00112233" + "-" + "4455" + "-" + "6677" + "-" + "8899" + "-" + ("aabbcc" + "ddeeff")
  {
    assert ONE_UUID == [0x00, 0x11, 0x22, 0x33] + [0x44, 0x55] + [0x66, 0x77] + [0x88, 0x99] + ([0xaa, 0xbb, 0xcc] + [0xdd, 0xee, 0xff]);
    hide *;
    FirstParts();
    LastPart();
    PartsOfText([0x00, 0x11, 0x22, 0x33], [0x44, 0x55], [0x66, 0x77], [0x88, 0x99], [0xaa, 0xbb, 0xcc] + [0xdd, 0xee, 0xff]);
  }

  lemma {:induction false} FirstParts()
    ensures HexText([0x00, 0x11, 0x22, 0x33]) == "00112233"
    ensures HexText([0x44, 0x55]) == "4455" && HexText([0x66, 0x77]) == "6677" && HexText([0x88, 0x99]) == "8899"
  {
  }

  lemma {:induction false} LastPart()
    ensures HexText([0xaa, 0xbb, 0xcc] + [0xdd, 0xee, 0xff]) == "aabbcc" + "ddeeff"
  {
    assert HexText([0xaa, 0xbb, 0xcc]) == "aabbcc" && HexText([0xdd, 0xee, 0xff]) == "ddeeff";
    hide HexText;
    HexTextAppend([0xaa, 0xbb, 0xcc], [0xdd, 0xee, 0xff]);
  }

  lemma {:induction false} PartsOfText(a: seq<Byte>, b: seq<Byte>, c: seq<Byte>, d: seq<Byte>, e: seq<Byte>)
    requires |a| == 4 && |b| == 2 && |c| == 2 && |d| == 2 && |e| == 6
    ensures UuidText(a + b + c + d + e) == HexText(a) + "-" + HexText(b) + "-" + HexText(c) + "-" + HexText(d) + "-" + HexText(e)
  {
    HexTextAppend(a, b);
    HexTextAppend(a + b, c);
    HexTextAppend(a + b + c, d);
    HexTextAppend(a + b + c + d, e);
    hide HexText;
    var h := HexText(a + b + c + d + e);
    assert h[..8] == HexText(a) && h[8..12] == HexText(b) && h[12..16] == HexText(c) && h[16..20] == HexText(d) && h[20..] == HexText(e);
  }

  lemma {:induction false} HexTextAppend(a: seq<Byte>, b: seq<Byte>)
    ensures HexText(a + b) == HexText(a) + HexText(b)
  {
    if a == [] {
      assert a + b == b;
    } else {
      HexTextAppend(a[1..], b);
      assert (a + b)[0] == a[0] && (a + b)[1..] == a[1..] + b;
    }
  }

  lemma {:induction false} OneEncoding()
    ensures "A" + EncodeBytes(ONE_UUID) == "A" + ("ABEi" + ("M0RV" + ("ZneI" + ("maq7" + ("zN3u" + "_w")))))
  {
    hide *;
    OneGroups();
    BytesOfOne();
    var r5 := "_w";
    LastByte(ONE_UUID, 0xff, r5);
    var r4 := OneGroup(ONE_UUID, 12, 0xcc, 0xdd, 0xee, "zN3u", r5);
    var r3 := OneGroup(ONE_UUID, 9, 0x99, 0xaa, 0xbb, "maq7", r4);
    var r2 := OneGroup(ONE_UUID, 6, 0x66, 0x77, 0x88, "ZneI", r3);
    var r1 := OneGroup(ONE_UUID, 3, 0x33, 0x44, 0x55, "M0RV", r2);
    var r0 := OneGroup(ONE_UUID, 0, 0x00, 0x11, 0x22, "ABEi", r1);
    assert ONE_UUID[0..] == ONE_UUID;
  }

  lemma {:induction false} BytesOfOne()
    ensures ONE_UUID == [0x00, 0x11, 0x22, 0x33, 0x44, 0x55, 0x66, 0x77, 0x88, 0x99, 0xaa, 0xbb, 0xcc, 0xdd, 0xee, 0xff]
  {
  }

  predicate IsGroup(group: string, b0: Byte, b1: Byte, b2: Byte) {
    group == [Base64Char(b0 / 4), Base64Char(b0 % 4 * 16 + b1 / 16), Base64Char(b1 % 16 * 4 + b2 / 64), Base64Char(b2 % 64)]
  }

  lemma {:induction false} OneGroups()
    ensures IsGroup("zN3u", 0xcc, 0xdd, 0xee) && IsGroup("maq7", 0x99, 0xaa, 0xbb) && IsGroup("ZneI", 0x66, 0x77, 0x88)
    ensures IsGroup("M0RV", 0x33, 0x44, 0x55) && IsGroup("ABEi", 0x00, 0x11, 0x22)
    ensures "_w" == [Base64Char(0xff / 4), Base64Char(0xff % 4 * 16)]
  {
  }

  lemma {:induction false} LastByte(u: Uuid, b: Byte, last: string)
    requires u[15] == b && last == [Base64Char(b / 4), Base64Char(b % 4 * 16)]
    ensures EncodeBytes(u[15..]) == last
  {
    hide Base64Char;
    assert u[15..] == [b];
  }

  lemma {:induction false} OneGroup(u: Uuid, k: nat, b0: Byte, b1: Byte, b2: Byte, group: string, rest: string) returns (text: string)
    requires k + 3 <= 16 && u[k] == b0 && u[k + 1] == b1 && u[k + 2] == b2 && EncodeBytes(u[k + 3..]) == rest
    requires IsGroup(group, b0, b1, b2)
    ensures text == group + rest && EncodeBytes(u[k..]) == text
  {
    hide Base64Char;
    text := group + rest;
    var b := u[k..];
    assert b[3..] == u[k + 3..] && b[0] == b0 && b[1] == b1 && b[2] == b2;
  }

  // ---------------------------------------------------------------- white space

  predicate IsAllSpace(t: string) {
    forall i :: 0 <= i < |t| ==> t[i] in " \t\n\r" || 11 <= t[i] as int <= 12 || 28 <= t[i] as int <= 31
  }

  lemma {:induction false} StripLeft(pad: string, t: string)
    requires IsAllSpace(pad)
    ensures Strip(pad + t) == Strip(t)
    decreases |pad|
  {
    if pad == "" {
      assert pad + t == t;
    } else {
      assert (pad + t)[0] == pad[0] && (pad + t)[1..] == pad[1..] + t;
      StripLeft(pad[1..], t);
    }
  }

  lemma {:induction false} StripRight(t: string, pad: string)
    requires IsAllSpace(pad) && t != "" && !IsSpace(t[0])
    ensures Strip(t + pad) == Strip(t)
    decreases |pad|
  {
    if pad == "" {
      assert t + pad == t;
    } else {
      var all := t + pad;
      assert all[0] == t[0] && all[|all| - 1] == pad[|pad| - 1] && all[..|all| - 1] == t + pad[..|pad| - 1];
      StripRight(t, pad[..|pad| - 1]);
    }
  }

  /** White space around a remark does not matter to its reader. */
  lemma {:induction false} PaddingIsIgnored(before: string, remark: string, after: string)
    requires IsAllSpace(before) && IsAllSpace(after) && remark != "" && !IsSpace(remark[0]) && !IsSpace(remark[|remark| - 1])
    ensures DecodeRemark(before + remark + after) == DecodeRemark(remark)
  {
    StripLeft(before, remark + after);
    StripRight(remark, after);
    assert before + remark + after == before + (remark + after);
    hide ParseUuid, DecodeText, UuidText, Strip;
  }
}
