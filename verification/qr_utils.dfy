/** `QrUtils`: the UPI payment URI shown as a QR code, and the conversion of the encoder's bit
    matrix into bitmap pixels. The QR encoder itself is a parameter: the bit matrix it produced,
    or None when it threw. The payee name is percent-encoded as `android.net.Uri.encode` does:
    every character outside the letters, digits and `_-!.~'()*` becomes the `%XX` escapes of
    its UTF-8 bytes, with upper-case hex digits. */
module QrUtils {
  import opened Wrappers
  import opened Text

  newtype byte = x: int | 0 <= x < 256

  // ---------------------------------------------------------------- UTF-8

  /** The UTF-8 encoding of one Unicode scalar value. */
  function Utf8(c: char): (r: seq<byte>)
    ensures 1 <= |r| <= 4
    ensures (c as int < 0x80) <==> |r| == 1
  {
    var cp := c as int;
    if cp < 0x80 then [cp as byte]
    else if cp < 0x800 then [(0xC0 + cp / 64) as byte, (0x80 + cp % 64) as byte]
    else if cp < 0x10000 then [(0xE0 + cp / 4096) as byte, (0x80 + cp / 64 % 64) as byte, (0x80 + cp % 64) as byte]
    else [(0xF0 + cp / 262144) as byte, (0x80 + cp / 4096 % 64) as byte, (0x80 + cp / 64 % 64) as byte, (0x80 + cp % 64) as byte]
  }

  /** The UTF-8 encoding of a string: `getBytes(UTF_8)`. */
  function Utf8String(s: string): (r: seq<byte>)
    ensures |s| <= |r| <= 4 * |s|
  {
    if |s| == 0 then [] else Utf8(s[0]) + Utf8String(s[1..])
  }

  predicate IsContinuation(b: byte) {
    0x80 <= b < 0xC0
  }

  /** The scalar value with code point `cp`, if there is one. */
  function CharOf(cp: int): Option<char> {
    if 0 <= cp < 0xD800 || 0xE000 <= cp < 0x110000 then Some(cp as char) else None
  }

  /** Decodes the first character of `bs`: the character and the number of bytes it took. */
  function Utf8Decode(bs: seq<byte>): (r: Option<(char, nat)>)
    ensures r.Some? ==> 1 <= r.value.1 <= |bs|
  {
    if |bs| == 0 then None
    else
      var b0 := bs[0] as int;
      if b0 < 0x80 then Some((b0 as char, 1))
      else if 0xC0 <= b0 < 0xE0 && |bs| >= 2 && IsContinuation(bs[1]) then
        var cp := (b0 - 0xC0) * 64 + (bs[1] as int - 0x80);
        match CharOf(cp)
        case Some(c) => Some((c, 2))
        case None => None
      else if 0xE0 <= b0 < 0xF0 && |bs| >= 3 && IsContinuation(bs[1]) && IsContinuation(bs[2]) then
        var cp := (b0 - 0xE0) * 4096 + (bs[1] as int - 0x80) * 64 + (bs[2] as int - 0x80);
        match CharOf(cp)
        case Some(c) => Some((c, 3))
        case None => None
      else if 0xF0 <= b0 < 0xF8 && |bs| >= 4 && IsContinuation(bs[1]) && IsContinuation(bs[2]) && IsContinuation(bs[3]) then
        var cp := (b0 - 0xF0) * 262144 + (bs[1] as int - 0x80) * 4096 + (bs[2] as int - 0x80) * 64 + (bs[3] as int - 0x80);
        match CharOf(cp)
        case Some(c) => Some((c, 4))
        case None => None
      else None
  }

  /** Decodes a whole byte sequence, failing on any malformed character. */
  function Utf8DecodeAll(bs: seq<byte>): Option<string>
    decreases |bs|
  {
    if |bs| == 0 then Some([])
    else
      match Utf8Decode(bs)
      case None => None
      case Some((c, n)) =>
        match Utf8DecodeAll(bs[n..])
        case None => None
        case Some(rest) => Some([c] + rest)
  }

  lemma Split64(cp: nat)
    ensures cp == cp / 64 * 64 + cp % 64 && 0 <= cp % 64 < 64
  {
  }

  lemma Utf8Decode2(c: char, rest: seq<byte>)
    requires 0x80 <= c as int < 0x800
    ensures Utf8Decode(Utf8(c) + rest) == Some((c, 2))
  {
    var cp := c as int;
    Split64(cp);
    var bs := Utf8(c) + rest;
    assert bs[0] as int == 0xC0 + cp / 64 && bs[1] as int == 0x80 + cp % 64;
    assert (bs[0] as int - 0xC0) * 64 + (bs[1] as int - 0x80) == cp;
  }

  lemma Utf8Decode3(c: char, rest: seq<byte>)
    requires 0x800 <= c as int < 0x10000
    ensures Utf8Decode(Utf8(c) + rest) == Some((c, 3))
  {
    var cp := c as int;
    var q := cp / 64;
    Split64(cp);
    Split64(q);
    assert q / 64 == cp / 4096;
    var bs := Utf8(c) + rest;
    assert bs[0] as int == 0xE0 + q / 64 && bs[1] as int == 0x80 + q % 64 && bs[2] as int == 0x80 + cp % 64;
    assert (bs[0] as int - 0xE0) * 4096 + (bs[1] as int - 0x80) * 64 + (bs[2] as int - 0x80) == cp;
  }

  lemma Utf8Decode4(c: char, rest: seq<byte>)
    requires 0x10000 <= c as int
    ensures Utf8Decode(Utf8(c) + rest) == Some((c, 4))
  {
    var cp := c as int;
    var q := cp / 64;
    var q2 := q / 64;
    Split64(cp);
    Split64(q);
    Split64(q2);
    assert q2 == cp / 4096 && q2 / 64 == cp / 262144;
    assert cp / 262144 <= 4;
    var bs := Utf8(c) + rest;
    assert bs[0] as int == 0xF0 + q2 / 64 && bs[1] as int == 0x80 + q2 % 64;
    assert bs[2] as int == 0x80 + q % 64 && bs[3] as int == 0x80 + cp % 64;
    assert (bs[0] as int - 0xF0) * 262144 + (bs[1] as int - 0x80) * 4096 + (bs[2] as int - 0x80) * 64 + (bs[3] as int - 0x80) == cp;
  }

  /** Decoding reads back exactly the character that was encoded, and nothing after it. */
  lemma Utf8DecodeEncode(c: char, rest: seq<byte>)
    ensures Utf8Decode(Utf8(c) + rest) == Some((c, |Utf8(c)|))
  {
    if c as int < 0x80 {
    } else if c as int < 0x800 {
      Utf8Decode2(c, rest);
    } else if c as int < 0x10000 {
      Utf8Decode3(c, rest);
    } else {
      Utf8Decode4(c, rest);
    }
  }

  /** `Utf8DecodeAll` inverts `Utf8String`. */
  lemma {:induction false} Utf8RoundTrip(s: string)
    ensures Utf8DecodeAll(Utf8String(s)) == Some(s)
    decreases |s|
  {
    if |s| > 0 {
      var bs := Utf8String(s);
      Utf8DecodeEncode(s[0], Utf8String(s[1..]));
      assert bs[|Utf8(s[0])|..] == Utf8String(s[1..]);
      Utf8RoundTrip(s[1..]);
      assert [s[0]] + s[1..] == s;
    }
  }

  // ---------------------------------------------------------------- percent-encoding

  /** The characters `Uri.encode` leaves alone. */
  predicate IsUnreserved(c: char) {
    || 'A' <= c <= 'Z' || 'a' <= c <= 'z' || '0' <= c <= '9'
    || c == '_' || c == '-' || c == '!' || c == '.' || c == '~' || c == '\'' || c == '(' || c == ')' || c == '*'
  }

  const HexDigits := "0123456789ABCDEF"

  function HexDigit(n: int): (c: char)
    requires 0 <= n < 16
    ensures IsUnreserved(c) && HexValue(c) == Some(n)
  {
    HexDigits[n]
  }

  /** The value of a hex digit in either case. */
  function HexValue(c: char): (r: Option<int>)
    ensures r.Some? ==> 0 <= r.value < 16
  {
    if '0' <= c <= '9' then Some(c as int - '0' as int)
    else if 'A' <= c <= 'F' then Some(c as int - 'A' as int + 10)
    else if 'a' <= c <= 'f' then Some(c as int - 'a' as int + 10)
    else None
  }

  /** `%XX` for one byte. */
  function PercentByte(b: byte): (r: string)
    ensures |r| == 3 && r[0] == '%'
  {
    ['%', HexDigit(b as int / 16), HexDigit(b as int % 16)]
  }

  function PercentBytes(bs: seq<byte>): (r: string)
    ensures |r| == 3 * |bs|
  {
    if |bs| == 0 then [] else PercentByte(bs[0]) + PercentBytes(bs[1..])
  }

  /** One character of `Uri.encode`'s output. */
  function EncodeChar(c: char): string {
    if IsUnreserved(c) then [c] else PercentBytes(Utf8(c))
  }

  /** `android.net.Uri.encode(s)`. */
  function UriEncode(s: string): (r: string)
    ensures |s| <= |r|
  {
    if |s| == 0 then [] else EncodeChar(s[0]) + UriEncode(s[1..])
  }

  /** The percent-decoding half of a decoder: unreserved characters stand for their ASCII
      byte, `%XX` for the byte with that hex value; anything else is malformed. */
  function Unpercent(s: string): Option<seq<byte>>
    decreases |s|
  {
    if |s| == 0 then Some([])
    else if IsUnreserved(s[0]) then
      match Unpercent(s[1..])
      case None => None
      case Some(rest) => Some([s[0] as int as byte] + rest)
    else if s[0] == '%' && |s| >= 3 && HexValue(s[1]).Some? && HexValue(s[2]).Some? then
      match Unpercent(s[3..])
      case None => None
      case Some(rest) => Some([(HexValue(s[1]).value * 16 + HexValue(s[2]).value) as byte] + rest)
    else None
  }

  /** A reference decoder: percent-decoding followed by UTF-8 decoding. */
  function UriDecode(s: string): Option<string> {
    match Unpercent(s)
    case None => None
    case Some(bs) => Utf8DecodeAll(bs)
  }

  function Prepend(bs: seq<byte>, r: Option<seq<byte>>): Option<seq<byte>> {
    match r
    case None => None
    case Some(rest) => Some(bs + rest)
  }

  lemma {:induction false} UnpercentBytes(bs: seq<byte>, rest: string)
    ensures Unpercent(PercentBytes(bs) + rest) == Prepend(bs, Unpercent(rest))
    decreases |bs|
  {
    if |bs| > 0 {
      var more := PercentBytes(bs[1..]) + rest;
      assert PercentBytes(bs) + rest == PercentByte(bs[0]) + more;
      UnpercentByte(bs[0], more);
      UnpercentBytes(bs[1..], rest);
      PrependTwice([bs[0]], bs[1..], Unpercent(rest));
      assert [bs[0]] + bs[1..] == bs;
    } else {
      assert PercentBytes(bs) + rest == rest;
      PrependTwice([], [], Unpercent(rest));
    }
  }

  lemma UnpercentByte(b: byte, rest: string)
    ensures Unpercent(PercentByte(b) + rest) == Prepend([b], Unpercent(rest))
  {
    var s := PercentByte(b) + rest;
    assert s[0] == '%' && !IsUnreserved(s[0]);
    assert s[1] == HexDigit(b as int / 16) && s[2] == HexDigit(b as int % 16);
    assert HexValue(s[1]).value * 16 + HexValue(s[2]).value == b as int;
    assert s[3..] == rest;
  }

  lemma PrependTwice(a: seq<byte>, b: seq<byte>, r: Option<seq<byte>>)
    ensures Prepend(a, Prepend(b, r)) == Prepend(a + b, r)
    ensures Prepend([], r) == r
  {
    if r.Some? {
      assert a + (b + r.value) == (a + b) + r.value;
      assert [] + r.value == r.value;
    }
  }

  lemma UnpercentChar(c: char, rest: string)
    ensures Unpercent(EncodeChar(c) + rest) == Prepend(Utf8(c), Unpercent(rest))
  {
    if IsUnreserved(c) {
      assert (EncodeChar(c) + rest)[1..] == rest;
    } else {
      UnpercentBytes(Utf8(c), rest);
    }
  }

  /** Percent-decoding the encoded string gives back the UTF-8 bytes of the original. */
  lemma {:induction false} UnpercentEncode(s: string)
    ensures Unpercent(UriEncode(s)) == Some(Utf8String(s))
    decreases |s|
  {
    if |s| > 0 {
      UnpercentChar(s[0], UriEncode(s[1..]));
      UnpercentEncode(s[1..]);
    }
  }

  /** `Uri.encode` loses nothing: decoding its output gives back the original string. */
  lemma UriDecodeEncode(s: string)
    ensures UriDecode(UriEncode(s)) == Some(s)
  {
    UnpercentEncode(s);
    Utf8RoundTrip(s);
  }

  /** The encoded string consists of unreserved characters and `%` only, so it never contains
      the `&`, `=` or `#` that would break the surrounding URI. */
  lemma {:induction false} EncodedIsSafe(s: string)
    ensures forall i :: 0 <= i < |UriEncode(s)| ==> IsUnreserved(UriEncode(s)[i]) || UriEncode(s)[i] == '%'
    decreases |s|
  {
    if |s| > 0 {
      EncodedIsSafe(s[1..]);
      PercentBytesSafe(Utf8(s[0]));
    }
  }

  lemma {:induction false} PercentBytesSafe(bs: seq<byte>)
    ensures forall i :: 0 <= i < |PercentBytes(bs)| ==> IsUnreserved(PercentBytes(bs)[i]) || PercentBytes(bs)[i] == '%'
    decreases |bs|
  {
    if |bs| > 0 {
      PercentBytesSafe(bs[1..]);
    }
  }

  /** A string of unreserved characters is encoded as itself, and only such a string is. */
  lemma {:induction false} EncodeIdentityIff(s: string)
    ensures UriEncode(s) == s <==> forall i :: 0 <= i < |s| ==> IsUnreserved(s[i])
    decreases |s|
  {
    if |s| > 0 {
      EncodeIdentityIff(s[1..]);
      UnreservedCons(s);
      if IsUnreserved(s[0]) {
        SameHead(s[0], UriEncode(s[1..]), s[1..]);
        assert s == [s[0]] + s[1..];
      } else {
        assert UriEncode(s)[0] == '%';
      }
    }
  }

  lemma UnreservedCons(s: string)
    requires |s| > 0
    ensures (forall i :: 0 <= i < |s| ==> IsUnreserved(s[i])) <==>
      IsUnreserved(s[0]) && forall i :: 0 <= i < |s[1..]| ==> IsUnreserved(s[1..][i])
  {
    if IsUnreserved(s[0]) && forall i :: 0 <= i < |s[1..]| ==> IsUnreserved(s[1..][i]) {
      forall i | 0 < i < |s| ensures IsUnreserved(s[i]) {
        assert s[i] == s[1..][i - 1];
      }
    }
  }

  lemma SameHead(c: char, x: string, y: string)
    ensures [c] + x == [c] + y <==> x == y
  {
    if [c] + x == [c] + y {
      assert x == ([c] + x)[1..];
    }
  }

  // ---------------------------------------------------------------- the payment URI

  const UpiPrefix := "upi://pay?"

  /** `getUpiString(payeeVpa, payeeName, amount)`: the VPA is trimmed but not encoded, the
      name is trimmed and encoded, the currency is always INR, and the amount, verbatim, is
      added only when it is present and non-empty. */
  function UpiString(payeeVpa: string, payeeName: string, amount: Option<string>): (r: string)
    ensures |r| >= |"upi://pay?pa=&pn=&cu=INR"|
  {
    UpiUri(Trim(payeeVpa), UriEncode(Trim(payeeName)), amount)
  }

  /** The URI template with the values already prepared. */
  function UpiUri(vpa: string, name: string, amount: Option<string>): string {
    var uri := UpiPrefix + Param("pa", vpa) + "&" + Param("pn", name) + "&" + Param("cu", "INR");
    if amount.Some? && |amount.value| > 0 then uri + "&" + Param("am", amount.value) else uri
  }

  /** `s` split at every `sep`. */
  function Split(s: string, sep: char): (r: seq<string>)
    ensures |r| >= 1
    decreases |s|
  {
    if sep !in s then [s]
    else
      var k := FirstIndex(s, sep);
      [s[..k]] + Split(s[k + 1..], sep)
  }

  function FirstIndex(s: string, c: char): (k: nat)
    requires c in s
    ensures k < |s| && s[k] == c && c !in s[..k]
  {
    if s[0] == c then 0 else
      assert s == [s[0]] + s[1..];
      1 + FirstIndex(s[1..], c)
  }

  /** The first separator in `a + [sep] + b` is the one after `a`. */
  lemma SplitAt(a: string, b: string, sep: char)
    requires sep !in a
    ensures sep in a + [sep] + b && FirstIndex(a + [sep] + b, sep) == |a|
  {
    var s := a + [sep] + b;
    assert s[..|a|] == a;
    assert s[|a|] == sep;
  }

  /** `parts` joined with `sep` between each two. */
  function Join(parts: seq<string>, sep: char): string
    requires |parts| >= 1
  {
    if |parts| == 1 then parts[0] else parts[0] + [sep] + Join(parts[1..], sep)
  }

  /** `Split` inverts `Join` when no part contains the separator. */
  lemma {:induction false} SplitJoin(parts: seq<string>, sep: char)
    requires |parts| >= 1
    requires forall i :: 0 <= i < |parts| ==> sep !in parts[i]
    ensures Split(Join(parts, sep), sep) == parts
    decreases |parts|
  {
    if |parts| > 1 {
      var rest := parts[1..];
      assert forall i :: 0 <= i < |rest| ==> sep !in rest[i] by {
        forall i | 0 <= i < |rest| ensures sep !in rest[i] {
          assert rest[i] == parts[i + 1];
        }
      }
      SplitJoin(rest, sep);
      assert Join(parts, sep) == parts[0] + [sep] + Join(rest, sep);
      SplitStep(parts[0], Join(rest, sep), sep);
      assert parts == [parts[0]] + rest;
    }
  }

  /** Splitting stops at the first separator. */
  lemma SplitStep(a: string, b: string, sep: char)
    requires sep !in a
    ensures Split(a + [sep] + b, sep) == [a] + Split(b, sep)
  {
    var s := a + [sep] + b;
    SplitAt(a, b, sep);
    assert s[..|a|] == a && s[|a| + 1..] == b;
  }

  /** A query parameter `key=value`, split at the first `=`. */
  function KeyValue(p: string): (string, string) {
    if '=' in p then
      var k := FirstIndex(p, '=');
      (p[..k], p[k + 1..])
    else (p, "")
  }

  lemma KeyValueOf(key: string, value: string)
    requires '=' !in key
    ensures KeyValue(Param(key, value)) == (key, value)
  {
    var p := key + "=" + value;
    assert p == key + ['='] + value;
    SplitAt(key, value, '=');
    assert p[..|key|] == key && p[|key| + 1..] == value;
  }

  /** The query parameters of a `upi://pay?` URI, in order; none for any other URI. */
  function Params(uri: string): seq<(string, string)> {
    if |uri| >= |UpiPrefix| && uri[..|UpiPrefix|] == UpiPrefix then
      var parts := Split(uri[|UpiPrefix|..], '&');
      seq(|parts|, i requires 0 <= i < |parts| => KeyValue(parts[i]))
    else []
  }

  function Param(key: string, value: string): string {
    key + "=" + value
  }

  /** The parts of the query that `getUpiString` builds. */
  function QueryParts(vpa: string, name: string, amount: Option<string>): (r: seq<string>)
    ensures |r| >= 3
  {
    [Param("pa", vpa), Param("pn", name), Param("cu", "INR")] +
    (if amount.Some? && |amount.value| > 0 then [Param("am", amount.value)] else [])
  }

  lemma UpiUriIsJoin(vpa: string, name: string, amount: Option<string>)
    ensures UpiUri(vpa, name, amount) == UpiPrefix + Join(QueryParts(vpa, name, amount), '&')
  {
    var pa, pn, cu := Param("pa", vpa), Param("pn", name), Param("cu", "INR");
    if amount.Some? && |amount.value| > 0 {
      var am := Param("am", amount.value);
      assert QueryParts(vpa, name, amount) == [pa, pn, cu, am];
      JoinFour(UpiPrefix, pa, pn, cu, am);
    } else {
      assert QueryParts(vpa, name, amount) == [pa, pn, cu];
      JoinThree(UpiPrefix, pa, pn, cu);
    }
  }

  lemma JoinThree(prefix: string, a: string, b: string, c: string)
    ensures prefix + a + "&" + b + "&" + c == prefix + Join([a, b, c], '&')
  {
    assert [a, b, c][1..] == [b, c] && [b, c][1..] == [c];
    assert Join([b, c], '&') == b + "&" + c;
  }

  lemma JoinFour(prefix: string, a: string, b: string, c: string, d: string)
    ensures prefix + a + "&" + b + "&" + c + "&" + d == prefix + Join([a, b, c, d], '&')
  {
    assert [a, b, c, d][1..] == [b, c, d];
    JoinThree(a + "&", b, c, d);
    assert Join([a, b, c, d], '&') == a + "&" + Join([b, c, d], '&');
  }

  /** The parameters of a URI built from query parts are the parts split at their `=`. */
  lemma ParamsOfJoin(parts: seq<string>)
    requires |parts| >= 1
    requires forall i :: 0 <= i < |parts| ==> '&' !in parts[i]
    ensures |Params(UpiPrefix + Join(parts, '&'))| == |parts|
    ensures forall i :: 0 <= i < |parts| ==> Params(UpiPrefix + Join(parts, '&'))[i] == KeyValue(parts[i])
  {
    var uri := UpiPrefix + Join(parts, '&');
    assert uri[..|UpiPrefix|] == UpiPrefix;
    assert uri[|UpiPrefix|..] == Join(parts, '&');
    SplitJoin(parts, '&');
  }

  lemma QueryParams(vpa: string, name: string, amount: Option<string>)
    requires '&' !in vpa && '&' !in name
    requires amount.Some? ==> '&' !in amount.value
    ensures Params(UpiPrefix + Join(QueryParts(vpa, name, amount), '&')) ==
      [("pa", vpa), ("pn", name), ("cu", "INR")] +
      (if amount.Some? && |amount.value| > 0 then [("am", amount.value)] else [])
  {
    var parts := QueryParts(vpa, name, amount);
    var kvs := [("pa", vpa), ("pn", name), ("cu", "INR")] +
      (if amount.Some? && |amount.value| > 0 then [("am", amount.value)] else []);
    PartsWithoutAmpersand(vpa, name, amount);
    ParamsHead(parts, vpa, name);
    if amount.Some? && |amount.value| > 0 {
      KeyValueOf("am", amount.value);
    }
    ParamsAre(parts, kvs);
  }

  /** The parameters of a URI built from query parts, given what each part splits into. */
  lemma ParamsAre(parts: seq<string>, kvs: seq<(string, string)>)
    requires |parts| >= 1 && |kvs| == |parts|
    requires forall i :: 0 <= i < |parts| ==> '&' !in parts[i]
    requires forall i :: 0 <= i < |parts| ==> KeyValue(parts[i]) == kvs[i]
    ensures Params(UpiPrefix + Join(parts, '&')) == kvs
  {
    ParamsOfJoin(parts);
  }

  lemma ParamsHead(parts: seq<string>, vpa: string, name: string)
    requires |parts| >= 3 && parts[0] == Param("pa", vpa) && parts[1] == Param("pn", name) && parts[2] == Param("cu", "INR")
    ensures KeyValue(parts[0]) == ("pa", vpa) && KeyValue(parts[1]) == ("pn", name) && KeyValue(parts[2]) == ("cu", "INR")
  {
    KeyValueOf("pa", vpa);
    KeyValueOf("pn", name);
    KeyValueOf("cu", "INR");
  }

  lemma PartsWithoutAmpersand(vpa: string, name: string, amount: Option<string>)
    requires '&' !in vpa && '&' !in name
    requires amount.Some? ==> '&' !in amount.value
    ensures forall i :: 0 <= i < |QueryParts(vpa, name, amount)| ==> '&' !in QueryParts(vpa, name, amount)[i]
  {
    var parts := QueryParts(vpa, name, amount);
    forall i | 0 <= i < |parts| ensures '&' !in parts[i] {
      if i == 0 {
        NoAmpersandIn("pa", vpa);
      } else if i == 1 {
        NoAmpersandIn("pn", name);
      } else if i == 2 {
        NoAmpersandIn("cu", "INR");
      } else {
        NoAmpersandIn("am", amount.value);
      }
    }
  }

  lemma NoAmpersandIn(key: string, value: string)
    requires '&' !in key && '&' !in value
    ensures '&' !in Param(key, value)
  {
  }

  /** The URI carries exactly the parameters pa, pn, cu and (when given) am, in that order:
      the trimmed VPA, the encoded trimmed name, INR and the amount as given. Neither the VPA
      nor the amount is encoded, so this holds when they contain no `&`. */
  lemma UpiStringParams(payeeVpa: string, payeeName: string, amount: Option<string>)
    requires '&' !in Trim(payeeVpa)
    requires amount.Some? ==> '&' !in amount.value
    ensures Params(UpiString(payeeVpa, payeeName, amount)) ==
      [("pa", Trim(payeeVpa)), ("pn", UriEncode(Trim(payeeName))), ("cu", "INR")] +
      (if amount.Some? && |amount.value| > 0 then [("am", amount.value)] else [])
  {
    EncodedIsSafe(Trim(payeeName));
    NoAmpersand(UriEncode(Trim(payeeName)));
    UpiUriIsJoin(Trim(payeeVpa), UriEncode(Trim(payeeName)), amount);
    QueryParams(Trim(payeeVpa), UriEncode(Trim(payeeName)), amount);
  }

  lemma NoAmpersand(s: string)
    requires forall i :: 0 <= i < |s| ==> IsUnreserved(s[i]) || s[i] == '%'
    ensures '&' !in s
  {
  }

  /** A scanner of the QR code gets the payee name back exactly as trimmed, whatever characters
      it holds. */
  lemma PayeeNameRecovered(payeeVpa: string, payeeName: string, amount: Option<string>)
    requires '&' !in Trim(payeeVpa)
    requires amount.Some? ==> '&' !in amount.value
    ensures var p := Params(UpiString(payeeVpa, payeeName, amount));
      |p| >= 3 && p[1].0 == "pn" && UriDecode(p[1].1) == Some(Trim(payeeName))
  {
    UpiStringParams(payeeVpa, payeeName, amount);
    UriDecodeEncode(Trim(payeeName));
  }

  /** The URI spelled out: the trimmed VPA right after the scheme, then the encoded name, the
      currency and the optional amount. */
  lemma UpiStringTemplate(payeeVpa: string, payeeName: string, amount: Option<string>)
    ensures UpiString(payeeVpa, payeeName, amount) ==
      "upi://pay?pa=" + Trim(payeeVpa) + "&pn=" + UriEncode(Trim(payeeName)) + "&cu=INR" +
      (if amount.Some? && |amount.value| > 0 then "&am=" + amount.value else "")
  {
    UpiUriTemplate(Trim(payeeVpa), UriEncode(Trim(payeeName)), amount);
  }

  lemma UpiUriTemplate(vpa: string, name: string, amount: Option<string>)
    ensures UpiUri(vpa, name, amount) ==
      "upi://pay?pa=" + vpa + "&pn=" + name + "&cu=INR" +
      (if amount.Some? && |amount.value| > 0 then "&am=" + amount.value else "")
  {
    ParamAfter(UpiPrefix, "pa", vpa);
    ParamAfter("&", "pn", name);
    ParamAfter("&", "cu", "INR");
    TemplateLiterals();
    var head := UpiPrefix + Param("pa", vpa) + "&" + Param("pn", name) + "&" + Param("cu", "INR");
    assert head == "upi://pay?pa=" + vpa + "&pn=" + name + "&cu=INR";
    if amount.Some? {
      ParamAfter("&", "am", amount.value);
    }
  }

  /** `before + Param(key, value)` read as one literal prefix followed by the value. */
  lemma ParamAfter(before: string, key: string, value: string)
    ensures before + Param(key, value) == (before + key + "=") + value
  {
  }

  lemma TemplateLiterals()
    ensures UpiPrefix + "pa" + "=" == "upi://pay?pa="
    ensures "&" + "pn" + "=" == "&pn="
    ensures ("&" + "cu" + "=") + "INR" == "&cu=INR"
    ensures "&" + "am" + "=" == "&am="
  {
  }

  /** Without an amount the URI ends with the currency, and the amount is the only part that
      depends on it. */
  lemma NoAmountEndsWithCurrency(payeeVpa: string, payeeName: string, amount: Option<string>)
    requires amount.None? || amount.value == ""
    ensures var r := UpiString(payeeVpa, payeeName, amount);
      r[|r| - 7..] == "&cu=INR" && r == UpiString(payeeVpa, payeeName, None)
  {
    UpiStringTemplate(payeeVpa, payeeName, amount);
    var head := "upi://pay?pa=" + Trim(payeeVpa) + "&pn=" + UriEncode(Trim(payeeName));
    var r := UpiString(payeeVpa, payeeName, amount);
    assert r == head + "&cu=INR";
    assert r[|head|..] == "&cu=INR";
  }

  // ---------------------------------------------------------------- the QR bitmap

  /** The encoder's output: `bits[y][x]` is the module at column `x`, row `y`. */
  datatype BitMatrix = BitMatrix(width: nat, height: nat, bits: seq<seq<bool>>)

  predicate WellFormed(m: BitMatrix) {
    |m.bits| == m.height && forall y :: 0 <= y < m.height ==> |m.bits[y]| == m.width
  }

  /** `Color.BLACK` and `Color.WHITE` as signed 32-bit ARGB values. */
  const Black := -16777216
  const White := -1

  function ColorOf(bit: bool): int {
    if bit then Black else White
  }

  /** An RGB_565 bitmap: `pixels[y * width + x]` is the colour at column `x`, row `y`. */
  datatype Bitmap = Bitmap(width: nat, height: nat, pixels: seq<int>)

  lemma RowBound(y: nat, x: nat, w: nat, h: nat)
    requires y < h && x < w
    ensures y * w + x < h * w
  {
    assert (y + 1) * w <= h * w;
  }

  /** The pixel dump: every module becomes a black or white pixel, row after row. */
  method Pixels(m: BitMatrix) returns (pixels: seq<int>)
    requires WellFormed(m)
    ensures |pixels| == m.width * m.height
    ensures forall y, x :: 0 <= y < m.height && 0 <= x < m.width ==>
      RowMajor(y, x, m.width) < |pixels| && pixels[RowMajor(y, x, m.width)] == ColorOf(m.bits[y][x])
  {
    var w := m.width;
    var h := m.height;
    pixels := [];
    var y := 0;
    while y < h
      invariant 0 <= y <= h
      invariant |pixels| == y * w
      invariant forall yy, x :: 0 <= yy < y && 0 <= x < w ==>
        RowMajor(yy, x, w) < |pixels| && pixels[RowMajor(yy, x, w)] == ColorOf(m.bits[yy][x])
    {
      var x := 0;
      ghost var before := pixels;
      while x < w
        invariant 0 <= x <= w
        invariant |pixels| == y * w + x
        invariant pixels[..y * w] == before
        invariant forall xx :: 0 <= xx < x ==> pixels[RowMajor(y, xx, w)] == ColorOf(m.bits[y][xx])
      {
        pixels := pixels + [ColorOf(m.bits[y][x])];
        x := x + 1;
      }
      forall yy, xx | 0 <= yy < y + 1 && 0 <= xx < w
        ensures RowMajor(yy, xx, w) < |pixels| && pixels[RowMajor(yy, xx, w)] == ColorOf(m.bits[yy][xx])
      {
        RowBound(yy, xx, w, y + 1);
        if yy < y {
          RowBound(yy, xx, w, y);
          assert pixels[RowMajor(yy, xx, w)] == before[RowMajor(yy, xx, w)];
        }
      }
      assert (y + 1) * w == y * w + w;
      y := y + 1;
    }
  }

  function RowMajor(y: nat, x: nat, w: nat): nat {
    y * w + x
  }

  /** `generateQrCode(content, width, height)`: no bitmap for empty content or when the
      encoder throws; otherwise the bitmap has the matrix's dimensions and its modules as
      pixels. */
  method GenerateQrCode(content: string, encoded: Option<BitMatrix>) returns (r: Option<Bitmap>)
    requires encoded.Some? ==> WellFormed(encoded.value)
    ensures r.Some? <==> |content| > 0 && encoded.Some?
    ensures r.Some? ==>
      && r.value.width == encoded.value.width && r.value.height == encoded.value.height
      && |r.value.pixels| == r.value.width * r.value.height
      && forall y, x :: 0 <= y < r.value.height && 0 <= x < r.value.width ==>
           RowMajor(y, x, r.value.width) < |r.value.pixels| &&
           r.value.pixels[RowMajor(y, x, r.value.width)] == ColorOf(encoded.value.bits[y][x])
  {
    if |content| == 0 {
      return None;
    }
    match encoded {
      case None =>
        return None;
      case Some(m) =>
        var pixels := Pixels(m);
        return Some(Bitmap(m.width, m.height, pixels));
    }
  }
}
