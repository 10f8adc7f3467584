/** The application/x-www-form-urlencoded serialiser that Python's
    `urllib.parse.urlencode` applies to a list of key/value pairs, with the
    default `quote_via=quote_plus` and `safe=''`: each key and value is UTF-8
    encoded, every byte outside the unreserved set of section 2.3 of RFC 3986
    (as CPython's `quote_plus` implements it: `~` kept, `*` escaped) becomes
    `%XX` with upper-case hex digits, except the space, which becomes `+`;
    pairs are written `key=value` and joined with `&`. Because nothing is
    marked safe, `/` is escaped too.

    The decoding half (`DecodeBytes`, `UnquotePlus`, `Parse`) is this
    module's own strict parser, the partner the serialiser is checked
    against: split on `&`, then on the first `=`, then `+` to space and `%XX`
    to a byte, then UTF-8 decoding. A malformed escape is an error, not
    passed through, and an empty segment reads as the pair `("", "")`. */
module FormUrlencoded {
  import opened Wrappers
  import Utf8
  type Byte = Utf8.Byte

  /** A key/value pair in the order Python's `urlencode` receives it. */
  type Param = (string, string)

  /** The unreserved characters of section 2.3 of RFC 3986, the only
      characters `quote_plus(s, safe='')` leaves as they are. */
  predicate IsUnreservedChar(c: char) {
    || 'A' <= c <= 'Z'
    || 'a' <= c <= 'z'
    || '0' <= c <= '9'
    || c == '-' || c == '.' || c == '_' || c == '~'
  }

  predicate IsUnreserved(b: Byte) {
    IsUnreservedChar(b as char)
  }

  /** A byte the serialiser must write as a `%XX` triple. */
  predicate NeedsEscape(b: Byte) {
    !IsUnreserved(b) && b != 0x20
  }

  predicate IsHexDigit(c: char) {
    '0' <= c <= '9' || 'A' <= c <= 'F' || 'a' <= c <= 'f'
  }

  predicate IsUpperHexDigit(c: char) {
    '0' <= c <= '9' || 'A' <= c <= 'F'
  }

  /** The upper-case hex digit for `d`, as Python's `'%{:02X}'` writes it. */
  function HexDigit(d: int): (c: char)
    requires 0 <= d < 16
    ensures IsUpperHexDigit(c)
  {
    if d < 10 then ('0' as int + d) as char else ('A' as int + d - 10) as char
  }

  /** The value of a hex digit of either case. */
  function HexValue(c: char): (d: int)
    requires IsHexDigit(c)
    ensures 0 <= d < 16
  {
    if '0' <= c <= '9' then c as int - '0' as int
    else if 'A' <= c <= 'F' then c as int - 'A' as int + 10
    else c as int - 'a' as int + 10
  }

  lemma HexValueOfDigit(d: int)
    requires 0 <= d < 16
    ensures HexValue(HexDigit(d)) == d
  {
  }

  lemma HexDigitOfValue(c: char)
    requires IsUpperHexDigit(c)
    ensures HexDigit(HexValue(c)) == c
  {
  }

  /** How one byte is written: itself when unreserved, `+` for a space,
      `%XX` otherwise. */
  function EncodeByte(b: Byte): (s: string)
    ensures |s| == 1 || |s| == 3
    ensures |s| == 1 <==> !NeedsEscape(b)
  {
    if IsUnreserved(b) then [b as char]
    else if b == 0x20 then "+"
    else ['%', HexDigit(b / 16), HexDigit(b % 16)]
  }

  /** Percent-encoding of a byte sequence, space as `+`
      (`quote_from_bytes` with `safe=' '` followed by `' '` to `'+'`). */
  function EncodeBytes(bs: seq<Byte>): (s: string)
    ensures |bs| <= |s| <= 3 * |bs|
  {
    if |bs| == 0 then "" else EncodeByte(bs[0]) + EncodeBytes(bs[1..])
  }

  /** `urllib.parse.quote_plus(s, safe='')`: always in the one spelling
      `IsCanonical` describes. */
  function QuotePlus(s: string): (e: string)
    ensures IsCanonical(e)
  {
    EncodeBytesCanonical(Utf8.Encode(s));
    EncodeBytes(Utf8.Encode(s))
  }

  lemma {:induction false} EncodeBytesAppend(a: seq<Byte>, b: seq<Byte>)
    ensures EncodeBytes(a + b) == EncodeBytes(a) + EncodeBytes(b)
  {
    if |a| > 0 {
      assert (a + b)[1..] == a[1..] + b;
      EncodeBytesAppend(a[1..], b);
    } else {
      assert a + b == b;
    }
  }

  /** `quote_plus` works character by character: quoting a concatenation
      concatenates the quotings. */
  lemma QuotePlusAppend(s: string, t: string)
    ensures QuotePlus(s + t) == QuotePlus(s) + QuotePlus(t)
  {
    Utf8.EncodeAppend(s, t);
    EncodeBytesAppend(Utf8.Encode(s), Utf8.Encode(t));
  }

  /** A string of unreserved characters is left exactly as it is. */
  lemma {:induction false} QuotePlusUnreserved(s: string)
    requires forall i :: 0 <= i < |s| ==> IsUnreservedChar(s[i])
    ensures QuotePlus(s) == s
  {
    if |s| > 0 {
      QuotePlusUnreserved(s[1..]);
      assert s == [s[0]] + s[1..];
      QuotePlusAppend([s[0]], s[1..]);
      assert Utf8.Encode([s[0]]) == [s[0] as int];
    }
  }

  /** A one-character ASCII string is quoted as its single byte. */
  lemma QuoteOneAscii(c: char)
    requires c as int < 0x80
    ensures QuotePlus([c]) == EncodeByte(c as int)
  {
    assert Utf8.Encode([c]) == [c as int];
  }

  /** A space is written `+` and the words around it are kept: with
      `native` and `title`, `quote_plus("native title")` is `native+title`. */
  lemma SpaceBetweenWords(w1: string, w2: string)
    requires forall i :: 0 <= i < |w1| ==> IsUnreservedChar(w1[i])
    requires forall i :: 0 <= i < |w2| ==> IsUnreservedChar(w2[i])
    ensures QuotePlus(w1 + " " + w2) == w1 + "+" + w2
  {
    QuotePlusUnreserved(w1);
    QuotePlusUnreserved(w2);
    QuoteOneAscii(' ');
    QuotePlusAppend(w1, " ");
    QuotePlusAppend(w1 + " ", w2);
  }

  /** The form-urldecoding of one component: `+` is a space, `%XX` (either
      case) is a byte, any other ASCII character stands for itself. A `%`
      not followed by two hex digits and a non-ASCII character are errors. */
  function DecodeBytes(s: string): (r: Result<seq<Byte>, string>)
    decreases |s|
  {
    if |s| == 0 then Success([])
    else if s[0] == '+' then
      var rest :- DecodeBytes(s[1..]);
      Success([0x20] + rest)
    else if s[0] == '%' then
      if |s| >= 3 && IsHexDigit(s[1]) && IsHexDigit(s[2]) then
        var rest :- DecodeBytes(s[3..]);
        Success([HexValue(s[1]) * 16 + HexValue(s[2])] + rest)
      else Failure("malformed percent-escape")
    else if s[0] as int < 0x80 then
      var rest :- DecodeBytes(s[1..]);
      Success([s[0] as int] + rest)
    else Failure("non-ASCII character")
  }

  /** A left inverse of `QuotePlus`: it undoes quoting, but it also accepts
      strings `QuotePlus` never writes, such as lower-case `%2f`. */
  function UnquotePlus(s: string): (r: Result<string, string>)
  {
    var bs :- DecodeBytes(s);
    Utf8.Decode(bs)
  }

  /** The strings `EncodeBytes` can produce: unreserved characters, `+`,
      and `%XX` triples with upper-case digits that stand for a byte that
      has to be escaped. */
  predicate IsCanonical(s: string)
    decreases |s|
  {
    if |s| == 0 then true
    else if s[0] == '%' then
      && |s| >= 3 && IsUpperHexDigit(s[1]) && IsUpperHexDigit(s[2])
      && NeedsEscape(HexValue(s[1]) * 16 + HexValue(s[2]))
      && IsCanonical(s[3..])
    else
      (IsUnreservedChar(s[0]) || s[0] == '+') && IsCanonical(s[1..])
  }

  /** Decoding one encoded byte followed by anything decodable. */
  lemma DecodeEncodeByte(b: Byte, t: string)
    requires DecodeBytes(t).Success?
    ensures DecodeBytes(EncodeByte(b) + t) == Success([b] + DecodeBytes(t).value)
  {
    var e := EncodeByte(b);
    if NeedsEscape(b) {
      DecodeEscapedByte(b, t);
    } else {
      assert e == [if b == 0x20 then '+' else b as char];
      assert (e + t)[1..] == t;
    }
  }

  lemma DecodeEscapedByte(b: Byte, t: string)
    requires NeedsEscape(b) && DecodeBytes(t).Success?
    ensures DecodeBytes(EncodeByte(b) + t) == Success([b] + DecodeBytes(t).value)
  {
    var hi, lo := HexDigit(b / 16), HexDigit(b % 16);
    HexValueOfDigit(b / 16);
    HexValueOfDigit(b % 16);
    assert HexValue(hi) * 16 + HexValue(lo) == b;
    var s := ['%', hi, lo] + t;
    assert s[3..] == t;
  }

  /** Percent-decoding undoes percent-encoding, for every byte sequence. */
  lemma {:induction false} DecodeEncodeBytes(bs: seq<Byte>)
    ensures DecodeBytes(EncodeBytes(bs)) == Success(bs)
  {
    if |bs| > 0 {
      DecodeEncodeBytes(bs[1..]);
      DecodeEncodeByte(bs[0], EncodeBytes(bs[1..]));
      assert [bs[0]] + bs[1..] == bs;
    }
  }

  /** The model's strict `UnquotePlus` undoes `QuotePlus` for every string. */
  lemma UnquoteQuote(s: string)
    ensures UnquotePlus(QuotePlus(s)) == Success(s)
  {
    DecodeEncodeBytes(Utf8.Encode(s));
    Utf8.DecodeEncode(s);
  }

  lemma CanonicalCons(e: string, t: string)
    requires |e| == 1 || |e| == 3
    requires IsCanonical(t)
    requires |e| == 1 ==> IsUnreservedChar(e[0]) || e[0] == '+'
    requires |e| == 3 ==>
      && e[0] == '%' && IsUpperHexDigit(e[1]) && IsUpperHexDigit(e[2])
      && NeedsEscape(HexValue(e[1]) * 16 + HexValue(e[2]))
    ensures IsCanonical(e + t)
  {
    assert (e + t)[|e|..] == t;
  }

  /** Every encoding is canonical. */
  lemma {:induction false} EncodeBytesCanonical(bs: seq<Byte>)
    ensures IsCanonical(EncodeBytes(bs))
  {
    if |bs| > 0 {
      var b := bs[0];
      EncodeBytesCanonical(bs[1..]);
      if NeedsEscape(b) {
        HexValueOfDigit(b / 16);
        HexValueOfDigit(b % 16);
      }
      CanonicalCons(EncodeByte(b), EncodeBytes(bs[1..]));
    }
  }

  /** The decoder accepts spellings `quote_plus` never writes: `%20`
      decodes like `+`, and lower-case `%2f` like `%2F`; neither is
      canonical. */
  lemma OtherSpellings()
    ensures DecodeBytes("%20") == DecodeBytes("+") == Success([0x20])
    ensures DecodeBytes("%2f") == DecodeBytes("%2F") == Success([0x2F])
    ensures !IsCanonical("%20") && !IsCanonical("%2f") && IsCanonical("+") && IsCanonical("%2F")
  {
    assert "%20"[3..] == "%2f"[3..] == "%2F"[3..] == "+"[1..] == "";
    assert HexValue('2') * 16 + HexValue('f') == HexValue('2') * 16 + HexValue('F') == 0x2F;
    assert HexValue('2') * 16 + HexValue('0') == 0x20;
    var none: seq<Byte> := [];
    assert DecodeBytes("") == Success(none);
    assert [0x20 as Byte] + none == [0x20];
    assert [0x2F as Byte] + none == [0x2F];
  }

  /** Every canonical string decodes, and encoding the result gives the same
      string back: canonical strings are exactly the encodings. */
  lemma {:induction false} EncodeDecodeCanonical(s: string)
    requires IsCanonical(s)
    ensures DecodeBytes(s).Success?
    ensures EncodeBytes(DecodeBytes(s).value) == s
    decreases |s|
  {
    if |s| > 0 {
      if s[0] == '%' {
        EncodeDecodeCanonical(s[3..]);
        EscapeRoundTrip(s, DecodeBytes(s[3..]).value);
      } else {
        EncodeDecodeCanonical(s[1..]);
        SingleRoundTrip(s, DecodeBytes(s[1..]).value);
      }
    }
  }

  /** A canonical `%XX` head in front of a round-tripping tail. */
  lemma EscapeRoundTrip(s: string, rest: seq<Byte>)
    requires |s| >= 3 && s[0] == '%' && IsUpperHexDigit(s[1]) && IsUpperHexDigit(s[2])
    requires NeedsEscape(HexValue(s[1]) * 16 + HexValue(s[2]))
    requires DecodeBytes(s[3..]) == Success(rest) && EncodeBytes(rest) == s[3..]
    ensures DecodeBytes(s) == Success([HexValue(s[1]) * 16 + HexValue(s[2])] + rest)
    ensures EncodeBytes([HexValue(s[1]) * 16 + HexValue(s[2])] + rest) == s
  {
    DecodeEscapeHead(s);
    EncodeEscapeHead(s, rest);
  }

  lemma DecodeEscapeHead(s: string)
    requires |s| >= 3 && s[0] == '%' && IsUpperHexDigit(s[1]) && IsUpperHexDigit(s[2])
    requires DecodeBytes(s[3..]).Success?
    ensures DecodeBytes(s) == Success([HexValue(s[1]) * 16 + HexValue(s[2])] + DecodeBytes(s[3..]).value)
  {
  }

  lemma EncodeEscapeHead(s: string, rest: seq<Byte>)
    requires |s| >= 3 && s[0] == '%' && IsUpperHexDigit(s[1]) && IsUpperHexDigit(s[2])
    requires NeedsEscape(HexValue(s[1]) * 16 + HexValue(s[2]))
    requires EncodeBytes(rest) == s[3..]
    ensures EncodeBytes([HexValue(s[1]) * 16 + HexValue(s[2])] + rest) == s
  {
    EncodeEscape(s[1], s[2]);
    EncodeBytesCons(HexValue(s[1]) * 16 + HexValue(s[2]), rest);
    assert s == ['%', s[1], s[2]] + s[3..];
  }

  /** An upper-case `%XX` triple standing for a byte that must be escaped is
      exactly how that byte is written. */
  lemma EncodeEscape(hi: char, lo: char)
    requires IsUpperHexDigit(hi) && IsUpperHexDigit(lo)
    requires NeedsEscape(HexValue(hi) * 16 + HexValue(lo))
    ensures EncodeByte(HexValue(hi) * 16 + HexValue(lo)) == ['%', hi, lo]
  {
    var h, l := HexValue(hi), HexValue(lo);
    assert (h * 16 + l) / 16 == h && (h * 16 + l) % 16 == l;
    HexDigitOfValue(hi);
    HexDigitOfValue(lo);
  }

  /** `EncodeBytesAppend` with a one-byte head. */
  lemma EncodeBytesCons(b: Byte, rest: seq<Byte>)
    ensures EncodeBytes([b] + rest) == EncodeByte(b) + EncodeBytes(rest)
  {
    EncodeBytesAppend([b], rest);
    assert EncodeBytes([b]) == EncodeByte(b) + EncodeBytes([]);
  }

  /** A canonical one-character head (`+` or unreserved) in front of a
      round-tripping tail. */
  lemma SingleRoundTrip(s: string, rest: seq<Byte>)
    requires |s| >= 1 && (IsUnreservedChar(s[0]) || s[0] == '+')
    requires DecodeBytes(s[1..]) == Success(rest) && EncodeBytes(rest) == s[1..]
    ensures DecodeBytes(s) == Success([if s[0] == '+' then 0x20 else s[0] as int] + rest)
    ensures EncodeBytes([if s[0] == '+' then 0x20 else s[0] as int] + rest) == s
  {
    var b: Byte := if s[0] == '+' then 0x20 else s[0] as int;
    assert EncodeByte(b) == [s[0]];
    EncodeBytesCons(b, rest);
    assert s == [s[0]] + s[1..];
  }

  /** Canonical strings are exactly the strings `EncodeBytes` produces. */
  lemma CanonicalIffEncoded(s: string)
    ensures IsCanonical(s) <==> exists bs :: EncodeBytes(bs) == s
  {
    if IsCanonical(s) {
      EncodeDecodeCanonical(s);
      var bs := DecodeBytes(s).value;
      assert EncodeBytes(bs) == s;
    }
    forall bs | EncodeBytes(bs) == s
      ensures IsCanonical(s)
    {
      EncodeBytesCanonical(bs);
    }
  }

  /** A canonical string holds only unreserved characters, `+` and `%`;
      in particular no `&`, no `=` and no space, so it never breaks the pair
      and key/value separators. */
  lemma {:induction false} CanonicalChars(s: string)
    requires IsCanonical(s)
    ensures forall i :: 0 <= i < |s| ==> IsUnreservedChar(s[i]) || s[i] == '+' || s[i] == '%'
    decreases |s|
  {
    if |s| > 0 {
      var k := if s[0] == '%' then 3 else 1;
      CanonicalChars(s[k..]);
      assert forall i :: k <= i < |s| ==> s[i] == s[k..][i - k];
    }
  }

  /** `quote_plus(s, safe='')` yields only unreserved characters, `+` and
      well-formed `%XX` triples, hence never `&`, `=` or a space. */
  lemma QuotePlusCanonical(s: string)
    ensures IsCanonical(QuotePlus(s))
    ensures forall i :: 0 <= i < |QuotePlus(s)| ==>
      QuotePlus(s)[i] != '&' && QuotePlus(s)[i] != '=' && QuotePlus(s)[i] != ' '
  {
    EncodeBytesCanonical(Utf8.Encode(s));
    CanonicalChars(QuotePlus(s));
  }

  /** One pair as `urlencode` writes it. */
  function EncodePair(p: Param): (r: string) {
    QuotePlus(p.0) + "=" + QuotePlus(p.1)
  }

  /** With nothing marked safe, `/` is escaped: a key and a `/`-led value
      made of unreserved words are written `key=%2Fword`; the pair
      `("meta", "/au")` is written `meta=%2Fau`. */
  lemma SlashValuePair(key: string, w: string)
    requires forall i :: 0 <= i < |key| ==> IsUnreservedChar(key[i])
    requires forall i :: 0 <= i < |w| ==> IsUnreservedChar(w[i])
    ensures EncodePair((key, "/" + w)) == key + "=%2F" + w
  {
    assert QuotePlus(key) == key by {
      QuotePlusUnreserved(key);
    }
    assert QuotePlus("/") == "%2F" by {
      QuoteOneAscii('/');
      assert EncodeByte(0x2F) == "%2F";
    }
    assert QuotePlus("/" + w) == "%2F" + w by {
      QuotePlusUnreserved(w);
      QuotePlusAppend("/", w);
    }
  }

  /** A path of unreserved words with every `/` written `%2F`: the
      spelling of a database code such as `au/cases/cth/HCA`. */
  function EscapeSlashes(s: string): (r: string)
    ensures |s| <= |r| <= 3 * |s|
  {
    if |s| == 0 then ""
    else (if s[0] == '/' then "%2F" else [s[0]]) + EscapeSlashes(s[1..])
  }

  /** A string of unreserved characters and `/` is quoted by writing each
      `/` as `%2F` and keeping everything else. */
  lemma {:induction false} QuotePlusPath(s: string)
    requires forall i :: 0 <= i < |s| ==> IsUnreservedChar(s[i]) || s[i] == '/'
    ensures QuotePlus(s) == EscapeSlashes(s)
  {
    if |s| > 0 {
      QuotePlusPath(s[1..]);
      assert s == [s[0]] + s[1..];
      QuotePlusAppend([s[0]], s[1..]);
      QuoteOneAscii(s[0]);
      if s[0] == '/' {
        assert EncodeByte(0x2F) == "%2F";
      } else {
        assert EncodeByte(s[0] as int) == [s[0]];
      }
    }
  }

  /** A pair whose key is an unreserved word and whose value is a path is
      written `key=` and the path with each `/` as `%2F`, as for
      `("mask_path", "au/cases/cth/HCA")`. */
  lemma PathValuePair(key: string, path: string)
    requires forall i :: 0 <= i < |key| ==> IsUnreservedChar(key[i])
    requires forall i :: 0 <= i < |path| ==> IsUnreservedChar(path[i]) || path[i] == '/'
    ensures EncodePair((key, path)) == key + "=" + EscapeSlashes(path)
  {
    QuotePlusUnreserved(key);
    QuotePlusPath(path);
  }

  /** `urllib.parse.urlencode(params)`: the encoded pairs joined with `&`. */
  function Serialize(ps: seq<Param>): (q: string)
    ensures |ps| == 0 <==> |q| == 0
  {
    if |ps| == 0 then ""
    else if |ps| == 1 then EncodePair(ps[0])
    else EncodePair(ps[0]) + "&" + Serialize(ps[1..])
  }

  /** A character that may appear in a serialised query string. */
  predicate IsQueryChar(c: char) {
    IsUnreservedChar(c) || c == '+' || c == '%' || c == '&' || c == '='
  }

  lemma EncodePairChars(p: Param)
    ensures forall i :: 0 <= i < |EncodePair(p)| ==> IsQueryChar(EncodePair(p)[i])
  {
    var k, v := QuotePlus(p.0), QuotePlus(p.1);
    QuotePlusCanonical(p.0);
    QuotePlusCanonical(p.1);
    CanonicalChars(k);
    CanonicalChars(v);
    JoinKeeps(k, '=', v, IsQueryChar);
  }

  /** A property every character of `a`, `b` and the separator has, every
      character of `a + [sep] + b` has. */
  lemma JoinKeeps(a: string, sep: char, b: string, P: char -> bool)
    requires P(sep)
    requires forall i :: 0 <= i < |a| ==> P(a[i])
    requires forall i :: 0 <= i < |b| ==> P(b[i])
    ensures forall i :: 0 <= i < |a + [sep] + b| ==> P((a + [sep] + b)[i])
  {
    var q := a + [sep] + b;
    assert forall i :: |a| < i < |q| ==> q[i] == b[i - |a| - 1];
  }

  /** A serialised parameter list is made of unreserved characters, `+`,
      `%XX` escapes and the two separators `&` and `=`, nothing else. */
  lemma {:induction false} SerializeChars(ps: seq<Param>)
    ensures forall i :: 0 <= i < |Serialize(ps)| ==> IsQueryChar(Serialize(ps)[i])
  {
    if |ps| > 0 {
      EncodePairChars(ps[0]);
      if |ps| > 1 {
        SerializeChars(ps[1..]);
        JoinKeeps(EncodePair(ps[0]), '&', Serialize(ps[1..]), IsQueryChar);
      }
    }
  }

  /** The position of the first `c` in `s`, or `|s|` when there is none. */
  function IndexOf(s: string, c: char): (i: nat)
    ensures i <= |s|
    ensures i < |s| ==> s[i] == c
    ensures forall j :: 0 <= j < i ==> s[j] != c
  {
    if |s| == 0 then 0
    else if s[0] == c then 0
    else 1 + IndexOf(s[1..], c)
  }

  /** One `key=value` segment: split on the first `=` (a segment with none
      is a key with an empty value), then decode both sides. */
  function ParsePair(seg: string): (r: Result<Param, string>) {
    var j := IndexOf(seg, '=');
    var key :- UnquotePlus(seg[..j]);
    var value :- if j == |seg| then Success("") else UnquotePlus(seg[j + 1..]);
    Success((key, value))
  }

  /** A non-empty query string as `&`-separated segments. */
  function ParseSegments(q: string): (r: Result<seq<Param>, string>)
    ensures r.Success? ==> |r.value| > 0
    decreases |q|
  {
    var i := IndexOf(q, '&');
    var p :- ParsePair(q[..i]);
    if i == |q| then Success([p])
    else
      var rest :- ParseSegments(q[i + 1..]);
      Success([p] + rest)
  }

  /** The form-urldecoding of a query string into its pairs, in order. */
  function Parse(q: string): (r: Result<seq<Param>, string>) {
    if |q| == 0 then Success([]) else ParseSegments(q)
  }

  lemma EncodePairShape(p: Param)
    ensures IndexOf(EncodePair(p), '=') == |QuotePlus(p.0)|
    ensures forall i :: 0 <= i < |EncodePair(p)| ==> EncodePair(p)[i] != '&'
  {
    var k, v := QuotePlus(p.0), QuotePlus(p.1);
    QuotePlusCanonical(p.0);
    QuotePlusCanonical(p.1);
    IndexOfJoin(k, '=', v);
    JoinKeeps(k, '=', v, x => x != '&');
  }

  /** The first `c` in `a + [c] + b` is the separator, when `a` has none. */
  lemma IndexOfJoin(a: string, c: char, b: string)
    requires forall i :: 0 <= i < |a| ==> a[i] != c
    ensures IndexOf(a + [c] + b, c) == |a|
  {
    var q := a + [c] + b;
    assert q[|a|] == c;
    assert forall j :: 0 <= j < |a| ==> q[j] == a[j];
  }

  /** Parsing one encoded pair gives the pair back. */
  lemma ParseEncodePair(p: Param)
    ensures ParsePair(EncodePair(p)) == Success(p)
  {
    var k, v := QuotePlus(p.0), QuotePlus(p.1);
    var e := EncodePair(p);
    EncodePairShape(p);
    assert e[..|k|] == k;
    assert e[|k| + 1..] == v;
    UnquoteQuote(p.0);
    UnquoteQuote(p.1);
  }

  /** Splitting a serialisation on `&` and `=` and decoding every component
      gives back the pairs: the pair count, their order, and every key and
      value survive. */
  lemma {:induction false} ParseSerialize(ps: seq<Param>)
    ensures Parse(Serialize(ps)) == Success(ps)
  {
    if |ps| > 0 {
      ParseSegmentsSerialize(ps);
    }
  }

  lemma {:induction false} ParseSegmentsSerialize(ps: seq<Param>)
    requires |ps| > 0
    ensures ParseSegments(Serialize(ps)) == Success(ps)
  {
    if |ps| == 1 {
      ParseSegmentsOne(ps[0]);
      assert ps == [ps[0]];
    } else {
      var e, rest := EncodePair(ps[0]), Serialize(ps[1..]);
      ParseSegmentsSerialize(ps[1..]);
      assert Serialize(ps) == e + "&" + rest by {
        SerializeCons(ps);
      }
      assert ParseSegments(e + "&" + rest) == Success([ps[0]] + ps[1..]) by {
        ParseSegmentsConsPair(ps[0], rest);
      }
      assert [ps[0]] + ps[1..] == ps by {
        ConsSplit(ps);
      }
    }
  }

  lemma ConsSplit<T>(s: seq<T>)
    requires |s| > 0
    ensures [s[0]] + s[1..] == s
  {
  }

  lemma SerializeCons(ps: seq<Param>)
    requires |ps| > 1
    ensures Serialize(ps) == EncodePair(ps[0]) + "&" + Serialize(ps[1..])
  {
  }

  /** An encoded pair on its own is a single segment. */
  lemma ParseSegmentsOne(p: Param)
    ensures ParseSegments(EncodePair(p)) == Success([p])
  {
    EncodePairShape(p);
    ParseEncodePair(p);
    ParseSegmentsSingle(EncodePair(p));
  }

  /** An encoded pair, `&`, then a parsable rest. */
  lemma ParseSegmentsConsPair(p: Param, rest: string)
    requires ParseSegments(rest).Success?
    ensures ParseSegments(EncodePair(p) + "&" + rest) == Success([p] + ParseSegments(rest).value)
  {
    EncodePairShape(p);
    ParseEncodePair(p);
    ParseSegmentsCons(EncodePair(p), rest);
  }

  /** A query string free of `&` is a single segment. */
  lemma ParseSegmentsSingle(e: string)
    requires forall i :: 0 <= i < |e| ==> e[i] != '&'
    requires ParsePair(e).Success?
    ensures ParseSegments(e) == Success([ParsePair(e).value])
  {
    IndexOfAbsent(e, '&');
    assert e[..|e|] == e;
  }

  lemma IndexOfAbsent(s: string, c: char)
    requires forall i :: 0 <= i < |s| ==> s[i] != c
    ensures IndexOf(s, c) == |s|
  {
  }

  /** A first segment free of `&` is parsed on its own, then the rest. */
  lemma ParseSegmentsCons(e: string, rest: string)
    requires forall i :: 0 <= i < |e| ==> e[i] != '&'
    requires ParsePair(e).Success? && ParseSegments(rest).Success?
    ensures ParseSegments(e + "&" + rest) == Success([ParsePair(e).value] + ParseSegments(rest).value)
  {
    var q := e + "&" + rest;
    assert q[|e|] == '&';
    assert IndexOf(q, '&') == |e|;
    assert q[..|e|] == e;
    assert q[|e| + 1..] == rest;
  }

  /** One `key=value` segment as `urlencode` spells it: an `=`, with a
      canonical encoding on either side of the first one. */
  predicate IsCanonicalPair(seg: string) {
    var j := IndexOf(seg, '=');
    j < |seg| && IsCanonical(seg[..j]) && IsCanonical(seg[j + 1..])
  }

  /** A non-empty query string whose `&`-segments are all canonical pairs. */
  predicate IsCanonicalSegments(q: string)
    decreases |q|
  {
    var i := IndexOf(q, '&');
    IsCanonicalPair(q[..i]) && (i < |q| ==> IsCanonicalSegments(q[i + 1..]))
  }

  /** The query strings `urlencode` can write: the spelling with `+` for a
      space and upper-case `%XX` only where escaping is needed. */
  predicate IsCanonicalQuery(q: string) {
    |q| == 0 || IsCanonicalSegments(q)
  }

  lemma EncodePairCanonical(p: Param)
    ensures IsCanonicalPair(EncodePair(p))
  {
    var k, v := QuotePlus(p.0), QuotePlus(p.1);
    var e := EncodePair(p);
    EncodePairShape(p);
    QuotePlusCanonical(p.0);
    QuotePlusCanonical(p.1);
    assert e[..|k|] == k;
    assert e[|k| + 1..] == v;
  }

  lemma CanonicalSegmentsCons(e: string, rest: string)
    requires forall i :: 0 <= i < |e| ==> e[i] != '&'
    requires IsCanonicalPair(e) && IsCanonicalSegments(rest)
    ensures IsCanonicalSegments(e + "&" + rest)
  {
    var q := e + "&" + rest;
    IndexOfJoin(e, '&', rest);
    assert q[..|e|] == e;
    assert q[|e| + 1..] == rest;
  }

  /** Every serialisation is in the canonical spelling. */
  lemma {:induction false} SerializeCanonical(ps: seq<Param>)
    ensures IsCanonicalQuery(Serialize(ps))
  {
    if |ps| == 1 {
      var e := EncodePair(ps[0]);
      EncodePairShape(ps[0]);
      EncodePairCanonical(ps[0]);
      IndexOfAbsent(e, '&');
      assert e[..|e|] == e;
    } else if |ps| > 1 {
      var e, rest := EncodePair(ps[0]), Serialize(ps[1..]);
      SerializeCanonical(ps[1..]);
      assert Serialize(ps) == e + "&" + rest by {
        SerializeCons(ps);
      }
      EncodePairShape(ps[0]);
      EncodePairCanonical(ps[0]);
      CanonicalSegmentsCons(e, rest);
    }
  }

  /** A canonical component that unquotes is the quoting of what it
      unquotes to. */
  lemma QuoteUnquoteCanonical(s: string)
    requires IsCanonical(s) && UnquotePlus(s).Success?
    ensures QuotePlus(UnquotePlus(s).value) == s
  {
    EncodeDecodeCanonical(s);
    Utf8.EncodeDecode(DecodeBytes(s).value);
  }

  /** A canonical segment is the encoding of the pair it parses to. */
  lemma CanonicalPairUnique(seg: string)
    requires IsCanonicalPair(seg) && ParsePair(seg).Success?
    ensures EncodePair(ParsePair(seg).value) == seg
  {
    var j := IndexOf(seg, '=');
    var k, v := seg[..j], seg[j + 1..];
    assert ParsePair(seg).value == (UnquotePlus(k).value, UnquotePlus(v).value);
    assert QuotePlus(UnquotePlus(k).value) == k by {
      QuoteUnquoteCanonical(k);
    }
    assert QuotePlus(UnquotePlus(v).value) == v by {
      QuoteUnquoteCanonical(v);
    }
    assert seg == k + "=" + v by {
      SplitAt(seg, j);
    }
  }

  lemma {:induction false} CanonicalSegmentsUnique(q: string)
    requires IsCanonicalSegments(q) && ParseSegments(q).Success?
    ensures Serialize(ParseSegments(q).value) == q
    decreases |q|
  {
    if IndexOf(q, '&') == |q| {
      LastSegmentUnique(q);
    } else {
      var seg, p, tail := SplitFirstSegment(q);
      CanonicalSegmentsUnique(tail);
      SerializeJoin(p, ParseSegments(tail).value);
    }
  }

  /** A query string with an `&` is its first segment, `&`, and the rest:
      the first segment spells the pair it parses to, and the rest is again
      canonical and parsable. */
  lemma SplitFirstSegment(q: string) returns (seg: string, p: Param, tail: string)
    requires IsCanonicalSegments(q) && ParseSegments(q).Success?
    requires IndexOf(q, '&') < |q|
    ensures q == seg + "&" + tail && |tail| < |q|
    ensures EncodePair(p) == seg
    ensures IsCanonicalSegments(tail) && ParseSegments(tail).Success?
    ensures ParseSegments(q).value == [p] + ParseSegments(tail).value
  {
    var i := IndexOf(q, '&');
    seg, tail := q[..i], q[i + 1..];
    CanonicalFirstSegment(q);
    ParseFirstSegment(q);
    p := ParsePair(seg).value;
    assert EncodePair(p) == seg by {
      CanonicalPairUnique(seg);
    }
    assert q == seg + "&" + tail by {
      SplitAt(q, i);
    }
  }

  lemma CanonicalFirstSegment(q: string)
    requires IsCanonicalSegments(q) && IndexOf(q, '&') < |q|
    ensures IsCanonicalPair(q[..IndexOf(q, '&')]) && IsCanonicalSegments(q[IndexOf(q, '&') + 1..])
  {
  }

  lemma ParseFirstSegment(q: string)
    requires ParseSegments(q).Success? && IndexOf(q, '&') < |q|
    ensures ParsePair(q[..IndexOf(q, '&')]).Success? && ParseSegments(q[IndexOf(q, '&') + 1..]).Success?
    ensures ParseSegments(q).value
      == [ParsePair(q[..IndexOf(q, '&')]).value] + ParseSegments(q[IndexOf(q, '&') + 1..]).value
  {
  }

  lemma LastSegmentUnique(q: string)
    requires IsCanonicalSegments(q) && ParseSegments(q).Success? && IndexOf(q, '&') == |q|
    ensures Serialize(ParseSegments(q).value) == q
  {
    assert q[..|q|] == q;
    CanonicalPairUnique(q);
    assert ParseSegments(q).value == [ParsePair(q).value];
  }

  /** Serialising a pair in front of a non-empty list puts `&` between. */
  lemma SerializeJoin(p: Param, ps: seq<Param>)
    requires |ps| > 0
    ensures Serialize([p] + ps) == EncodePair(p) + "&" + Serialize(ps)
  {
    assert ([p] + ps)[1..] == ps;
    SerializeCons([p] + ps);
  }

  lemma SplitAt<T>(s: seq<T>, i: nat)
    requires i < |s|
    ensures s == s[..i] + [s[i]] + s[i + 1..]
  {
  }

  /** The canonical spelling is unique: a canonical query string that parses
      to a list of pairs is exactly the serialisation of that list. */
  lemma CanonicalQueryUnique(q: string, ps: seq<Param>)
    requires IsCanonicalQuery(q) && Parse(q) == Success(ps)
    ensures q == Serialize(ps)
  {
    if |q| > 0 {
      CanonicalSegmentsUnique(q);
    }
  }
}
