/** Printing and parsing of the fields that the database stores as text. */
module Text {
  import opened Types

  // ---------- decimal ----------

  predicate IsDigit(c: char) { '0' <= c <= '9' }

  predicate AllDigits(s: string) { forall i :: 0 <= i < |s| ==> IsDigit(s[i]) }

  function DigitOf(n: nat): char
    requires n < 10
  {
    '0' + n as char
  }

  function Decimal(n: nat): string {
    if n < 10 then [DigitOf(n)] else Decimal(n / 10) + [DigitOf(n % 10)]
  }

  function ValueOf(s: string): nat
    requires AllDigits(s)
  {
    if s == [] then 0 else ValueOf(s[..|s| - 1]) * 10 + (s[|s| - 1] as int - '0' as int)
  }

  lemma {:induction false} DecimalIsDigits(n: nat)
    ensures AllDigits(Decimal(n)) && |Decimal(n)| > 0
  {
    if n >= 10 {
      DecimalIsDigits(n / 10);
    }
  }

  lemma {:induction false} DecimalValue(n: nat)
    ensures AllDigits(Decimal(n)) && ValueOf(Decimal(n)) == n
  {
    DecimalIsDigits(n);
    if n >= 10 {
      DecimalIsDigits(n / 10);
      DecimalValue(n / 10);
      assert Decimal(n)[..|Decimal(n)| - 1] == Decimal(n / 10);
    } else {
      assert Decimal(n)[..0] == [];
    }
  }

  lemma ValueSnoc(s: string, c: char)
    requires AllDigits(s) && IsDigit(c)
    ensures AllDigits(s + [c]) && ValueOf(s + [c]) == ValueOf(s) * 10 + (c as int - '0' as int)
  {
    assert (s + [c])[..|s|] == s;
  }

  lemma {:induction false} ValueIsPositive(s: string)
    requires AllDigits(s) && s != "" && s[0] != '0'
    ensures ValueOf(s) > 0
  {
    if |s| > 1 {
      ValueIsPositive(s[..|s| - 1]);
    } else {
      assert ValueOf(s[..0]) == 0;
    }
  }

  /** A number without a superfluous zero in front is the decimal text of its value. */
  lemma {:induction false} DecimalOfValue(s: string)
    requires AllDigits(s) && s != "" && (s[0] == '0' ==> |s| == 1)
    ensures Decimal(ValueOf(s)) == s
  {
    var init, last := s[..|s| - 1], s[|s| - 1];
    assert s == init + [last];
    if init != "" {
      DecimalOfValue(init);
      ValueIsPositive(init);
      assert ValueOf(s) / 10 == ValueOf(init) && ValueOf(s) % 10 == last as int - '0' as int;
    } else {
      assert ValueOf(init) == 0;
    }
  }

  /** No superfluous zero in front, and at most three digits below 1000. */
  lemma {:induction false} DecimalShape(n: nat)
    ensures n > 0 ==> Decimal(n)[0] != '0'
    ensures n < 1000 ==> |Decimal(n)| <= 3
  {
    if n >= 10 {
      DecimalIsDigits(n / 10);
      DecimalShape(n / 10);
      if n < 1000 {
        assert n / 10 < 100;
        assert Decimal(n / 10 / 10) == [DigitOf(n / 10 / 10)];
      }
    }
  }

  /** `str::parse::<u64>`: an optional '+', then digits, no overflow. */
  function ParseU64(s: string): Option<U64> {
    var digits := if |s| > 0 && s[0] == '+' then s[1..] else s;
    if |digits| > 0 && AllDigits(digits) && ValueOf(digits) < U64_SIZE
    then Some(ValueOf(digits)) else None
  }

  lemma U64RoundTrip(n: U64)
    ensures ParseU64(Decimal(n)) == Some(n)
  {
    DecimalIsDigits(n);
    DecimalValue(n);
    assert IsDigit(Decimal(n)[0]);
  }

  /** What is read as a number: digits, leading zeros included, of a value that fits, after a plus or not. */
  lemma ParseU64Iff(s: string, n: U64)
    ensures ParseU64(s) == Some(n)
            <==> exists digits: string ::
                   (s == digits || s == "+" + digits) && digits != "" && AllDigits(digits) && ValueOf(digits) == n
  {
    if ParseU64(s) == Some(n) {
      var digits := if s[0] == '+' then s[1..] else s;
      assert s == digits || s == "+" + digits;
    }
    if digits: string :| (s == digits || s == "+" + digits) && digits != "" && AllDigits(digits) && ValueOf(digits) == n {
      assert IsDigit(digits[0]);
      assert s != digits ==> s[0] == '+' && s[1..] == digits;
    }
  }

  // ---------- booleans ----------

  function ShowBool(b: bool): string { if b then "true" else "false" }

  function ParseBool(s: string): Option<bool> {
    if s == "true" then Some(true) else if s == "false" then Some(false) else None
  }

  /** A truth value is read from the word for it and from nothing else. */
  lemma ParseBoolIff(s: string, b: bool)
    ensures ParseBool(s) == Some(b) <==> s == (if b then "true" else "false")
    ensures ParseBool(ShowBool(b)) == Some(b)
  {}

  // ---------- hexadecimal ----------

  function HexDigit(n: nat): char
    requires n < 16
  {
    if n < 10 then '0' + n as char else 'a' + (n - 10) as char
  }

  function HexValue(c: char): Option<nat> {
    if '0' <= c <= '9' then Some(c as int - '0' as int)
    else if 'a' <= c <= 'f' then Some(c as int - 'a' as int + 10)
    else if 'A' <= c <= 'F' then Some(c as int - 'A' as int + 10)
    else None
  }

  lemma HexValueRange(c: char)
    ensures HexValue(c).Some? ==> HexValue(c).value < 16
  {}

  function HexEncode(bytes: seq<Byte>): string {
    if bytes == [] then ""
    else [HexDigit(bytes[0] / 16), HexDigit(bytes[0] % 16)] + HexEncode(bytes[1..])
  }

  function HexDecode(s: string): Option<seq<Byte>> {
    if s == "" then Some([])
    else if |s| == 1 then None
    else
      HexValueRange(s[0]);
      HexValueRange(s[1]);
      match (HexValue(s[0]), HexValue(s[1]), HexDecode(s[2..]))
      case (Some(hi), Some(lo), Some(rest)) => Some([16 * hi + lo] + rest)
      case _ => None
  }

  lemma HexDigitValue(n: nat)
    requires n < 16
    ensures HexValue(HexDigit(n)) == Some(n)
  {}

  lemma {:induction false} HexRoundTrip(bytes: seq<Byte>)
    ensures HexDecode(HexEncode(bytes)) == Some(bytes)
  {
    if bytes != [] {
      HexRoundTrip(bytes[1..]);
      HexDigitValue(bytes[0] / 16);
      HexDigitValue(bytes[0] % 16);
      assert HexEncode(bytes)[2..] == HexEncode(bytes[1..]);
      assert 16 * (bytes[0] / 16) + bytes[0] % 16 == bytes[0];
      assert [bytes[0]] + bytes[1..] == bytes;
    }
  }

  lemma {:induction false} HexHasNoBar(bytes: seq<Byte>)
    ensures |HexEncode(bytes)| == 2 * |bytes|
    ensures '|' !in HexEncode(bytes)
  {
    if bytes != [] {
      HexHasNoBar(bytes[1..]);
    }
  }

  /** A text with a bar in it is never hexadecimal. */
  lemma {:induction false} BarIsNotHex(s: string)
    requires '|' in s
    ensures HexDecode(s) == None
  {
    if |s| >= 2 && HexValue(s[0]).Some? && HexValue(s[1]).Some? {
      assert s == s[..2] + s[2..];
      BarIsNotHex(s[2..]);
    }
  }

  function LowerChar(c: char): char { if 'A' <= c <= 'F' then c - 'A' + 'a' else c }

  function Lower(s: string): string { seq(|s|, i requires 0 <= i < |s| => LowerChar(s[i])) }

  lemma HexDigitIff(c: char, n: nat)
    requires n < 16
    ensures HexValue(c) == Some(n) <==> LowerChar(c) == HexDigit(n)
  {
    HexDigitValue(n);
    if 'A' <= c <= 'F' {
      assert LowerChar(c) as int == c as int - 'A' as int + 'a' as int;
    }
  }

  /** Hexadecimal is read in upper and lower case, in pairs, and in no other form. */
  lemma {:induction false} HexDecodeIff(s: string, bytes: seq<Byte>)
    ensures HexDecode(s) == Some(bytes) <==> Lower(s) == HexEncode(bytes)
  {
    HexHasNoBar(bytes);
    if |s| >= 2 && bytes != [] {
      var hi, lo := bytes[0] / 16, bytes[0] % 16;
      HexDecodeIff(s[2..], bytes[1..]);
      HexDigitIff(s[0], hi);
      HexDigitIff(s[1], lo);
      assert Lower(s)[2..] == Lower(s[2..]);
      assert HexEncode(bytes)[2..] == HexEncode(bytes[1..]);
      assert [bytes[0]] + bytes[1..] == bytes;
      HexValueRange(s[0]);
      HexValueRange(s[1]);
      if HexDecode(s) == Some(bytes) {
        assert HexDecode(s).value[0] == bytes[0] && HexDecode(s).value[1..] == bytes[1..];
        assert Lower(s) == Lower(s)[..2] + Lower(s)[2..];
      }
      if Lower(s) == HexEncode(bytes) {
        assert Lower(s)[0] == HexDigit(hi) && Lower(s)[1] == HexDigit(lo);
      }
    }
  }

  function KeyOfHex(s: string): Option<Key> {
    match HexDecode(s)
    case Some(bytes) => if |bytes| == 32 then Some(bytes) else None
    case None => None
  }

  /** The UTF-8 bytes of a text, which is what `hex::encode` of a String sees. */
  function Utf8(s: string): seq<Byte> {
    if s == "" then [] else Utf8Char(s[0]) + Utf8(s[1..])
  }

  function Utf8Char(c: char): (bytes: seq<Byte>)
    ensures |bytes| > 0
  {
    var n := c as int;
    if n < 0x80 then [n]
    else if n < 0x800 then [0xC0 + n / 0x40, 0x80 + n % 0x40]
    else if n < 0x1_0000 then [0xE0 + n / 0x1000, 0x80 + n / 0x40 % 0x40, 0x80 + n % 0x40]
    else [0xF0 + n / 0x4_0000, 0x80 + n / 0x1000 % 0x40, 0x80 + n / 0x40 % 0x40, 0x80 + n % 0x40]
  }

  lemma {:induction false} Utf8Grows(s: string)
    ensures |Utf8(s)| >= |s|
  {
    if s != "" {
      Utf8Grows(s[1..]);
    }
  }

  /** How many bytes the first of them announces, in RFC 3629, section 3. */
  function SequenceLength(lead: Byte): nat {
    if lead < 0x80 then 1 else if lead < 0xE0 then 2 else if lead < 0xF0 then 3 else 4
  }

  /** The number that the bits of a sequence make up, as in the table of RFC 3629, section 3. */
  function CodePoint(bytes: seq<Byte>): int
    requires bytes != [] && |bytes| == SequenceLength(bytes[0])
  {
    var bits := (k: int, mark: int) => if 0 <= k < |bytes| then (bytes[k] as int) - mark else 0;
    match |bytes|
    case 1 => bits(0, 0)
    case 2 => bits(0, 0xC0) * 0x40 + bits(1, 0x80)
    case 3 => bits(0, 0xE0) * 0x1000 + bits(1, 0x80) * 0x40 + bits(2, 0x80)
    case _ => bits(0, 0xF0) * 0x4_0000 + bits(1, 0x80) * 0x1000 + bits(2, 0x80) * 0x40 + bits(3, 0x80)
  }

  lemma Utf8CharRoundTrip(c: char)
    ensures |Utf8Char(c)| == SequenceLength(Utf8Char(c)[0]) && CodePoint(Utf8Char(c)) == c as int
    ensures forall k :: 0 < k < |Utf8Char(c)| ==> 0x80 <= Utf8Char(c)[k] < 0xC0
  {
    var n := c as int;
    assert n == n / 0x40 * 0x40 + n % 0x40;
    assert n / 0x40 == n / 0x1000 * 0x40 + n / 0x40 % 0x40;
    assert n / 0x1000 == n / 0x4_0000 * 0x40 + n / 0x1000 % 0x40;
  }

  lemma {:induction false} Utf8IsInjective(s: string, t: string)
    requires Utf8(s) == Utf8(t)
    ensures s == t
  {
    if s != "" && t != "" {
      Utf8CharRoundTrip(s[0]);
      Utf8CharRoundTrip(t[0]);
      var x, y := Utf8Char(s[0]), Utf8Char(t[0]);
      assert Utf8(s)[0] == x[0] && Utf8(t)[0] == y[0] && |x| == |y|;
      assert x == Utf8(s)[..|x|] && y == Utf8(t)[..|x|];
      assert Utf8(s[1..]) == Utf8(s)[|x|..] && Utf8(t[1..]) == Utf8(t)[|x|..];
      Utf8IsInjective(s[1..], t[1..]);
      assert s == [s[0]] + s[1..] && t == [t[0]] + t[1..];
    }
  }

  // ---------- bounded split ----------

  function Before(s: string, sep: char): string {
    if s == "" || s[0] == sep then "" else [s[0]] + Before(s[1..], sep)
  }

  function After(s: string, sep: char): string
    requires sep in s
  {
    if s[0] == sep then s[1..] else After(s[1..], sep)
  }

  /** `str::splitn`: at most n pieces, the last one taking whatever is left. */
  function SplitN(s: string, sep: char, n: nat): seq<string>
    decreases n
  {
    if n == 0 then []
    else if n == 1 || sep !in s then [s]
    else [Before(s, sep)] + SplitN(After(s, sep), sep, n - 1)
  }

  lemma {:induction false} CutAt(a: string, sep: char, rest: string)
    requires sep !in a
    ensures sep in a + [sep] + rest
    ensures Before(a + [sep] + rest, sep) == a && After(a + [sep] + rest, sep) == rest
  {
    assert (a + [sep] + rest)[|a|] == sep;
    if a != "" {
      CutAt(a[1..], sep, rest);
      assert (a + [sep] + rest)[1..] == a[1..] + [sep] + rest;
      assert (a + [sep] + rest)[0] == a[0];
    } else {
      assert (a + [sep] + rest)[1..] == rest;
    }
  }

  /** A piece that holds no separator comes off in front. */
  lemma SplitOff(a: string, sep: char, rest: string, n: nat)
    requires sep !in a && n >= 2
    ensures SplitN(a + [sep] + rest, sep, n) == [a] + SplitN(rest, sep, n - 1)
  {
    CutAt(a, sep, rest);
  }

  lemma {:induction false} CutsInTwo(s: string, sep: char)
    requires sep in s
    ensures s == Before(s, sep) + [sep] + After(s, sep) && sep !in Before(s, sep)
  {
    if s[0] != sep {
      assert s == [s[0]] + s[1..];
      CutsInTwo(s[1..], sep);
    } else {
      assert s == [sep] + s[1..];
    }
  }

  // ---------- socket addresses ----------

  function ShowIp(ip: Ip): string {
    Decimal(ip.a) + "." + (Decimal(ip.b) + "." + (Decimal(ip.c) + "." + Decimal(ip.d)))
  }

  function ShowAddr(a: Addr): string { ShowIp(a.ip) + ":" + Decimal(a.port) }

  /** One number of a dotted quad: one to three digits, no zero in front, below 256. */
  function ParseOctet(s: string): Option<Byte> {
    if 1 <= |s| <= 3 && AllDigits(s) && (s[0] == '0' ==> |s| == 1) && ValueOf(s) < 0x100
    then Some(ValueOf(s)) else None
  }

  function ParsePort(s: string): Option<U16> {
    if |s| > 0 && AllDigits(s) && ValueOf(s) < 0x1_0000 then Some(ValueOf(s)) else None
  }

  function ParseIp(s: string): Option<Ip> {
    var quad := SplitN(s, '.', 4);
    if |quad| != 4 then None else
    match (ParseOctet(quad[0]), ParseOctet(quad[1]), ParseOctet(quad[2]), ParseOctet(quad[3]))
    case (Some(a), Some(b), Some(c), Some(d)) => Some(Ip(a, b, c, d))
    case _ => None
  }

  function ParseAddr(s: string): Option<Addr> {
    var parts := SplitN(s, ':', 2);
    if |parts| != 2 then None else
    match (ParseIp(parts[0]), ParsePort(parts[1]))
    case (Some(ip), Some(port)) => Some(Addr(ip, port))
    case _ => None
  }

  lemma DigitsHold(n: nat, c: char)
    requires !IsDigit(c)
    ensures c !in Decimal(n)
  {
    DecimalIsDigits(n);
  }

  lemma OctetRoundTrip(b: Byte)
    ensures ParseOctet(Decimal(b)) == Some(b)
  {
    DecimalIsDigits(b);
    DecimalValue(b);
    DecimalShape(b);
  }

  lemma IpRoundTrip(ip: Ip)
    ensures ParseIp(ShowIp(ip)) == Some(ip)
  {
    var d := Decimal(ip.d);
    var cd := Decimal(ip.c) + "." + d;
    var bcd := Decimal(ip.b) + "." + cd;
    DigitsHold(ip.a, '.');
    DigitsHold(ip.b, '.');
    DigitsHold(ip.c, '.');
    SplitOff(Decimal(ip.a), '.', bcd, 4);
    SplitOff(Decimal(ip.b), '.', cd, 3);
    SplitOff(Decimal(ip.c), '.', d, 2);
    OctetRoundTrip(ip.a);
    OctetRoundTrip(ip.b);
    OctetRoundTrip(ip.c);
    OctetRoundTrip(ip.d);
  }

  lemma AddrRoundTrip(a: Addr)
    ensures ParseAddr(ShowAddr(a)) == Some(a)
  {
    forall n: nat ensures ':' !in Decimal(n) {
      DigitsHold(n, ':');
    }
    SplitOff(ShowIp(a.ip), ':', Decimal(a.port), 2);
    IpRoundTrip(a.ip);
    DecimalIsDigits(a.port);
    DecimalValue(a.port);
  }

  lemma OctetIsDecimal(s: string)
    ensures ParseOctet(s).Some? ==> s == Decimal(ParseOctet(s).value)
  {
    if ParseOctet(s).Some? {
      DecimalOfValue(s);
    }
  }

  lemma QuadParts(s: string)
    requires |SplitN(s, '.', 4)| == 4
    ensures var quad := SplitN(s, '.', 4); s == quad[0] + "." + (quad[1] + "." + (quad[2] + "." + quad[3]))
  {
    CutsInTwo(s, '.');
    var s1 := After(s, '.');
    CutsInTwo(s1, '.');
    var s2 := After(s1, '.');
    CutsInTwo(s2, '.');
    assert SplitN(s2, '.', 2) == [Before(s2, '.')] + [After(s2, '.')];
    assert SplitN(s1, '.', 3) == [Before(s1, '.')] + SplitN(s2, '.', 2);
    assert SplitN(s, '.', 4) == [Before(s, '.')] + SplitN(s1, '.', 3);
  }

  /** An IP address is read from its own text and from no other. */
  lemma ParseIpIff(s: string, ip: Ip)
    ensures ParseIp(s) == Some(ip) <==> s == ShowIp(ip)
  {
    IpRoundTrip(ip);
    if ParseIp(s) == Some(ip) {
      var quad := SplitN(s, '.', 4);
      QuadParts(s);
      OctetIsDecimal(quad[0]);
      OctetIsDecimal(quad[1]);
      OctetIsDecimal(quad[2]);
      OctetIsDecimal(quad[3]);
    }
  }

  /** A socket address is read from the text of its IP, a colon, and any digits with the value of its port. */
  lemma ParseAddrIff(s: string, a: Addr)
    ensures ParseAddr(s) == Some(a)
            <==> exists digits: string ::
                   s == ShowIp(a.ip) + ":" + digits
                   && digits != "" && AllDigits(digits) && ValueOf(digits) == a.port
  {
    forall n: nat ensures ':' !in Decimal(n) {
      DigitsHold(n, ':');
    }
    if ParseAddr(s) == Some(a) {
      CutsInTwo(s, ':');
      ParseIpIff(Before(s, ':'), a.ip);
      assert SplitN(s, ':', 2) == [Before(s, ':')] + [After(s, ':')];
      var digits := After(s, ':');
      assert s == ShowIp(a.ip) + ":" + digits;
    }
    if digits: string :| s == ShowIp(a.ip) + ":" + digits && digits != "" && AllDigits(digits)
                         && ValueOf(digits) == a.port {
      SplitOff(ShowIp(a.ip), ':', digits, 2);
      IpRoundTrip(a.ip);
    }
  }

  lemma AddrHasNoBar(a: Addr)
    ensures '|' !in ShowAddr(a)
  {
    forall n: nat ensures '|' !in Decimal(n) {
      DigitsHold(n, '|');
    }
  }

  /** Two addresses with the same text are the same address. */
  lemma ShowAddrInjective(a: Addr, b: Addr)
    requires ShowAddr(a) == ShowAddr(b)
    ensures a == b
  {
    AddrRoundTrip(a);
    AddrRoundTrip(b);
  }
}
