/** host[:port] strings: the parser of base_netsock addresses and the printer of IPv4 addresses. */
module Inet {
  import opened Bytes

  datatype Ip = Ip(a: byte, b: byte, c: byte, d: byte)

  datatype Parsed = Address(ip: Ip, port: nat) | PortOutOfRange | EmptyHost | BadHost | Unresolved | Undefined

  /** inet_pton() and gethostbyname(). */
  datatype Lookup = Lookup(pton: string -> Option<Ip>, resolve: string -> Option<Ip>)

  predicate IsDigit(ch: char) {
    '0' <= ch <= '9'
  }

  predicate IsHostChar(ch: char) {
    IsDigit(ch) || 'a' <= ch <= 'z' || 'A' <= ch <= 'Z' || ch == '-' || ch == '.'
  }

  predicate AllDigits(s: string) {
    forall ch :: ch in s ==> IsDigit(ch)
  }

  // ---------------------------------------------------------------- decimal numbers

  function Decimal(n: nat): (s: string)
    ensures s != []
  {
    var last := [('0' as int + n % 10) as char];
    if n < 10 then last else Decimal(n / 10) + last
  }

  /** The digits at the front of `s`, behind those already worth `acc`. */
  function DigitsValue(s: string, acc: nat): nat {
    if s == [] || !IsDigit(s[0]) then acc
    else DigitsValue(s[1..], acc * 10 + (s[0] as int - '0' as int))
  }

  predicate IsSpace(ch: char) {
    ch == ' ' || '\t' <= ch <= '\r'
  }

  /** atoi(): blanks, a sign, digits, and whatever follows ignored; undefined outside of int. */
  function Atoi(s: string): Option<int> {
    if s == [] then Some(0)
    else if IsSpace(s[0]) then Atoi(s[1..])
    else if s[0] == '-' then ToInt(0 - DigitsValue(s[1..], 0))
    else if s[0] == '+' then ToInt(DigitsValue(s[1..], 0))
    else ToInt(DigitsValue(s, 0))
  }

  const INT_LIMIT: int := 0x8000_0000

  function ToInt(v: int): Option<int> {
    if -INT_LIMIT <= v < INT_LIMIT then Some(v) else None
  }

  lemma {:induction false} DigitsValueAppend(s: string, ch: char, acc: nat)
    requires AllDigits(s) && IsDigit(ch)
    ensures DigitsValue(s + [ch], acc) == DigitsValue(s, acc) * 10 + (ch as int - '0' as int)
  {
    if s == [] {
      assert (s + [ch])[1..] == [];
    } else {
      assert s[0] in s && (s + [ch])[1..] == s[1..] + [ch];
      DigitsValueAppend(s[1..], ch, acc * 10 + (s[0] as int - '0' as int));
    }
  }

  lemma {:induction false} DecimalValue(n: nat)
    ensures AllDigits(Decimal(n)) && DigitsValue(Decimal(n), 0) == n
  {
    var last := ('0' as int + n % 10) as char;
    if n < 10 {
      assert Decimal(n)[1..] == [];
    } else {
      DecimalValue(n / 10);
      DigitsValueAppend(Decimal(n / 10), last, 0);
    }
  }

  lemma {:induction false} DigitsValueStops(s: string, junk: string, acc: nat)
    requires AllDigits(s) && (junk != "" ==> !('0' <= junk[0] <= '9'))
    ensures DigitsValue(s + junk, acc) == DigitsValue(s, acc)
  {
    if s == "" {
      assert s + junk == junk;
    } else {
      assert s[0] in s && (s + junk)[1..] == s[1..] + junk;
      DigitsValueStops(s[1..], junk, acc * 10 + (s[0] as int - '0' as int));
    }
  }

  lemma {:induction false} AtoiSkipsBlanks(blanks: string, s: string)
    requires forall ch :: ch in blanks ==> ch == ' ' || '\t' <= ch <= '\r'
    ensures Atoi(blanks + s) == Atoi(s)
  {
    if blanks == "" {
      assert blanks + s == s;
    } else {
      assert blanks[0] in blanks && (blanks + s)[1..] == blanks[1..] + s;
      assert forall ch :: ch in blanks[1..] ==> ch in blanks;
      AtoiSkipsBlanks(blanks[1..], s);
    }
  }

  /** atoi on any blanks, sign, number or none, and rest; undefined when the number is outside of
      int. */
  lemma AtoiExactly(blanks: string, sign: string, digits: string, n: nat, junk: string)
    requires forall ch :: ch in blanks ==> ch == ' ' || '\t' <= ch <= '\r'
    requires sign in ["", "+", "-"] && (digits == Decimal(n) || (digits == "" && n == 0))
    requires junk != "" ==> !('0' <= junk[0] <= '9')
    requires junk != "" && sign + digits == "" ==> junk[0] !in "+- " && !('\t' <= junk[0] <= '\r')
    ensures var v: int := if sign == "-" then 0 - n else n;
            Atoi(blanks + (sign + (digits + junk))) == if -0x8000_0000 <= v < 0x8000_0000 then Some(v) else None
  {
    var t := digits + junk;
    AtoiSkipsBlanks(blanks, sign + t);
    DecimalValue(n);
    DigitsValueStops(digits, junk, 0);
    if digits != "" {
      assert t[0] == digits[0] && digits[0] in digits;
    }
    if sign == "" {
      assert sign + t == t;
    } else {
      assert (sign + t)[1..] == t;
    }
  }

  /** atoi undoes the printing of every number below 2^31, and is undefined on the others. */
  lemma AtoiOfDecimal(n: nat)
    ensures Atoi(Decimal(n)) == if n < 0x8000_0000 then Some(n) else None
  {
    AtoiExactly("", "", Decimal(n), n, "");
    assert "" + ("" + (Decimal(n) + "")) == Decimal(n);
  }

  // ---------------------------------------------------------------- parsing

  /** Where the port text starts: behind the last colon of a string that ends in a digit. */
  function PortStart(s: string, i: nat): (k: nat)
    requires i <= |s|
    ensures k <= i
    ensures k > 0 ==> s[k - 1] == ':'
    ensures forall j :: k <= j < i ==> s[j] != ':'
  {
    if i == 0 || s[i - 1] == ':' then i else PortStart(s, i - 1)
  }

  function Host(s: string, l: Lookup, port: nat): Parsed {
    if s == [] then EmptyHost
    else match l.pton(s)
      case Some(ip) => Address(ip, port)
      case None =>
        if exists ch :: ch in s && !IsHostChar(ch) then BadHost
        else match l.resolve(s)
          case Some(ip) => Address(ip, port)
          case None => Unresolved
  }

  function Parse(s: string, defaultPort: nat, l: Lookup): Parsed
    requires s != []
  {
    var k := if IsDigit(s[|s| - 1]) then PortStart(s, |s| - 1) else 0;
    if k == 0 then Host(s, l, defaultPort)
    else
      match Atoi(s[k..])
      case None => Undefined
      case Some(port) => if port < 0 || port > 65535 then PortOutOfRange else Host(s[..k - 1], l, port)
  }

  /** _build_ipsock_addr_from_str. The source reads the last character, so there must be one. */
  method BuildFromString(defaultPort: nat, str: string, l: Lookup) returns (r: Parsed)
    requires str != []
    ensures r == Parse(str, defaultPort, l)
  {
    hide Host, Atoi;
    if IsDigit(str[|str| - 1]) {
      var i := |str| - 1;
      while i != 0
        invariant 0 <= i <= |str| - 1
        invariant PortStart(str, |str| - 1) == PortStart(str, i)
      {
        if str[i - 1] == ':' {
          var port := Atoi(str[i..]);
          if port.None? {
            return Undefined;
          }
          if port.value < 0 || port.value > 65535 {
            return PortOutOfRange;
          }
          r := FindHost(str[..i - 1], l, port.value);
          return;
        }
        i := i - 1;
      }
    }
    r := FindHost(str, l, defaultPort);
  }

  /** The part of _build_ipsock_addr_from_str from `port_ok` on. */
  method FindHost(addr: string, l: Lookup, port: nat) returns (r: Parsed)
    ensures r == Host(addr, l, port)
    ensures if addr == "" then r == EmptyHost
            else if l.pton(addr).Some? then r == Address(l.pton(addr).value, port)
            else if exists ch :: ch in addr && !('0' <= ch <= '9' || 'a' <= ch <= 'z' || 'A' <= ch <= 'Z' || ch == '-' || ch == '.')
            then r == BadHost
            else if l.resolve(addr).Some? then r == Address(l.resolve(addr).value, port)
            else r == Unresolved
  {
    if addr == [] {
      return EmptyHost;
    }
    var ip := l.pton(addr);
    if ip.Some? {
      return Address(ip.value, port);
    }
    var i := 0;
    while i < |addr|
      invariant i <= |addr| && forall j :: 0 <= j < i ==> IsHostChar(addr[j])
    {
      if !IsHostChar(addr[i]) {
        assert addr[i] in addr;
        return BadHost;
      }
      i := i + 1;
    }
    ip := l.resolve(addr);
    return if ip.Some? then Address(ip.value, port) else Unresolved;
  }

  // ---------------------------------------------------------------- what it guarantees

  lemma {:induction false} PortStartBehindColon(s: string, k: nat, i: nat)
    requires 0 < k <= i <= |s| && s[k - 1] == ':' && forall j :: k <= j < i ==> s[j] != ':'
    ensures PortStart(s, i) == k
  {
    if k < i {
      PortStartBehindColon(s, k, i - 1);
    }
  }

  /** A string that ends in a digit splits at its last colon, and the text behind that is the port. */
  lemma SplitAtLastColon(host: string, t: string, defaultPort: nat, l: Lookup)
    requires t != "" && ':' !in t && '0' <= t[|t| - 1] <= '9'
    ensures Parse(host + ":" + t, defaultPort, l) ==
            match Atoi(t)
            case None => Undefined
            case Some(port) => if 0 <= port <= 65535 then Host(host, l, port) else PortOutOfRange
  {
    hide Host, Atoi, PortStart;
    var s, k := host + ":" + t, |host| + 1;
    AroundColon(host, t);
    PortStartBehindColon(s, k, |s| - 1);
  }

  lemma AroundColon(host: string, t: string)
    requires t != "" && ':' !in t
    ensures var s, k := host + ":" + t, |host| + 1;
            && |s| == k + |t| && s[k..] == t && s[..k - 1] == host && s[k - 1] == ':'
            && s[|s| - 1] == t[|t| - 1] && forall j :: k <= j < |s| ==> s[j] != ':'
  {
    var s, k := host + ":" + t, |host| + 1;
    forall j | k <= j < |s| ensures s[j] != ':' {
      assert s[j] == t[j - k] && t[j - k] in t;
    }
  }

  lemma DecimalIsPort(n: nat)
    ensures ':' !in Decimal(n) && '0' <= Decimal(n)[|Decimal(n)| - 1] <= '9'
  {
    DecimalValue(n);
    assert !IsDigit(':');
    assert Decimal(n)[|Decimal(n)| - 1] in Decimal(n);
  }

  /** Whatever host and number stand around a colon. The number is refused from 65536 to 2^31, and
      undefined from there on; below, it is the port of what the host is: nothing, an address, a bad
      name, or a name that is found or not. */
  lemma HostAndPort(host: string, port: nat, defaultPort: nat, l: Lookup)
    ensures var r := Parse(host + ":" + Decimal(port), defaultPort, l);
            if port >= 0x8000_0000 then r == Undefined
            else if port > 65535 then r == PortOutOfRange
            else if host == "" then r == EmptyHost
            else if l.pton(host).Some? then r == Address(l.pton(host).value, port)
            else if exists ch :: ch in host && !('0' <= ch <= '9' || 'a' <= ch <= 'z' || 'A' <= ch <= 'Z' || ch == '-' || ch == '.')
            then r == BadHost
            else if l.resolve(host).Some? then r == Address(l.resolve(host).value, port)
            else r == Unresolved
  {
    AtoiOfDecimal(port);
    DecimalIsPort(port);
    SplitAtLastColon(host, Decimal(port), defaultPort, l);
    assert forall ch :: IsHostChar(ch) <==> '0' <= ch <= '9' || 'a' <= ch <= 'z' || 'A' <= ch <= 'Z' || ch == '-' || ch == '.';
  }

  /** Without a colon, or without a digit at its end, the whole string is the host, on the default
      port. */
  lemma HostAlone(host: string, defaultPort: nat, l: Lookup)
    requires host != "" && (':' !in host || !('0' <= host[|host| - 1] <= '9'))
    ensures var r := Parse(host, defaultPort, l);
            if l.pton(host).Some? then r == Address(l.pton(host).value, defaultPort)
            else if exists ch :: ch in host && !('0' <= ch <= '9' || 'a' <= ch <= 'z' || 'A' <= ch <= 'Z' || ch == '-' || ch == '.')
            then r == BadHost
            else if l.resolve(host).Some? then r == Address(l.resolve(host).value, defaultPort)
            else r == Unresolved
  {
    assert forall j :: 0 <= j < |host| ==> host[j] in host;
    assert forall ch :: IsHostChar(ch) <==> '0' <= ch <= '9' || 'a' <= ch <= 'z' || 'A' <= ch <= 'Z' || ch == '-' || ch == '.';
  }

  function Addr2Str(ip: Ip): string {
    Decimal(ip.a) + "." + Decimal(ip.b) + "." + Decimal(ip.c) + "." + Decimal(ip.d)
  }

  /** Digits in base ten, most significant first, and the four numbers in order. */
  lemma PrintedAddress()
    ensures Addr2Str(Ip(192, 168, 1, 20)) == "192.168.1.20"
  {
    assert Decimal(1) == "1" && Decimal(2) == "2";
    assert Decimal(16) == "1" + "6" && Decimal(19) == "1" + "9";
    assert Decimal(192) == "19" + "2" && Decimal(168) == "16" + "8" && Decimal(20) == "2" + "0";
  }

  lemma DottedHasNoColon(ip: Ip)
    ensures ':' !in Addr2Str(ip)
  {
    DecimalValue(ip.a);
    DecimalValue(ip.b);
    DecimalValue(ip.c);
    DecimalValue(ip.d);
    assert ':' !in ".";
    assert !IsDigit(':');
  }

  /** Printing an address and parsing it back, with and without a port. All that is assumed of
      inet_pton is that it reads this dotted quad. */
  lemma AddressRoundTrip(ip: Ip, port: nat, defaultPort: nat, l: Lookup)
    requires l.pton(Addr2Str(ip)) == Some(ip) && port <= 65535
    ensures Parse(Addr2Str(ip) + ":" + Decimal(port), defaultPort, l) == Address(ip, port)
    ensures Parse(Addr2Str(ip), defaultPort, l) == Address(ip, defaultPort)
  {
    DottedHasNoColon(ip);
    HostAndPort(Addr2Str(ip), port, defaultPort, l);
    HostAlone(Addr2Str(ip), defaultPort, l);
  }
}
