/** Decimal numbers as std::atoi reads them and as stream insertion writes them. */
module Decimals {
  predicate IsDigit(c: char) {
    '0' <= c <= '9'
  }

  predicate IsSpace(c: char) {
    c == ' ' || 9 <= c as int <= 13
  }

  function SkipSpace(s: string): string {
    if s != "" && IsSpace(s[0]) then SkipSpace(s[1..]) else s
  }

  /** The number that leading digits append to the decimal digits of acc. */
  function Digits(s: string, acc: nat): nat {
    if s != "" && IsDigit(s[0]) then Digits(s[1..], 10 * acc + (s[0] as int - '0' as int)) else acc
  }

  /** The mathematical value of the longest numeral at the start of a text, 0 without one. */
  function Numeral(s: string): int {
    var t := SkipSpace(s);
    if t != "" && t[0] == '-' then 0 - Digits(t[1..], 0)
    else if t != "" && t[0] == '+' then Digits(t[1..], 0)
    else Digits(t, 0)
  }

  const INT_MIN := -0x8000_0000
  const INT_MAX := 0x7fff_ffff

  /** atoi of the Microsoft C library: a value that does not fit an int becomes the nearest that does. */
  function Atoi(s: string): (v: int)
    ensures -2147483648 <= v <= 2147483647
    ensures -2147483648 <= Numeral(s) <= 2147483647 ==> v == Numeral(s)
  {
    var n := Numeral(s);
    if n < INT_MIN then INT_MIN else if n > INT_MAX then INT_MAX else n
  }

  /** An int converted to a 32-bit unsigned int. */
  function ToUnsigned(v: int): (u: nat)
    requires INT_MIN <= v <= INT_MAX
    ensures u < 0x1_0000_0000
  {
    if v < 0 then v + 0x1_0000_0000 else v
  }

  function Decimal(n: nat): (s: string)
    ensures s != "" && forall i :: 0 <= i < |s| ==> IsDigit(s[i])
    ensures (n < 10 ==> |s| == 1) && (n > 0 ==> s[0] != '0')
  {
    var last := [(n % 10 + '0' as int) as char];
    if n < 10 then last else Decimal(n / 10) + last
  }

  /** The value of a string of digits, by its last. */
  function PlaceValue(digits: string): nat
    requires forall i :: 0 <= i < |digits| ==> IsDigit(digits[i])
  {
    if digits == "" then 0
    else
      var last := digits[|digits| - 1];
      assert IsDigit(last);
      10 * PlaceValue(digits[..|digits| - 1]) + (last as int - '0' as int)
  }

  lemma {:induction false} DigitsConcat(digits: string, rest: string)
    requires forall i :: 0 <= i < |digits| ==> IsDigit(digits[i])
    ensures Digits(digits + rest, 0) == Digits(rest, PlaceValue(digits))
  {
    if digits == "" {
      assert digits + rest == rest;
    } else {
      var front, last := digits[..|digits| - 1], digits[|digits| - 1];
      assert digits + rest == front + ([last] + rest);
      DigitsConcat(front, [last] + rest);
      assert ([last] + rest)[1..] == rest;
    }
  }

  lemma {:induction false} SpacesSkipped(spaces: string, rest: string)
    requires forall i :: 0 <= i < |spaces| ==> IsSpace(spaces[i])
    ensures SkipSpace(spaces + rest) == SkipSpace(rest)
  {
    if spaces == "" {
      assert spaces + rest == rest;
    } else {
      assert (spaces + rest)[1..] == spaces[1..] + rest;
      SpacesSkipped(spaces[1..], rest);
    }
  }

  /** What is read: blanks are skipped, one sign is taken, and the digits up to the next other character count. */
  lemma NumeralWritten(spaces: string, sign: string, digits: string, rest: string)
    requires forall i :: 0 <= i < |spaces| ==> spaces[i] == ' ' || '\t' <= spaces[i] <= '\r'
    requires sign in ["", "+", "-"] && forall i :: 0 <= i < |digits| ==> '0' <= digits[i] <= '9'
    requires rest != "" ==> !('0' <= rest[0] <= '9')
    requires sign == "" && digits == "" && rest != "" ==> rest[0] !in " +-" && !('\t' <= rest[0] <= '\r')
    ensures Numeral(spaces + (sign + (digits + rest))) ==
            if sign == "-" then 0 - PlaceValue(digits) else PlaceValue(digits)
  {
    hide SkipSpace, PlaceValue, Digits;
    SpacesSkipped(spaces, sign + (digits + rest));
    StartsNumber(sign, digits, rest);
    DigitsConcat(digits, rest);
    DigitsEnd(rest, PlaceValue(digits));
  }

  lemma DigitsEnd(rest: string, acc: nat)
    requires rest != "" ==> !IsDigit(rest[0])
    ensures Digits(rest, acc) == acc
  {
  }

  /** A sign or a digit ends the blanks, and what follows a sign is the number. */
  lemma StartsNumber(sign: string, digits: string, rest: string)
    requires sign in ["", "+", "-"] && forall i :: 0 <= i < |digits| ==> IsDigit(digits[i])
    requires sign == "" && digits == "" && rest != "" ==> rest[0] !in " +-" && !IsSpace(rest[0])
    ensures var t := sign + (digits + rest);
            && SkipSpace(t) == t
            && (sign != "" ==> t[0] == sign[0] && t[1..] == digits + rest)
            && (sign == "" ==> t == digits + rest && (t != "" ==> t[0] !in "+-"))
  {
    var number := digits + rest;
    if number != "" {
      assert number[0] == if digits != "" then digits[0] else rest[0];
      assert digits != "" ==> IsDigit(digits[0]);
    }
    assert "" + number == number;
  }

  lemma {:induction false} DigitsOfDecimal(n: nat, rest: string)
    ensures Digits(Decimal(n) + rest, 0) == Digits(rest, n)
  {
    var last := [(n % 10 + '0' as int) as char];
    DigitsOfDigit(n % 10, rest, if n < 10 then 0 else n / 10);
    if n >= 10 {
      DigitsOfDecimal(n / 10, last + rest);
      assert Decimal(n) + rest == Decimal(n / 10) + (last + rest);
    }
  }

  lemma DigitsOfDigit(digit: nat, rest: string, acc: nat)
    requires digit < 10
    ensures Digits([(digit + '0' as int) as char] + rest, acc) == Digits(rest, 10 * acc + digit)
  {
    assert ([(digit + '0' as int) as char] + rest)[1..] == rest;
  }

  /** Reading a written number gives it back. */
  lemma NumeralOfDecimal(n: nat)
    ensures Numeral(Decimal(n)) == n
  {
    DigitsOfDecimal(n, "");
    assert Decimal(n) + "" == Decimal(n);
    assert IsDigit(Decimal(n)[0]);
  }
}

/** WebSocket URI parsing and printing, websocketpp/uri.hpp. */
module Uris {
  import opened Decimals
  import opened Options
  import opened Text

  datatype Value = Value(scheme: string, secure: bool, host: string, port: nat, resource: string)

  function DefaultPort(secure: bool): nat {
    if secure then 443 else 80
  }

  function PortFromString(secure: bool, port: string): Option<nat> {
    if port == "" then Some(DefaultPort(secure))
    else
      var t := ToUnsigned(Atoi(port));
      if t > 65535 || t == 0 then None else Some(t)
  }

  /** Neither clamping nor the unsigned conversion makes a port of a numeral outside 1 to 65535. */
  lemma PortAcceptedIff(secure: bool, port: string, p: nat)
    ensures PortFromString(secure, port) == Some(p) <==>
            if port == "" then p == (if secure then 443 else 80) else Numeral(port) == p && 1 <= p <= 65535
  {
  }

  // ----- What the parser recognises -----

  datatype Scheme = Scheme(name: string, secure: bool)

  function Prefix(scheme: Scheme): string {
    scheme.name + "://"
  }

  const WSS := Scheme("wss", true)
  const WS := Scheme("ws", false)
  const HTTP := Scheme("http", false)
  const HTTPS := Scheme("https", true)

  /** At least one character has to follow the slashes. */
  predicate HasScheme(text: string, scheme: Scheme) {
    |text| > |Prefix(scheme)| && text[..|Prefix(scheme)|] == Prefix(scheme)
  }

  function SchemeOf(text: string): Option<Scheme> {
    if HasScheme(text, WSS) then Some(WSS)
    else if HasScheme(text, WS) then Some(WS)
    else if HasScheme(text, HTTP) then Some(HTTP)
    else if HasScheme(text, HTTPS) then Some(HTTPS)
    else None
  }

  /** Host, port text, and what follows the slash after them. */
  datatype Parts = Parts(host: string, port: string, tail: string)

  predicate EndsHost(c: char) {
    c == ':' || c == '/'
  }

  function HostEnd(s: string): (e: nat)
    ensures e <= |s|
    ensures forall i :: 0 <= i < e ==> !EndsHost(s[i])
    ensures e < |s| ==> EndsHost(s[e])
  {
    if s == "" || EndsHost(s[0]) then 0 else 1 + HostEnd(s[1..])
  }

  function PortParts(host: string, s: string): (p: Parts)
    ensures p.host == host
  {
    var e := FindFirst(s, '/');
    if e < 0 then Parts(host, s, "") else Parts(host, s[..e], s[e + 1..])
  }

  /** What follows a host: nothing, a resource, or a port. */
  function AfterHost(host: string, s: string): Option<Parts> {
    if s == "" then Some(Parts(host, "", ""))
    else if s[0] == '/' then Some(Parts(host, "", s[1..]))
    else if s[0] == ':' then Some(PortParts(host, s[1..]))
    else None
  }

  function Split(s: string): Option<Parts> {
    if s != "" && s[0] == '[' then
      var e := FindFirst(s[1..], ']');
      if e < 0 then None else AfterHost(s[1..e + 1], s[e + 2..])
    else
      AfterHost(s[..HostEnd(s)], s[HostEnd(s)..])
  }

  function Parse(text: string): Option<Value> {
    match SchemeOf(text)
    case None => None
    case Some(scheme) =>
      match Split(text[|Prefix(scheme)|..])
      case None => None
      case Some(parts) =>
        match PortFromString(scheme.secure, parts.port)
        case None => None
        case Some(port) => Some(Value(scheme.name, scheme.secure, parts.host, port, "/" + parts.tail))
  }

  function Str(u: Value): string {
    u.scheme + "://" + u.host
    + (if u.port != DefaultPort(u.secure) then ":" + Decimal(u.port) else "")
    + u.resource
  }

  // ----- The parser -----

  class Uri {
    var scheme: string
    var host: string
    var resource: string
    var port: nat
    var secure: bool
    var valid: bool

    function AsValue(): Value
      reads this
    {
      Value(scheme, secure, host, port, resource)
    }

    /** The parsing constructor; the fields of an invalid URI carry no promise. */
    constructor (text: string)
      ensures valid <==> Parse(text).Some?
      ensures valid ==> AsValue() == Parse(text).value
    {
      valid, scheme, host, resource, port, secure := false, "", "", "", 0, false;
      new;
      hide SchemeOf, Split, PortFromString;
      var known, it := false, 0;
      known, scheme, secure, it := ReadScheme(text);
      if !known {
        return;
      }
      ghost var rest := text[it..];
      assert rest == text[|Prefix(Scheme(scheme, secure))|..];
      var portText;
      known, host, portText, it := ReadAuthority(text, it);
      if !known {
        return;
      }
      match PortFromString(secure, portText)
      case None => return;
      case Some(p) =>
        port := p;
        resource := "/" + text[it..];
        valid := true;
    }

    static method ReadAuthority(text: string, start: nat)
      returns (known: bool, host: string, portText: string, it: nat)
      requires start < |text|
      ensures it <= |text|
      ensures Split(text[start..]) == if known then Some(Parts(host, portText, text[it..])) else None
    {
      hide Split, Uri.Remaining;
      var state;
      if text[start] == '[' {
        known, host, it, state := ReadBracketed(text, start);
        if !known {
          portText, it := "", start;
          return;
        }
      } else {
        known := true;
        host, it, state := ReadHost(text, start);
      }
      portText, it := ReadPort(text, it, state, host);
    }

    static method ReadScheme(text: string) returns (known: bool, scheme: string, secure: bool, it: nat)
      ensures known <==> SchemeOf(text).Some?
      ensures known ==> && SchemeOf(text).value == Scheme(scheme, secure)
                        && it == |Prefix(Scheme(scheme, secure))| < |text|
    {
      known, scheme, secure, it := true, "", false, 0;
      if |text| >= 7 && text[..6] == "wss://" {
        secure, scheme, it := true, "wss", 6;
      } else if |text| >= 6 && text[..5] == "ws://" {
        secure, scheme, it := false, "ws", 5;
      } else if |text| >= 8 && text[..7] == "http://" {
        secure, scheme, it := false, "http", 7;
      } else if |text| >= 9 && text[..8] == "https://" {
        secure, scheme, it := true, "https", 8;
      } else {
        known := false;
      }
    }

    /** What is left to read, in the port (state 1) or behind it. */
    static function Remaining(host: string, state: nat, rest: string): Parts {
      if state == 1 then PortParts(host, rest) else Parts(host, "", rest)
    }

    static method ReadBracketed(text: string, start: nat)
      returns (known: bool, host: string, it: nat, state: nat)
      requires start < |text| && text[start] == '['
      ensures known <==> Split(text[start..]).Some?
      ensures known ==> it <= |text| && Split(text[start..]).value == Remaining(host, state, text[it..])
    {
      hide Split, AfterHost, PortParts;
      known, host, it, state := false, "", start + 1, 0;
      var temp := FindClosing(text, it);
      SplitBracketed(text, start, temp);
      if temp == |text| {
        return;
      }
      host := text[it..temp];
      it := temp + 1;
      AfterHostAt(host, text, it);
      if it == |text| {
        state := 2;
      } else if text[it] == '/' {
        state := 2;
        it := it + 1;
      } else if text[it] == ':' {
        state := 1;
        it := it + 1;
      } else {
        return;
      }
      known := true;
    }

    static method FindClosing(text: string, it: nat) returns (temp: nat)
      requires it <= |text|
      ensures it <= temp <= |text|
      ensures var e := FindFirst(text[it..], ']'); temp == if e < 0 then |text| else it + e
    {
      temp := it;
      while temp < |text| && text[temp] != ']'
        invariant it <= temp <= |text|
        invariant forall i :: it <= i < temp ==> text[i] != ']'
      {
        temp := temp + 1;
      }
      FoundFirst(text[it..], ']', temp - it);
    }

    static method ReadHost(text: string, start: nat) returns (host: string, it: nat, state: nat)
      requires start < |text| && text[start] != '['
      ensures it <= |text|
      ensures Split(text[start..]) == Some(Remaining(host, state, text[it..]))
    {
      hide Split, AfterHost, PortParts;
      host, it, state := "", start, 0;
      while state == 0
        invariant start <= it <= |text|
        invariant state == 0 ==> host == text[start..it] && forall i :: start <= i < it ==> !EndsHost(text[i])
        invariant state != 0 ==> Split(text[start..]) == Some(Remaining(host, state, text[it..]))
        decreases if state == 0 then |text| - it + 1 else 0
      {
        if it == |text| || text[it] == '/' || text[it] == ':' {
          SplitPlain(text, start, it);
          AfterHostAt(host, text, it);
        }
        if it == |text| {
          state := 2;
          break;
        } else if text[it] == '/' {
          state := 2;
        } else if text[it] == ':' {
          state := 1;
        } else {
          host := host + [text[it]];
        }
        it := it + 1;
      }
    }

    static method ReadPort(text: string, start: nat, atState: nat, ghost host: string) returns (port: string, it: nat)
      requires start <= |text|
      ensures it <= |text|
      ensures Remaining(host, atState, text[start..]) == Parts(host, port, text[it..])
    {
      port, it := "", start;
      var state := atState;
      while state == 1
        invariant start <= it <= |text|
        invariant state == 1 ==> atState == 1 && port == text[start..it]
        invariant state == 1 ==> forall i :: start <= i < it ==> text[i] != '/'
        invariant state != 1 ==>
          Remaining(host, atState, text[start..]) == Parts(host, port, text[it..])
        decreases |text| - it, state == 1
      {
        if it == |text| {
          PortPartsAt(host, text, start, it);
          break;
        } else if text[it] == '/' {
          PortPartsAt(host, text, start, it);
          state := 3;
        } else {
          port := port + [text[it]];
        }
        it := it + 1;
      }
    }
  }

  lemma PortPartsAt(host: string, text: string, start: nat, end: nat)
    requires start <= end <= |text| && (forall i :: start <= i < end ==> text[i] != '/')
    requires end < |text| ==> text[end] == '/'
    ensures PortParts(host, text[start..]) ==
              Parts(host, text[start..end], if end < |text| then text[end + 1..] else "")
  {
    var s := text[start..];
    FoundFirst(s, '/', end - start);
    assert s[..end - start] == text[start..end];
    if end < |text| {
      assert s[end - start + 1..] == text[end + 1..];
    }
  }

  lemma {:induction false} HostEndIs(s: string, k: nat)
    requires k <= |s| && (k < |s| ==> EndsHost(s[k]))
    requires forall i :: 0 <= i < k ==> !EndsHost(s[i])
    ensures HostEnd(s) == k
  {
  }

  lemma SplitPlain(text: string, start: nat, end: nat)
    requires start <= end <= |text| && start < |text| && text[start] != '['
    requires forall i :: start <= i < end ==> !EndsHost(text[i])
    requires end < |text| ==> EndsHost(text[end])
    ensures Split(text[start..]) == AfterHost(text[start..end], text[end..])
  {
    hide AfterHost;
    var s := text[start..];
    HostEndIs(s, end - start);
    assert s[..end - start] == text[start..end] && s[end - start..] == text[end..];
  }

  lemma SplitBracketed(text: string, start: nat, temp: nat)
    requires start < temp <= |text| && text[start] == '['
    requires var e := FindFirst(text[start + 1..], ']'); temp == if e < 0 then |text| else start + 1 + e
    ensures Split(text[start..]) ==
            if temp == |text| then None else AfterHost(text[start + 1..temp], text[temp + 1..])
  {
    hide AfterHost;
    var s := text[start..];
    assert s[1..] == text[start + 1..];
    if temp < |text| {
      assert s[1..temp - start] == text[start + 1..temp] && s[temp - start + 1..] == text[temp + 1..];
    }
  }

  lemma AfterHostAt(host: string, text: string, it: nat)
    requires it <= |text|
    ensures AfterHost(host, text[it..]) ==
            if it == |text| then Some(Parts(host, "", text[it..]))
            else if text[it] == '/' then Some(Parts(host, "", text[it + 1..]))
            else if text[it] == ':' then Some(PortParts(host, text[it + 1..]))
            else None
  {
    if it < |text| {
      assert text[it..][1..] == text[it + 1..];
    }
  }

  /** A scan that stops at the first occurrence, or at the end, finds what FindFirst finds. */
  lemma FoundFirst(s: string, c: char, p: nat)
    requires p <= |s| && (forall i :: 0 <= i < p ==> s[i] != c) && (p < |s| ==> s[p] == c)
    ensures FindFirst(s, c) == if p < |s| then p else -1
  {
    if p < |s| {
      assert s[p] in s;
    }
  }

  // ----- The grammar -----

  /** Port and resource of an authority as they are written. */
  function Written(port: string, hasPort: bool, tail: string, hasTail: bool): string {
    (if hasPort then ":" + port else "") + (if hasTail then "/" + tail else "")
  }

  predicate WellWritten(port: string, hasPort: bool, tail: string, hasTail: bool) {
    '/' !in port && (!hasPort ==> port == "") && (!hasTail ==> tail == "")
  }

  /** A host in brackets may contain anything but the closing one; a plain one may not start with a bracket. */
  predicate HostText(host: string, text: string) {
    || (']' !in host && text == "[" + host + "]")
    || (PlainHost(host) && text == host)
  }

  predicate PlainHost(host: string) {
    ':' !in host && '/' !in host && (host == "" || host[0] != '[')
  }

  lemma PortPartsWritten(host: string, port: string, tail: string, hasTail: bool)
    requires '/' !in port && (!hasTail ==> tail == "")
    ensures PortParts(host, port + if hasTail then "/" + tail else "") == Parts(host, port, tail)
  {
    var s := port + if hasTail then "/" + tail else "";
    FoundFirst(s, '/', |port|);
    assert s[..|port|] == port;
    if hasTail {
      assert s[|port| + 1..] == tail;
    } else {
      assert s == port;
    }
  }

  lemma AfterHostWritten(host: string, port: string, hasPort: bool, tail: string, hasTail: bool)
    requires WellWritten(port, hasPort, tail, hasTail)
    ensures AfterHost(host, Written(port, hasPort, tail, hasTail)) == Some(Parts(host, port, tail))
  {
    hide PortParts;
    var s := Written(port, hasPort, tail, hasTail);
    if hasPort {
      PortPartsWritten(host, port, tail, hasTail);
      assert s[1..] == port + if hasTail then "/" + tail else "";
    } else if hasTail {
      assert s[1..] == tail;
    }
  }

  lemma CutAtSlash(s: string, e: nat)
    requires e < |s| && s[e] == '/' && forall i :: 0 <= i < e ==> s[i] != '/'
    ensures s == s[..e] + ("/" + s[e + 1..]) && '/' !in s[..e]
  {
    var cut := s[..e] + ("/" + s[e + 1..]);
    assert |cut| == |s|;
    assert forall i :: 0 <= i < |s| ==> cut[i] == s[i];
  }

  lemma PortPartsAreWritten(host: string, s: string) returns (hasTail: bool)
    ensures var parts := PortParts(host, s);
            && '/' !in parts.port && (!hasTail ==> parts.tail == "")
            && s == parts.port + if hasTail then "/" + parts.tail else ""
  {
    hide FindFirst;
    var e := FindFirst(s, '/');
    hasTail := e >= 0;
    if hasTail {
      CutAtSlash(s, e);
    } else {
      assert s == s + "";
    }
  }

  lemma AfterHostIsWritten(host: string, s: string) returns (hasPort: bool, hasTail: bool)
    requires AfterHost(host, s).Some?
    ensures var parts := AfterHost(host, s).value;
            && parts.host == host
            && WellWritten(parts.port, hasPort, parts.tail, hasTail)
            && s == Written(parts.port, hasPort, parts.tail, hasTail)
  {
    hide PortParts;
    hasPort, hasTail := s != "" && s[0] == ':', s != "" && s[0] == '/';
    if hasPort {
      hasTail := PortPartsAreWritten(host, s[1..]);
      var parts := PortParts(host, s[1..]);
      var behind := if hasTail then "/" + parts.tail else "";
      assert s == ":" + (parts.port + behind) == ":" + parts.port + behind;
    } else if hasTail {
      assert s == "/" + s[1..];
    }
  }

  /** The authorities the parser takes are exactly the written ones, read without loss. */
  lemma SplitIff(s: string, parts: Parts)
    ensures Split(s) == Some(parts) <==> exists text, hasPort, hasTail ::
              && HostText(parts.host, text) && WellWritten(parts.port, hasPort, parts.tail, hasTail)
              && s == text + Written(parts.port, hasPort, parts.tail, hasTail)
  {
    hide AfterHost, WellWritten;
    if Split(s) == Some(parts) {
      var text := SplitIsWritten(s);
    }
    forall text, hasPort, hasTail |
      && HostText(parts.host, text) && WellWritten(parts.port, hasPort, parts.tail, hasTail)
      && s == text + Written(parts.port, hasPort, parts.tail, hasTail)
      ensures Split(s) == Some(parts)
    {
      SplitWritten(parts.host, text, parts.port, hasPort, parts.tail, hasTail);
    }
  }

  lemma SplitIsWritten(s: string) returns (text: string)
    requires Split(s).Some?
    ensures var parts := Split(s).value;
            HostText(parts.host, text) && exists hasPort, hasTail ::
              && WellWritten(parts.port, hasPort, parts.tail, hasTail)
              && s == text + Written(parts.port, hasPort, parts.tail, hasTail)
  {
    hide AfterHost, WellWritten, Written;
    var hasPort, hasTail;
    if s != "" && s[0] == '[' {
      var e := FindFirst(s[1..], ']');
      text := s[..e + 2];
      assert text == "[" + s[1..e + 1] + "]";
      hasPort, hasTail := AfterHostIsWritten(s[1..e + 1], s[e + 2..]);
      assert s == text + s[e + 2..];
    } else {
      text := s[..HostEnd(s)];
      hasPort, hasTail := AfterHostIsWritten(text, s[HostEnd(s)..]);
      assert s == text + s[HostEnd(s)..];
    }
  }

  lemma SplitWritten(host: string, text: string, port: string, hasPort: bool, tail: string, hasTail: bool)
    requires HostText(host, text) && WellWritten(port, hasPort, tail, hasTail)
    ensures Split(text + Written(port, hasPort, tail, hasTail)) == Some(Parts(host, port, tail))
  {
    var after := Written(port, hasPort, tail, hasTail);
    assert after == "" || EndsHost(after[0]);
    hide Written, Split, WellWritten, AfterHost;
    AfterHostWritten(host, port, hasPort, tail, hasTail);
    if ']' !in host && text == "[" + host + "]" {
      SplitWrittenBracketed(host, after);
    } else {
      SplitWrittenPlain(host, after);
    }
  }

  lemma SplitWrittenBracketed(host: string, after: string)
    requires ']' !in host
    ensures Split("[" + host + "]" + after) == AfterHost(host, after)
  {
    hide AfterHost;
    var s := "[" + host + "]" + after;
    assert s[1..] == host + "]" + after;
    FoundFirst(s[1..], ']', |host|);
    assert s[1..|host| + 1] == host && s[|host| + 2..] == after;
  }

  lemma SplitWrittenPlain(host: string, after: string)
    requires PlainHost(host) && (after == "" || EndsHost(after[0]))
    ensures Split(host + after) == AfterHost(host, after)
  {
    hide AfterHost;
    var s := host + after;
    HostEndIs(s, |host|);
    assert s[..|host|] == host && s[|host|..] == after;
  }

  // ----- Printing and parsing again -----

  /** What every parsed URI satisfies. */
  predicate Parsed(u: Value) {
    && Scheme(u.scheme, u.secure) in [WSS, WS, HTTP, HTTPS]
    && 1 <= u.port <= 65535 && u.resource != "" && u.resource[0] == '/'
  }

  lemma ParseIsParsed(text: string)
    requires Parse(text).Some?
    ensures Parsed(Parse(text).value)
  {
    hide HasScheme, Split;
  }

  lemma SchemeOfPrefix(scheme: Scheme, rest: string)
    requires scheme in [WSS, WS, HTTP, HTTPS] && rest != ""
    ensures SchemeOf(Prefix(scheme) + rest) == Some(scheme)
  {
    var text := Prefix(scheme) + rest;
    assert text[..|Prefix(scheme)|] == Prefix(scheme);
    assert forall i :: 0 <= i < |Prefix(scheme)| ==> text[i] == Prefix(scheme)[i];
    assert HasScheme(text, scheme);
    assert Prefix(WSS) == "wss://" && Prefix(WS) == "ws://" && Prefix(HTTP) == "http://" && Prefix(HTTPS) == "https://";
    SchemeChar(text, WSS, 1);
    SchemeChar(text, WS, 2);
    SchemeChar(text, HTTP, 4);
    SchemeChar(text, scheme, 1);
    SchemeChar(text, scheme, 2);
    SchemeChar(text, scheme, 4);
    SchemeChar(text, WSS, 0);
    SchemeChar(text, WS, 0);
    SchemeChar(text, scheme, 0);
  }

  /** The four schemes, at least one character after the slashes, and nothing else. */
  lemma SchemeOfIff(text: string, s: Scheme)
    ensures SchemeOf(text) == Some(s) <==>
              && s in [Scheme("wss", true), Scheme("ws", false), Scheme("http", false), Scheme("https", true)]
              && |text| > |s.name| + 3 && text[..|s.name| + 3] == s.name + "://"
  {
    if s in [WSS, WS, HTTP, HTTPS] && |text| > |s.name| + 3 && text[..|s.name| + 3] == s.name + "://" {
      var rest := text[|s.name| + 3..];
      assert text == Prefix(s) + rest;
      SchemeOfPrefix(s, rest);
    }
  }

  lemma SchemeChar(text: string, scheme: Scheme, i: nat)
    ensures HasScheme(text, scheme) && i < |Prefix(scheme)| ==> text[i] == Prefix(scheme)[i]
  {
    if HasScheme(text, scheme) && i < |Prefix(scheme)| {
      assert text[i] == text[..|Prefix(scheme)|][i];
    }
  }

  /** The port that is printed, if it is not the default one. */
  function PortText(u: Value): string {
    if u.port != DefaultPort(u.secure) then Decimal(u.port) else ""
  }

  /** Printing writes an authority whose host has lost its brackets. */
  lemma StrIsWritten(u: Value)
    requires Parsed(u)
    ensures Str(u) == Prefix(Scheme(u.scheme, u.secure)) +
                      (u.host + Written(PortText(u), PortText(u) != "", u.resource[1..], true))
    ensures WellWritten(PortText(u), PortText(u) != "", u.resource[1..], true)
    ensures PortFromString(u.secure, PortText(u)) == Some(u.port)
    ensures var after := Written(PortText(u), PortText(u) != "", u.resource[1..], true);
            after != "" && EndsHost(after[0])
  {
    assert u.resource == "/" + u.resource[1..];
    NumeralOfDecimal(u.port);
    PortAcceptedIff(u.secure, PortText(u), u.port);
  }

  /** Printed text is split as its authority is. */
  lemma ParseOfStr(u: Value)
    requires Parsed(u)
    ensures var s := u.host + Written(PortText(u), PortText(u) != "", u.resource[1..], true);
            && (Split(s) == Some(Parts(u.host, PortText(u), u.resource[1..])) ==> Parse(Str(u)) == Some(u))
            && (Parse(Str(u)) == Some(u) ==> Split(s).Some? && Split(s).value.host == u.host)
  {
    hide Split, Written, SchemeOf, PortFromString, Str, PortText;
    StrIsWritten(u);
    var scheme := Scheme(u.scheme, u.secure);
    var s := u.host + Written(PortText(u), PortText(u) != "", u.resource[1..], true);
    SchemeOfPrefix(scheme, s);
    assert Str(u)[|Prefix(scheme)|..] == s;
    assert u.resource == "/" + u.resource[1..];
  }

  /** A text that equals itself moved by one is made of one character. */
  lemma {:induction false} ShiftedOntoItself(s: string, n: nat)
    requires n < |s| && s[..n] == s[1..n + 1]
    ensures forall i :: 0 <= i <= n ==> s[i] == s[0]
  {
    if n > 0 {
      assert s[n - 1] == s[..n][n - 1] == s[1..n + 1][n - 1] == s[n];
      assert forall i :: 0 <= i < n - 1 ==> s[..n][i] == s[1..n + 1][i];
      assert s[..n - 1] == s[1..n];
      ShiftedOntoItself(s, n - 1);
    }
  }

  /** Only a plain host is found again in front of what follows it. */
  lemma SplitKeepsPlainHost(host: string, after: string)
    requires after != "" && EndsHost(after[0])
    requires Split(host + after).Some? && Split(host + after).value.host == host
    ensures PlainHost(host)
  {
    hide PortParts;
    var s := host + after;
    if s[0] == '[' {
      var e := FindFirst(s[1..], ']');
      assert s[..|host|] == host && s[1..e + 1] == host;
      assert s[|host|] == after[0];
      ShiftedOntoItself(s, |host|);
    } else {
      assert s[..HostEnd(s)] == host;
    }
  }

  /** Parsing the printed form of a URI gives it back exactly when its host is plain. */
  lemma RoundTripIff(u: Value)
    requires Parsed(u)
    ensures Parse(Str(u)) == Some(u) <==> PlainHost(u.host)
  {
    hide Parse, Str, Split, PortText;
    StrIsWritten(u);
    ParseOfStr(u);
    var after := Written(PortText(u), PortText(u) != "", u.resource[1..], true);
    if PlainHost(u.host) {
      SplitWritten(u.host, u.host, PortText(u), PortText(u) != "", u.resource[1..], true);
    }
    if Parse(Str(u)) == Some(u) {
      SplitKeepsPlainHost(u.host, after);
    }
  }

  /** Every text that parses without brackets survives printing and parsing; one with a bracketed colon does not. */
  lemma ParseRoundTripIff(text: string)
    requires Parse(text).Some?
    ensures var u := Parse(text).value;
            Parse(Str(u)) == Some(u) <==> PlainHost(u.host)
  {
    ParseIsParsed(text);
    RoundTripIff(Parse(text).value);
  }

  /** A bracketed address is printed without its brackets and does not survive. */
  lemma BracketsAreLost()
    ensures var u := Value("ws", false, "::1", 80, "/");
            Parse("ws://[::1]/") == Some(u) && Parse(Str(u)) != Some(u)
  {
    hide Split, SchemeOf;
    var u := Value("ws", false, "::1", 80, "/");
    var rest := "[::1]/";
    assert "ws://[::1]/" == Prefix(WS) + rest;
    SchemeOfPrefix(WS, rest);
    assert "ws://[::1]/"[5..] == rest;
    SplitWrittenBracketed("::1", "/");
    assert rest == "[" + "::1" + "]" + "/";
    assert "/"[1..] == "";
    assert "/" + "" == "/";
    assert Split(rest) == Some(Parts("::1", "", ""));
    assert u.host[0] == ':';
    RoundTripIff(u);
  }

  // ----- What parses, and what is printed -----

  /** How a URI is written: scheme, host, perhaps a port, perhaps a resource. */
  predicate WrittenAs(text: string, u: Value, hostText: string,
                      port: string, hasPort: bool, tail: string, hasTail: bool)
  {
    && Scheme(u.scheme, u.secure) in [Scheme("wss", true), Scheme("ws", false), Scheme("http", false),
                                      Scheme("https", true)]
    && HostText(u.host, hostText) && WellWritten(port, hasPort, tail, hasTail)
    && hostText + Written(port, hasPort, tail, hasTail) != ""
    && text == (u.scheme + "://") + (hostText + Written(port, hasPort, tail, hasTail))
    && (if port == "" then u.port == (if u.secure then 443 else 80) else Numeral(port) == u.port)
    && 1 <= u.port <= 65535 && u.resource == "/" + tail
  }

  /** The texts that parse are exactly the written ones, and each parses to what it was written from. */
  lemma ParseIff(text: string, u: Value)
    ensures Parse(text) == Some(u) <==>
            exists hostText, port, hasPort, tail, hasTail :: WrittenAs(text, u, hostText, port, hasPort, tail, hasTail)
  {
    hide Parse;
    if Parse(text) == Some(u) {
      ParsedIsWritten(text, u);
    }
    forall hostText, port, hasPort, tail, hasTail | WrittenAs(text, u, hostText, port, hasPort, tail, hasTail)
      ensures Parse(text) == Some(u)
    {
      WrittenIsParsed(text, u, hostText, port, hasPort, tail, hasTail);
    }
  }

  lemma ParsedIsWritten(text: string, u: Value)
    requires Parse(text) == Some(u)
    ensures exists hostText, port, hasPort, tail, hasTail :: WrittenAs(text, u, hostText, port, hasPort, tail, hasTail)
  {
    hide SchemeOf, Split, PortFromString, HostText, WellWritten, Written;
    var scheme := SchemeOf(text).value;
    SchemeOfIff(text, scheme);
    var authority := text[|Prefix(scheme)|..];
    var parts := Split(authority).value;
    SplitIff(authority, parts);
    PortAcceptedIff(scheme.secure, parts.port, u.port);
    var hostText, hasPort, hasTail :|
      && HostText(parts.host, hostText) && WellWritten(parts.port, hasPort, parts.tail, hasTail)
      && authority == hostText + Written(parts.port, hasPort, parts.tail, hasTail);
    assert text == Prefix(scheme) + authority;
    assert WrittenAs(text, u, hostText, parts.port, hasPort, parts.tail, hasTail);
  }

  lemma WrittenIsParsed(text: string, u: Value, hostText: string,
                        port: string, hasPort: bool, tail: string, hasTail: bool)
    requires WrittenAs(text, u, hostText, port, hasPort, tail, hasTail)
    ensures Parse(text) == Some(u)
  {
    hide SchemeOf, Split, PortFromString, HostText, WellWritten, Written;
    var scheme := Scheme(u.scheme, u.secure);
    var authority := hostText + Written(port, hasPort, tail, hasTail);
    SchemeOfPrefix(scheme, authority);
    assert text == Prefix(scheme) + authority;
    assert text[|Prefix(scheme)|..] == authority;
    SplitWritten(u.host, hostText, port, hasPort, tail, hasTail);
    PortAcceptedIff(u.secure, port, u.port);
  }

  /** Behind the host no port is printed if it is the default, else one without leading zeros; then the resource. */
  lemma StrForm(u: Value)
    ensures u.port == (if u.secure then 443 else 80) ==> Str(u) == u.scheme + "://" + u.host + u.resource
    ensures u.port != (if u.secure then 443 else 80) ==>
            exists digits: string ::
              && Str(u) == u.scheme + "://" + u.host + (":" + digits) + u.resource
              && digits != "" && (forall i :: 0 <= i < |digits| ==> '0' <= digits[i] <= '9')
              && Numeral(digits) == u.port && (|digits| > 1 ==> digits[0] != '0')
  {
    if u.port != (if u.secure then 443 else 80) {
      var digits := Decimal(u.port);
      NumeralOfDecimal(u.port);
      hide Decimal, Numeral;
      assert Str(u) == u.scheme + "://" + u.host + (":" + digits) + u.resource;
    } else {
      assert u.scheme + "://" + u.host + "" + u.resource == u.scheme + "://" + u.host + u.resource;
    }
  }
}
