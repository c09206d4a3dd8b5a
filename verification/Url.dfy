/**
  AMQP URLs (amqp_url.c) as a function of the text: components are percent-decoded (section 2.1 of
  RFC 3986) up to a delimiter. Strings are bytes up to a NUL, as in C.
 */
module Url {
  import opened Wire

  const COLON: Byte := 58
  const AT: Byte := 64
  const SLASH: Byte := 47
  const OPEN: Byte := 91
  const CLOSE: Byte := 93
  const PERCENT: Byte := 37
  const CHAR_MAX := 127

  const AMQP: Bytes := [97, 109, 113, 112, 58, 47, 47]          // amqp://
  const AMQPS: Bytes := [97, 109, 113, 112, 115, 58, 47, 47]    // amqps://
  const GUEST: Bytes := [103, 117, 101, 115, 116]
  const LOCALHOST: Bytes := [108, 111, 99, 97, 108, 104, 111, 115, 116]

  // ----- Scanning -----

  predicate IsDelim(b: Byte, colonAndAt: bool)
  {
    || b == 0 || b == SLASH || b == 63 || b == 35 || b == OPEN || b == CLOSE
    || (colonAndAt && (b == COLON || b == AT))
  }

  /** The value of a hexadecimal digit, 16 for any other byte. */
  function HexValue(b: Byte): (v: nat)
    ensures v <= 16
  {
    if 48 <= b <= 57 then b - 48 else if 65 <= b <= 70 then b - 55 else if 97 <= b <= 102 then b - 87 else 16
  }

  /** What follows a percent sign: the byte it stands for, unless it is malformed or not ASCII. */
  function Escaped(s: Bytes): Option<Byte>
  {
    if |s| >= 2 && HexValue(s[0]) < 16 && HexValue(s[1]) < 16 && HexValue(s[0]) * 16 + HexValue(s[1]) <= CHAR_MAX
    then Some(HexValue(s[0]) * 16 + HexValue(s[1])) else None
  }

  /** The decoded text up to a delimiter, and the rest behind that; `PERCENT` as the delimiter marks an error. */
  datatype Scanned = Scanned(text: Bytes, delim: Byte, rest: Bytes)

  function Scan(s: Bytes, colonAndAt: bool): (r: Scanned)
    requires 0 in s
    ensures r.delim == PERCENT || IsDelim(r.delim, colonAndAt)
    ensures r.delim != PERCENT ==> |r.text| + 1 + |r.rest| <= |s|
    ensures r.delim != PERCENT && r.delim != 0 ==> 0 in r.rest
    decreases |s|
  {
    if IsDelim(s[0], colonAndAt) then Scanned([], s[0], s[1..])
    else if s[0] == PERCENT then
      var e := Escaped(s[1..]);
      if e.None? then Scanned([], PERCENT, s)
      else
        var r := Scan(s[3..], colonAndAt);
        r.(text := [e.value] + r.text)
    else
      var r := Scan(s[1..], colonAndAt);
      r.(text := [s[0]] + r.text)
  }

  lemma ScanDelim(d: Byte, s: Bytes, colonAndAt: bool)
    requires IsDelim(d, colonAndAt) && (d == 0 || 0 in s)
    ensures 0 in [d] + s && Scan([d] + s, colonAndAt) == Scanned([], d, s)
  {
    var t := [d] + s;
    assert t[0] == d && t[1..] == s;
    assert d != 0 ==> 0 in t[1..];
  }

  lemma ScanPlain(b: Byte, s: Bytes, colonAndAt: bool)
    requires !IsDelim(b, colonAndAt) && b != PERCENT && 0 in s
    ensures 0 in [b] + s && Scan([b] + s, colonAndAt) == Scan(s, colonAndAt).(text := [b] + Scan(s, colonAndAt).text)
  {
    var t := [b] + s;
    assert t[0] == b && t[1..] == s;
  }

  lemma ScanEscape(h: Byte, l: Byte, s: Bytes, colonAndAt: bool)
    requires HexValue(h) < 16 && HexValue(l) < 16 && HexValue(h) * 16 + HexValue(l) <= CHAR_MAX && 0 in s
    ensures 0 in [PERCENT, h, l] + s
    ensures Scan([PERCENT, h, l] + s, colonAndAt) ==
            Scan(s, colonAndAt).(text := [HexValue(h) * 16 + HexValue(l)] + Scan(s, colonAndAt).text)
  {
    var t := [PERCENT, h, l] + s;
    assert t[0] == PERCENT && t[1..] == [h, l] + s && t[3..] == s;
    assert Escaped(t[1..]) == Some(HexValue(h) * 16 + HexValue(l));
    hide Escaped, HexValue;
  }

  /** A C string: the bytes before the first NUL. */
  function CString(s: Bytes): (r: Bytes)
    ensures |r| <= |s| && r == s[..|r|] && 0 !in r
    ensures |r| < |s| ==> s[|r|] == 0
  {
    if s == [] || s[0] == 0 then [] else [s[0]] + CString(s[1..])
  }

  // ----- Port numbers -----

  predicate IsSpace(b: Byte)
  {
    b == 32 || 9 <= b <= 13
  }

  predicate IsDigit(b: Byte)
  {
    48 <= b <= 57
  }

  function SkipSpaces(s: Bytes): Bytes
  {
    if s != [] && IsSpace(s[0]) then SkipSpaces(s[1..]) else s
  }

  predicate AllDigits(s: Bytes)
  {
    forall i :: 0 <= i < |s| ==> IsDigit(s[i])
  }

  function DecimalValue(s: Bytes): (v: nat)
    requires AllDigits(s)
  {
    if s == [] then 0 else DecimalValue(s[..|s| - 1]) * 10 + (s[|s| - 1] - 48)
  }

  /** `strtol` in base 10, taking the whole string. */
  function Strtol(s: Bytes): Option<int>
  {
    var t := SkipSpaces(s);
    var signed := t != [] && (t[0] == 43 || t[0] == 45);
    var digits := if signed then t[1..] else t;
    if digits == [] || !AllDigits(digits) then None
    else
      var v: int := DecimalValue(digits);
      Some(if signed && t[0] == 45 then 0 - v else v)
  }

  function PortNumber(s: Bytes): Option<nat>
  {
    var n := Strtol(s);
    if n.None? || n.value < 0 || n.value > 65535 then None else Some(n.value)
  }

  // ----- Parsing -----

  datatype Info = Info(user: Bytes, password: Bytes, host: Bytes, port: nat, vhost: Bytes, ssl: bool)

  /** What precedes the delimiter that ends the user information, or the host if there is none. */
  datatype Front = Front(user: Option<Bytes>, password: Option<Bytes>, host: Bytes, port: Option<Bytes>, delim: Byte, rest: Bytes)

  /** A colon may introduce a port or a password; an at sign shows which. */
  function ParseFront(s: Bytes): (f: Option<Front>)
    requires 0 in s
    ensures f.Some? ==> IsDelim(f.value.delim, true) && |f.value.rest| < |s|
    ensures f.Some? && f.value.delim != 0 ==> 0 in f.value.rest
  {
    var a := Scan(s, true);
    if a.delim == PERCENT then None
    else if a.delim == COLON then
      var b := Scan(a.rest, true);
      if b.delim == PERCENT then None
      else if b.delim == AT then
        var c := Scan(b.rest, true);
        if c.delim == PERCENT then None else Some(Front(Some(a.text), Some(b.text), c.text, None, c.delim, c.rest))
      else Some(Front(None, None, a.text, Some(b.text), b.delim, b.rest))
    else if a.delim == AT then
      var c := Scan(a.rest, true);
      if c.delim == PERCENT then None else Some(Front(Some(a.text), None, c.text, None, c.delim, c.rest))
    else Some(Front(None, None, a.text, None, a.delim, a.rest))
  }

  lemma FrontWithUser(s: Bytes, user: Bytes, host: Bytes)
    requires 0 in s && 0 in host && Scan(s, true) == Scanned(user, AT, host)
    ensures var c := Scan(host, true);
            ParseFront(s) == if c.delim == PERCENT then None else Some(Front(Some(user), None, c.text, None, c.delim, c.rest))
  {
    hide Scan;
  }

  lemma FrontWithPassword(s: Bytes, user: Bytes, later: Bytes, password: Bytes, host: Bytes)
    requires 0 in s && 0 in later && 0 in host
    requires Scan(s, true) == Scanned(user, COLON, later) && Scan(later, true) == Scanned(password, AT, host)
    ensures var c := Scan(host, true);
            ParseFront(s) == if c.delim == PERCENT then None else Some(Front(Some(user), Some(password), c.text, None, c.delim, c.rest))
  {
    hide Scan;
  }

  lemma FrontWithPort(s: Bytes, host: Bytes, later: Bytes)
    requires 0 in s && 0 in later && Scan(s, true) == Scanned(host, COLON, later) && Scan(later, true).delim != AT
    ensures var b := Scan(later, true);
            ParseFront(s) == if b.delim == PERCENT then None else Some(Front(None, None, host, Some(b.text), b.delim, b.rest))
  {
    hide Scan;
  }

  /** The host, if it is not empty, and what follows it. */
  datatype HostPart = HostPart(host: Option<Bytes>, delim: Byte, rest: Bytes)

  /** An address in brackets must be the whole host. */
  function ParseHost(f: Front): (h: Option<HostPart>)
    requires IsDelim(f.delim, true) && (f.delim != 0 ==> 0 in f.rest)
    ensures h.Some? ==> IsDelim(h.value.delim, true) && |h.value.rest| <= |f.rest|
    ensures h.Some? && h.value.delim != 0 ==> 0 in h.value.rest
  {
    if f.delim == OPEN then
      if f.port.Some? || CString(f.host) != [] then None
      else
        var a := Scan(f.rest, false);
        if a.delim != CLOSE then None
        else
          var b := Scan(a.rest, true);
          if b.delim == PERCENT || CString(b.text) != [] then None else Some(HostPart(Some(a.text), b.delim, b.rest))
    else Some(HostPart(if CString(f.host) != [] then Some(f.host) else None, f.delim, f.rest))
  }

  datatype Tail = Tail(port: Option<nat>, vhost: Option<Bytes>)

  function ParseVhost(port: Option<nat>, delim: Byte, rest: Bytes): Option<Tail>
    requires delim != 0 ==> 0 in rest
  {
    if delim == SLASH then
      var v := Scan(rest, true);
      if v.delim == 0 then Some(Tail(port, Some(v.text))) else None
    else if delim == 0 then Some(Tail(port, None)) else None
  }

  function ParseTail(port: Option<Bytes>, h: HostPart): Option<Tail>
    requires h.delim != 0 ==> 0 in h.rest
  {
    if h.delim == COLON then
      var p := Scan(h.rest, true);
      if p.delim == PERCENT || PortNumber(CString(p.text)).None? then None
      else ParseVhost(PortNumber(CString(p.text)), p.delim, p.rest)
    else if port.Some? then
      if PortNumber(CString(port.value)).None? then None
      else ParseVhost(PortNumber(CString(port.value)), h.delim, h.rest)
    else ParseVhost(None, h.delim, h.rest)
  }

  function Text(t: Option<Bytes>, otherwise: Bytes): Bytes
  {
    if t.Some? then CString(t.value) else otherwise
  }

  /** Everything behind the scheme. */
  function ParseAuthority(s: Bytes, ssl: bool): Option<Info>
    requires 0 in s
  {
    var f := ParseFront(s);
    if f.None? then None
    else
      var h := ParseHost(f.value);
      if h.None? then None
      else
        var t := ParseTail(f.value.port, h.value);
        if t.None? then None
        else
          var port := if t.value.port.Some? then t.value.port.value else if ssl then 5671 else 5672;
          Some(Info(Text(f.value.user, GUEST), Text(f.value.password, GUEST), Text(h.value.host, LOCALHOST), port,
                    Text(t.value.vhost, [SLASH]), ssl))
  }

  /** `amqp_parse_url` */
  function ParseUrl(s: Bytes): Option<Info>
    requires 0 in s
  {
    if AMQP <= s then assert AMQP + s[7..] == s; ParseAuthority(s[7..], false)
    else if AMQPS <= s then assert AMQPS + s[8..] == s; ParseAuthority(s[8..], true)
    else None
  }
}
