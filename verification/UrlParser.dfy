/**
  The parser of amqp_url.c in place: components are decoded into the buffer they are read from, and the
  result holds positions in that buffer.
 */
module UrlParser {
  import opened Wire
  import opened Url
  import UrlPrinter

  /** The bytes `text` and a NUL are at `at`, below `limit`. */
  predicate Holds(buf: Bytes, at: nat, text: Bytes, limit: nat)
  {
    at + |text| + 1 <= limit <= |buf| && buf[at..at + |text| + 1] == text + [0]
  }

  function Prepend(text: Bytes, r: Scanned): Scanned
  {
    r.(text := text + r.text)
  }

  /** One step of the scan. */
  lemma ScanStep(s: Bytes, colonAndAt: bool)
    requires 0 in s
    ensures IsDelim(s[0], colonAndAt) ==> Scan(s, colonAndAt) == Scanned([], s[0], s[1..])
    ensures !IsDelim(s[0], colonAndAt) && s[0] == PERCENT && Escaped(s[1..]).None? ==> Scan(s, colonAndAt) == Scanned([], PERCENT, s)
    ensures !IsDelim(s[0], colonAndAt) && s[0] == PERCENT && Escaped(s[1..]).Some? ==>
              |s| >= 3 && 0 in s[3..] && Scan(s, colonAndAt) == Prepend([Escaped(s[1..]).value], Scan(s[3..], colonAndAt))
    ensures !IsDelim(s[0], colonAndAt) && s[0] != PERCENT ==>
              0 in s[1..] && Scan(s, colonAndAt) == Prepend([s[0]], Scan(s[1..], colonAndAt))
  {
    if s[0] == PERCENT && Escaped(s[1..]).Some? {
      assert s == [s[0], s[1], s[2]] + s[3..];
      assert s[1..][0] == s[1] && s[1..][1] == s[2];
    } else {
      assert s == [s[0]] + s[1..];
    }
  }

  lemma PrependMore(text: Bytes, b: Byte, r: Scanned)
    ensures Prepend(text, Prepend([b], r)) == Prepend(text + [b], r)
  {
    assert text + ([b] + r.text) == (text + [b]) + r.text;
  }

  /** Writing at `to` keeps what is before `pp` and what is behind `to`. */
  lemma WriteByte(s: Bytes, pp: nat, to: nat, b: Byte, from: nat)
    requires pp <= to < from <= |s|
    ensures var t := s[to := b];
            t[..pp] == s[..pp] && t[pp..to + 1] == s[pp..to] + [b] && t[from..] == s[from..]
  {
  }

  /** The state of the scan: `s[pp..to]` is decoded, `s[from..]` is still to be read. */
  ghost predicate Scanning(start: Bytes, s: Bytes, pp: nat, to: nat, from: nat, colonAndAt: bool)
  {
    && pp <= to <= from <= |s| == |start| && s[..pp] == start[..pp] && s[from..] == start[from..]
    && 0 in s[from..] && 0 in start[pp..]
    && Scan(start[pp..], colonAndAt) == Prepend(s[pp..to], Scan(s[from..], colonAndAt))
  }

  ghost predicate Found(start: Bytes, s: Bytes, pp: nat, colonAndAt: bool, delim: Byte, pp': nat)
  {
    && |s| == |start| && pp <= |s| && s[..pp] == start[..pp] && 0 in start[pp..]
    && var r := Scan(start[pp..], colonAndAt);
       && delim == r.delim
       && (delim != PERCENT ==> pp < pp' <= |s| && s[pp'..] == r.rest == start[pp'..] && Holds(s, pp, r.text, pp'))
       && (delim == PERCENT ==> pp' == pp)
  }

  lemma AtDelim(start: Bytes, s: Bytes, pp: nat, to: nat, from: nat, colonAndAt: bool)
    requires Scanning(start, s, pp, to, from, colonAndAt)
    ensures from < |s|
    ensures IsDelim(s[from], colonAndAt) ==> Found(start, s[to := 0], pp, colonAndAt, s[from], from + 1)
  {
    hide Scan;
    ScanStep(s[from..], colonAndAt);
    if IsDelim(s[from], colonAndAt) {
      WriteByte(s, pp, to, 0, from + 1);
      assert s[pp..to] + [] == s[pp..to];
      assert s[from..][1..] == s[from + 1..] == start[from..][1..] == start[from + 1..];
    }
  }

  lemma AtText(start: Bytes, s: Bytes, pp: nat, to: nat, from: nat, colonAndAt: bool)
    requires Scanning(start, s, pp, to, from, colonAndAt) && from < |s| && !IsDelim(s[from], colonAndAt)
    ensures s[from] != PERCENT ==> Scanning(start, s[to := s[from]], pp, to + 1, from + 1, colonAndAt)
    ensures s[from] == PERCENT ==>
              match Escaped(s[from + 1..])
              case None => Found(start, s, pp, colonAndAt, PERCENT, pp)
              case Some(b) => from + 3 <= |s| && Scanning(start, s[to := b], pp, to + 1, from + 3, colonAndAt)
  {
    hide Scan, Escaped, IsDelim, Scanning, Prepend;
    var rest := s[from..];
    assert 0 in rest by { StillToRead(start, s, pp, to, from, colonAndAt); }
    ScanStep(rest, colonAndAt);
    assert rest[0] == s[from] && rest[1..] == s[from + 1..];
    if s[from] != PERCENT {
      Advance(start, s, pp, to, from, colonAndAt, 1, s[from]);
    } else {
      var e := Escaped(s[from + 1..]);
      if e.Some? {
        assert rest[3..] == s[from + 3..];
        Advance(start, s, pp, to, from, colonAndAt, 3, e.value);
      } else {
        Malformed(start, s, pp, to, from, colonAndAt);
      }
    }
  }

  lemma StillToRead(start: Bytes, s: Bytes, pp: nat, to: nat, from: nat, colonAndAt: bool)
    requires Scanning(start, s, pp, to, from, colonAndAt)
    ensures pp <= to <= from < |s| == |start| && 0 in s[from..]
  {
  }

  lemma Malformed(start: Bytes, s: Bytes, pp: nat, to: nat, from: nat, colonAndAt: bool)
    requires Scanning(start, s, pp, to, from, colonAndAt) && Scan(s[from..], colonAndAt).delim == PERCENT
    ensures Found(start, s, pp, colonAndAt, PERCENT, pp)
  {
    hide Scan;
  }

  lemma Advance(start: Bytes, s: Bytes, pp: nat, to: nat, from: nat, colonAndAt: bool, n: nat, b: Byte)
    requires Scanning(start, s, pp, to, from, colonAndAt) && 0 < n && from + n <= |s| && 0 in s[from + n..]
    requires Scan(s[from..], colonAndAt) == Prepend([b], Scan(s[from + n..], colonAndAt))
    ensures Scanning(start, s[to := b], pp, to + 1, from + n, colonAndAt)
  {
    hide Scan, Prepend;
    assert s[from + n..] == s[from..][n..] == start[from..][n..] == start[from + n..];
    WriteByte(s, pp, to, b, from + n);
    PrependMore(s[pp..to], b, Scan(s[from + n..], colonAndAt));
  }

  /** `find_delim`: the write position never passes the read position. */
  method FindDelim(a: array<Byte>, pp: nat, colonAndAt: bool) returns (delim: Byte, pp': nat)
    requires pp <= a.Length && 0 in a[pp..]
    modifies a
    ensures Found(old(a[..]), a[..], pp, colonAndAt, delim, pp')
  {
    hide Scan, Escaped, Scanning, Found;
    var from, to := pp, pp;
    ghost var start := a[..];
    StartScanning(start, pp, colonAndAt);
    while true
      invariant pp <= to <= from <= a.Length
      invariant Scanning(start, a[..], pp, to, from, colonAndAt)
      decreases a.Length - from
    {
      ghost var s := a[..];
      AtDelim(start, s, pp, to, from, colonAndAt);
      var ch := a[from];
      if IsDelim(ch, colonAndAt) {
        a[to] := 0;
        assert a[..] == s[to := 0];
        return ch, from + 1;
      }
      AtText(start, s, pp, to, from, colonAndAt);
      if ch == PERCENT {
        assert a[from + 1..] == s[from + 1..];
        var e := Escaped(a[from + 1..]);
        if e.None? {
          return PERCENT, pp;
        }
        a[to] := e.value;
        assert a[..] == s[to := e.value];
        from, to := from + 3, to + 1;
      } else {
        a[to] := ch;
        assert a[..] == s[to := ch];
        from, to := from + 1, to + 1;
      }
    }
  }

  lemma StartScanning(start: Bytes, pp: nat, colonAndAt: bool)
    requires pp <= |start| && 0 in start[pp..]
    ensures Scanning(start, start, pp, pp, pp, colonAndAt)
  {
    hide Scan;
    var r := Scan(start[pp..], colonAndAt);
    assert start[pp..pp] + r.text == r.text;
  }

  // ----- The components -----

  /** A pointer that is set exactly when there is a text, and then points to it. */
  predicate Points(buf: Bytes, at: Option<nat>, text: Option<Bytes>, limit: nat)
  {
    at.Some? == text.Some? && (at.Some? ==> Holds(buf, at.value, text.value, limit))
  }

  /** Later scans do not overwrite what lies before them. */
  lemma HoldsStill(start: Bytes, s: Bytes, at: nat, text: Bytes, limit: nat, pp: nat, limit': nat)
    requires Holds(start, at, text, limit) && limit <= pp <= |start| == |s| && s[..pp] == start[..pp] && limit <= limit' <= |s|
    ensures Holds(s, at, text, limit')
  {
    var end := at + |text| + 1;
    forall k | at <= k < end
      ensures s[k] == start[k]
    {
      assert s[k] == s[..pp][k] && start[k] == start[..pp][k];
    }
    assert s[at..end] == start[at..end];
  }

  lemma PointsStill(start: Bytes, s: Bytes, at: Option<nat>, text: Option<Bytes>, limit: nat, pp: nat, limit': nat)
    requires Points(start, at, text, limit) && limit <= pp <= |start| == |s| && s[..pp] == start[..pp] && limit <= limit' <= |s|
    ensures Points(s, at, text, limit')
  {
    if at.Some? {
      HoldsStill(start, s, at.value, text.value, limit, pp, limit');
    }
  }

  /** The C string at a component. */
  lemma {:induction false} HeldString(buf: Bytes, at: nat, text: Bytes, limit: nat)
    requires Holds(buf, at, text, limit)
    ensures at < |buf| && CString(buf[at..]) == CString(text) && (buf[at] == 0 <==> CString(text) == [])
    decreases |text|
  {
    var s := buf[at..];
    assert buf[at..at + |text| + 1][0] == buf[at] == s[0];
    if text != [] && text[0] != 0 {
      assert buf[at + 1..at + 1 + |text[1..]| + 1] == buf[at..at + |text| + 1][1..] == text[1..] + [0];
      HeldString(buf, at + 1, text[1..], limit);
      assert s[1..] == buf[at + 1..];
    }
  }

  /** What the first scans of `s0` from `url` on have found; `s` is the buffer afterwards. */
  ghost predicate FrontIs(
      s0: Bytes, url: nat, s: Bytes, user: Option<nat>, password: Option<nat>, host: nat, port: Option<nat>, delim: Byte, url': nat)
  {
    && url <= |s0| == |s| && 0 in s0[url..] && s[..url] == s0[..url]
    && var f := ParseFront(s0[url..]);
       && (delim == PERCENT <==> f.None?)
       && (delim != PERCENT ==>
             && delim == f.value.delim && url < url' <= |s| && s[url'..] == f.value.rest
             && Points(s, user, f.value.user, url') && Points(s, password, f.value.password, url')
             && Holds(s, host, f.value.host, url') && Points(s, port, f.value.port, url'))
  }

  lemma FrontPlain(s0: Bytes, url: nat, s1: Bytes, delim: Byte, u1: nat)
    requires Found(s0, s1, url, true, delim, u1) && delim != COLON && delim != AT
    ensures FrontIs(s0, url, s1, None, None, url, None, delim, u1)
  {
    hide Scan, Holds;
  }

  /** The buffer after a scan from `u1` agrees with that before it on everything below `u1`. */
  lemma SamePrefix(s0: Bytes, s1: Bytes, s2: Bytes, url: nat, u1: nat)
    requires |s0| == |s1| == |s2| && url <= u1 <= |s1| && s1[..url] == s0[..url] && s2[..u1] == s1[..u1]
    ensures s2[..url] == s0[..url]
  {
    assert s2[..url] == s2[..u1][..url] == s1[..u1][..url] == s1[..url];
  }

  lemma FrontColon(s0: Bytes, url: nat, s1: Bytes, u1: nat, s2: Bytes, delim: Byte, u2: nat)
    requires Found(s0, s1, url, true, COLON, u1) && Found(s1, s2, u1, true, delim, u2) && delim != AT
    ensures FrontIs(s0, url, s2, None, None, url, Some(u1), delim, u2)
  {
    hide Scan, Holds, ParseFront;
    FoundNext(s0, s1, url, true, COLON, u1);
    FrontWithPort(s0[url..], Scan(s0[url..], true).text, s1[u1..]);
    SamePrefix(s0, s1, s2, url, u1);
    if delim != PERCENT {
      HoldsStill(s1, s2, url, Scan(s0[url..], true).text, u1, u1, u2);
    }
  }

  lemma FrontAt(s0: Bytes, url: nat, s1: Bytes, u1: nat, s2: Bytes, delim: Byte, u2: nat)
    requires Found(s0, s1, url, true, AT, u1) && Found(s1, s2, u1, true, delim, u2)
    ensures FrontIs(s0, url, s2, Some(url), None, u1, None, delim, u2)
  {
    hide Scan, Holds, ParseFront;
    FoundNext(s0, s1, url, true, AT, u1);
    FrontWithUser(s0[url..], Scan(s0[url..], true).text, s1[u1..]);
    SamePrefix(s0, s1, s2, url, u1);
    if delim != PERCENT {
      HoldsStill(s1, s2, url, Scan(s0[url..], true).text, u1, u1, u2);
    }
  }

  lemma FrontColonAt(s0: Bytes, url: nat, s1: Bytes, u1: nat, s2: Bytes, u2: nat, s3: Bytes, delim: Byte, u3: nat)
    requires Found(s0, s1, url, true, COLON, u1) && Found(s1, s2, u1, true, AT, u2) && Found(s2, s3, u2, true, delim, u3)
    ensures FrontIs(s0, url, s3, Some(url), Some(u1), u2, None, delim, u3)
  {
    hide Scan, Holds, ParseFront;
    FoundNext(s0, s1, url, true, COLON, u1);
    FoundNext(s1, s2, u1, true, AT, u2);
    FrontWithPassword(s0[url..], Scan(s0[url..], true).text, s1[u1..], Scan(s1[u1..], true).text, s2[u2..]);
    SamePrefix(s0, s1, s2, url, u1);
    SamePrefix(s0, s2, s3, url, u2);
    if delim != PERCENT {
      HoldsStill(s1, s2, url, Scan(s0[url..], true).text, u1, u1, u2);
      HoldsStill(s2, s3, url, Scan(s0[url..], true).text, u2, u2, u3);
      HoldsStill(s2, s3, u1, Scan(s1[u1..], true).text, u2, u2, u3);
    }
  }

  lemma FoundNext(s0: Bytes, s1: Bytes, pp: nat, colonAndAt: bool, delim: Byte, pp': nat)
    requires Found(s0, s1, pp, colonAndAt, delim, pp')
    ensures delim != PERCENT && delim != 0 ==> pp < pp' <= |s1| && 0 in s1[pp'..]
  {
    hide Scan;
  }

  /** User information, if an at sign ends it, and the start of the host. */
  method ReadFront(a: array<Byte>, url: nat)
      returns (user: Option<nat>, password: Option<nat>, host: nat, start: nat, port: Option<nat>, delim: Byte, url': nat)
    requires url <= a.Length && 0 in a[url..]
    modifies a
    ensures FrontIs(old(a[..]), url, a[..], user, password, host, port, delim, url')
    ensures start == host <==> port.None?
  {
    hide Scan, Found, FrontIs;
    user, password, port := None, None, None;
    host, start := url, url;
    ghost var s0 := a[..];
    delim, url' := FindDelim(a, url, true);
    ghost var s1, u1 := a[..], url';
    FoundNext(s0, s1, url, true, delim, u1);
    if delim == COLON {
      port, start := Some(url'), url';
      delim, url' := FindDelim(a, url', true);
      FoundNext(s1, a[..], u1, true, delim, url');
      if delim != AT {
        FrontColon(s0, url, s1, u1, a[..], delim, url');
      }
    } else if delim != AT {
      FrontPlain(s0, url, s1, delim, u1);
    }
    ghost var s2, u2 := a[..], url';
    if delim == AT {
      user := Some(host);
      if port.Some? {
        password := port;
      }
      port, host, start := None, url', url';
      delim, url' := FindDelim(a, url', true);
      if password.Some? {
        FrontColonAt(s0, url, s1, u1, s2, u2, a[..], delim, url');
      } else {
        FrontAt(s0, url, s1, u1, a[..], delim, url');
      }
    }
  }

  /** What is to be parsed behind the delimiter. */
  predicate Behind(s: Bytes, delim: Byte, url: nat, rest: Bytes)
  {
    url <= |s| && s[url..] == rest && IsDelim(delim, true) && (delim != 0 ==> 0 in rest)
  }

  /** What reading the host has found; `s0` is the buffer before, `s` the buffer afterwards. */
  ghost predicate HostIs(f: Front, s0: Bytes, url: nat, s: Bytes, ok: bool, host: Option<nat>, delim: Byte, url': nat)
  {
    && Behind(s0, f.delim, url, f.rest) && |s| == |s0| && s[..url] == s0[..url]
    && var h := ParseHost(f);
       && ok == h.Some?
       && (ok ==> Behind(s, delim, url', h.value.rest) && url <= url' && delim == h.value.delim && Points(s, host, h.value.host, url'))
  }

  lemma HostPlain(f: Front, s: Bytes, url: nat, at: nat)
    requires Behind(s, f.delim, url, f.rest) && f.delim != OPEN && Holds(s, at, f.host, url)
    ensures at < |s| && HostIs(f, s, url, s, true, if s[at] != 0 then Some(at) else None, f.delim, url)
  {
    hide CString, Holds;
    HeldString(s, at, f.host, url);
  }

  lemma HostUnclosed(f: Front, s0: Bytes, url: nat, s1: Bytes, delim: Byte, u1: nat, host: Option<nat>)
    requires Behind(s0, f.delim, url, f.rest) && f.delim == OPEN
    requires Found(s0, s1, url, false, delim, u1) && delim != CLOSE
    ensures HostIs(f, s0, url, s1, false, host, delim, u1)
  {
    hide Scan, Holds, CString;
  }

  lemma HostInBrackets(f: Front, s0: Bytes, url: nat, s1: Bytes, u1: nat, s2: Bytes, delim: Byte, u2: nat)
    requires Behind(s0, f.delim, url, f.rest) && f.delim == OPEN && f.port.None? && CString(f.host) == []
    requires Found(s0, s1, url, false, CLOSE, u1) && Found(s1, s2, u1, true, delim, u2)
    ensures u1 < |s2|
    ensures HostIs(f, s0, url, s2, delim != PERCENT && s2[u1] == 0, Some(url), delim, u2)
  {
    hide Scan, Holds, CString;
    FoundNext(s0, s1, url, false, CLOSE, u1);
    SamePrefix(s0, s1, s2, url, u1);
    if delim != PERCENT {
      FoundNext(s1, s2, u1, true, delim, u2);
      HoldsStill(s1, s2, url, Scan(s0[url..], false).text, u1, u1, u2);
      HeldString(s2, u1, Scan(s1[u1..], true).text, u2);
    }
  }

  /** The host: an address in brackets, or what was read already. */
  method ReadHost(a: array<Byte>, host: nat, start: nat, delim: Byte, url: nat, ghost f: Front)
      returns (ok: bool, hostAt: Option<nat>, delim': Byte, url': nat)
    requires Behind(a[..], delim, url, f.rest) && delim == f.delim && Holds(a[..], host, f.host, url)
    requires start == host <==> f.port.None?
    modifies a
    ensures HostIs(f, old(a[..]), url, a[..], ok, hostAt, delim', url')
  {
    hide Scan, Found, CString, Holds, HostIs;
    ok, hostAt, delim', url' := false, None, delim, url;
    ghost var s0 := a[..];
    HeldString(s0, host, f.host, url);
    if delim == OPEN {
      if host != start || a[host] != 0 {
        NoBracketHere(f, s0, url, hostAt, delim, url);
        return;
      }
      delim', url' := FindDelim(a, url, false);
      ghost var s1, u1 := a[..], url';
      FoundNext(s0, s1, url, false, delim', u1);
      if delim' != CLOSE {
        HostUnclosed(f, s0, url, s1, delim', u1, hostAt);
        return;
      }
      hostAt := Some(url);
      var start' := url';
      delim', url' := FindDelim(a, url', true);
      HostInBrackets(f, s0, url, s1, u1, a[..], delim', url');
      ok := delim' != PERCENT && a[start'] == 0;
    } else {
      HostPlain(f, s0, url, host);
      ok := true;
      if a[host] != 0 {
        hostAt := Some(host);
      }
    }
  }

  lemma NoBracketHere(f: Front, s: Bytes, url: nat, host: Option<nat>, delim: Byte, url': nat)
    requires Behind(s, f.delim, url, f.rest) && f.delim == OPEN && (f.port.Some? || CString(f.host) != [])
    ensures HostIs(f, s, url, s, false, host, delim, url')
  {
    hide CString;
  }

  ghost predicate VhostIs(number: Option<nat>, delim: Byte, rest: Bytes, s0: Bytes, url: nat, s: Bytes, ok: bool, vhost: Option<nat>)
  {
    && Behind(s0, delim, url, rest) && |s| == |s0| && s[..url] == s0[..url]
    && var t := ParseVhost(number, delim, rest);
       ok == t.Some? && (ok ==> t.value.port == number && Points(s, vhost, t.value.vhost, |s|))
  }

  method ReadVhost(a: array<Byte>, delim: Byte, url: nat, ghost number: Option<nat>, ghost rest: Bytes)
      returns (ok: bool, vhost: Option<nat>)
    requires Behind(a[..], delim, url, rest)
    modifies a
    ensures VhostIs(number, delim, rest, old(a[..]), url, a[..], ok, vhost)
  {
    hide Scan, Found, Holds;
    vhost := None;
    if delim == SLASH {
      ghost var s0 := a[..];
      vhost := Some(url);
      var end, last := FindDelim(a, url, true);
      VhostFound(s0, url, a[..], end, last);
      ok := end == 0;
    } else {
      ok := delim == 0;
    }
  }

  lemma VhostFound(s0: Bytes, url: nat, s: Bytes, end: Byte, last: nat)
    requires Found(s0, s, url, true, end, last)
    ensures end == Scan(s0[url..], true).delim && |s| == |s0| && s[..url] == s0[..url]
    ensures end == 0 ==> Holds(s, url, Scan(s0[url..], true).text, |s|)
  {
    hide Scan;
  }

  ghost predicate TailIs(
      port: Option<Bytes>, h: HostPart, s0: Bytes, url: nat, s: Bytes, ok: bool, number: Option<nat>, vhost: Option<nat>)
  {
    && Behind(s0, h.delim, url, h.rest) && |s| == |s0| && s[..url] == s0[..url]
    && var t := ParseTail(port, h);
       ok == t.Some? && (ok ==> number == t.value.port && Points(s, vhost, t.value.vhost, |s|))
  }

  /** A port number that was scanned with the host. */
  lemma TailWithPort(port: Option<Bytes>, h: HostPart, s0: Bytes, url: nat, s: Bytes, ok: bool, vhost: Option<nat>)
    requires h.delim != COLON
    requires port.Some? ==> PortNumber(CString(port.value)).Some?
    requires var number := if port.Some? then PortNumber(CString(port.value)) else None;
             VhostIs(number, h.delim, h.rest, s0, url, s, ok, vhost)
    ensures var number := if port.Some? then PortNumber(CString(port.value)) else None;
            TailIs(port, h, s0, url, s, ok, number, vhost)
  {
    hide Points, CString, PortNumber, ParseVhost;
    var number := if port.Some? then PortNumber(CString(port.value)) else None;
    assert ParseTail(port, h) == ParseVhost(number, h.delim, h.rest);
  }

  /** A port number behind the host. */
  lemma TailBehindHost(
      port: Option<Bytes>, h: HostPart, s0: Bytes, url: nat, s1: Bytes, delim: Byte, u1: nat, s: Bytes,
      number: Option<nat>, ok: bool, vhost: Option<nat>)
    requires Behind(s0, h.delim, url, h.rest) && h.delim == COLON
    requires Found(s0, s1, url, true, delim, u1) && delim != PERCENT
    requires number == PortNumber(CString(Scan(h.rest, true).text)) && number.Some?
    requires VhostIs(number, delim, s1[u1..], s1, u1, s, ok, vhost)
    ensures TailIs(port, h, s0, url, s, ok, number, vhost)
  {
    hide Points, CString, PortNumber, ParseVhost, Scan, Holds;
    SamePrefix(s0, s1, s, url, u1);
    assert ParseTail(port, h) == ParseVhost(number, delim, s1[u1..]);
  }

  lemma NoPort(port: Option<Bytes>, h: HostPart, s0: Bytes, url: nat, s: Bytes, number: Option<nat>, vhost: Option<nat>)
    requires Behind(s0, h.delim, url, h.rest) && |s| == |s0| && s[..url] == s0[..url] && ParseTail(port, h).None?
    ensures TailIs(port, h, s0, url, s, false, number, vhost)
  {
    hide ParseTail;
  }

  /** The port and the virtual host. */
  method ReadTail(a: array<Byte>, port: Option<nat>, delim: Byte, url: nat, ghost portText: Option<Bytes>, ghost h: HostPart)
      returns (ok: bool, number: Option<nat>, vhost: Option<nat>)
    requires Behind(a[..], delim, url, h.rest) && delim == h.delim && Points(a[..], port, portText, url)
    modifies a
    ensures TailIs(portText, h, old(a[..]), url, a[..], ok, number, vhost)
  {
    hide Scan, Found, Holds, TailIs, VhostIs, PortNumber, CString;
    ok, number, vhost := false, None, None;
    ghost var s0 := a[..];
    if delim == COLON {
      var end, next := FindDelim(a, url, true);
      ghost var s1 := a[..];
      PortFound(s0, url, s1, end, next);
      number := PortNumber(CString(a[url..]));
      assert s1[url..] == a[url..];
      if number.None? || end == PERCENT {
        NoPort(portText, h, s0, url, s1, number, vhost);
        return;
      }
      ok, vhost := ReadVhost(a, end, next, number, s1[next..]);
      TailBehindHost(portText, h, s0, url, s1, end, next, a[..], number, ok, vhost);
    } else {
      if port.Some? {
        HeldString(s0, port.value, portText.value, url);
        assert s0[port.value..] == a[port.value..];
        number := PortNumber(CString(a[port.value..]));
        if number.None? {
          NoPort(portText, h, s0, url, s0, number, vhost);
          return;
        }
      }
      ok, vhost := ReadVhost(a, delim, url, number, h.rest);
      TailWithPort(portText, h, s0, url, a[..], ok, vhost);
    }
  }

  lemma PortFound(s0: Bytes, url: nat, s: Bytes, end: Byte, next: nat)
    requires Found(s0, s, url, true, end, next)
    ensures end == Scan(s0[url..], true).delim && url <= |s| == |s0| && s[..url] == s0[..url]
    ensures end != PERCENT ==> Behind(s, end, next, s[next..]) && CString(s[url..]) == CString(Scan(s0[url..], true).text)
  {
    hide Scan, Holds, CString;
    if end != PERCENT {
      HeldString(s, url, Scan(s0[url..], true).text, next);
    }
  }

  // ----- The whole parser -----

  /** Unset components are the defaults. */
  datatype Parsed = Parsed(user: Option<nat>, password: Option<nat>, host: Option<nat>, port: nat, vhost: Option<nat>, ssl: bool)

  function StringAt(buf: Bytes, at: Option<nat>, otherwise: Bytes): Bytes
  {
    if at.Some? && at.value <= |buf| then CString(buf[at.value..]) else otherwise
  }

  function InfoAt(buf: Bytes, p: Parsed): Info
  {
    Info(StringAt(buf, p.user, GUEST), StringAt(buf, p.password, GUEST), StringAt(buf, p.host, LOCALHOST), p.port,
         StringAt(buf, p.vhost, [SLASH]), p.ssl)
  }

  lemma PointsToText(buf: Bytes, at: Option<nat>, text: Option<Bytes>, limit: nat, otherwise: Bytes)
    requires Points(buf, at, text, limit)
    ensures StringAt(buf, at, otherwise) == Text(text, otherwise)
  {
    hide CString;
    if at.Some? {
      HeldString(buf, at.value, text.value, limit);
    }
  }

  /** Everything behind the scheme. After a malformed escape the source runs on, but only to report the error. */
  method ParseAuthorityInPlace(a: array<Byte>, url: nat, ssl: bool) returns (st: Status, parsed: Parsed)
    requires url <= a.Length && 0 in a[url..]
    modifies a
    ensures st == if ParseAuthority(old(a[url..]), ssl).Some? then OK else BadUrl
    ensures st == OK ==> ParseAuthority(old(a[url..]), ssl).value == InfoAt(a[..], parsed)
  {
    hide Holds, Points, CString, ParseFront, ParseHost, ParseTail, StringAt, Text;
    parsed := Parsed(None, None, None, if ssl then 5671 else 5672, None, ssl);
    ghost var s0 := a[..];
    assert s0[url..] == a[url..];
    var user, password, host, start, port, delim, url1 := ReadFront(a, url);
    if delim == PERCENT {
      return BadUrl, parsed;
    }
    ghost var f, s1 := ParseFront(s0[url..]).value, a[..];
    FrontPort(s1, port, f.port, url1);
    var ok, hostAt, delim2, url2 := ReadHost(a, host, start, delim, url1, f);
    if !ok {
      return BadUrl, parsed;
    }
    ghost var h, s2 := ParseHost(f).value, a[..];
    PointsStill(s1, s2, port, f.port, url1, url1, url2);
    var number, vhost;
    ok, number, vhost := ReadTail(a, port, delim2, url2, f.port, h);
    if !ok {
      return BadUrl, parsed;
    }
    ghost var s3 := a[..];
    StillText(s1, s2, s3, user, f.user, url1, url2, GUEST);
    StillText(s1, s2, s3, password, f.password, url1, url2, GUEST);
    StillText(s2, s2, s3, hostAt, h.host, url2, url2, LOCALHOST);
    PointsToText(s3, vhost, ParseTail(f.port, h).value.vhost, |s3|, [SLASH]);
    parsed := Parsed(user, password, hostAt, if number.Some? then number.value else parsed.port, vhost, ssl);
    return OK, parsed;
  }

  lemma FrontPort(s: Bytes, port: Option<nat>, text: Option<Bytes>, limit: nat)
    requires Points(s, port, text, limit)
    ensures port.None? <==> text.None?
  {
  }

  lemma StillText(s1: Bytes, s2: Bytes, s3: Bytes, at: Option<nat>, text: Option<Bytes>, u1: nat, u2: nat, otherwise: Bytes)
    requires Points(s1, at, text, u1) && u1 <= u2 <= |s1| == |s2| == |s3| && s2[..u1] == s1[..u1] && s3[..u2] == s2[..u2]
    ensures StringAt(s3, at, otherwise) == Text(text, otherwise)
  {
    hide Points, StringAt, Text;
    PointsStill(s1, s2, at, text, u1, u1, u2);
    PointsStill(s2, s3, at, text, u2, u2, u2);
    PointsToText(s3, at, text, u2, otherwise);
  }

  /** `amqp_parse_url` */
  method ParseInPlace(a: array<Byte>) returns (st: Status, parsed: Parsed)
    requires 0 in a[..]
    modifies a
    ensures st == if ParseUrl(old(a[..])).Some? then OK else BadUrl
    ensures st == OK ==> ParseUrl(old(a[..])).value == InfoAt(a[..], parsed)
    // the buffer began with a URL printed from valid parts, and these are what they spell
    ensures st == OK <==> exists p, rest :: UrlPrinter.ValidParts(p) && old(a[..]) == UrlPrinter.PrintUrl(p, rest)
    ensures forall p, rest :: UrlPrinter.ValidParts(p) && old(a[..]) == UrlPrinter.PrintUrl(p, rest) ==>
                                InfoAt(a[..], parsed) == UrlPrinter.InfoOf(p)
  {
    hide ParseAuthority, InfoAt, UrlPrinter.ValidParts, UrlPrinter.PrintUrl, UrlPrinter.InfoOf;
    UrlPrinter.AcceptsExactly(a[..]);
    parsed := Parsed(None, None, None, 5672, None, false);
    ghost var s := a[..];
    if AMQP <= a[..] {
      assert AMQP + s[7..] == s && a[7..] == s[7..];
      st, parsed := ParseAuthorityInPlace(a, 7, false);
    } else if AMQPS <= a[..] {
      assert AMQPS + s[8..] == s && a[8..] == s[8..];
      st, parsed := ParseAuthorityInPlace(a, 8, true);
    } else {
      st := BadUrl;
    }
  }
}
