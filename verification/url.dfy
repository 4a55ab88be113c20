/**
 * `Session._build_url(target, transport)`: reads an optional scheme, a
 * host, an optional port and an optional `/wsman` path from the start of
 * the target, then fills in what is missing.
 *
 * The pattern, matched case-insensitively and anchored at the start only:
 *   ((http|https)://)? host=[0-9a-z-_.]+ (:port=\d+)? path=(/)?(wsman)?
 */
module Url {
  import opened Wrappers
  import opened Text

  /** The groups of a successful match, and where the match ends. */
  datatype Target = Target(scheme: Option<string>, host: string, port: Option<string>, path: string, end: nat)

  /** `[0-9a-z-_.]` under case-insensitive matching. */
  predicate IsHostChar(c: char) {
    ('0' <= c <= '9') || ('a' <= c <= 'z') || ('A' <= c <= 'Z') || c == '-' || c == '_' || c == '.'
  }

  function LowerChar(c: char): char {
    if 'A' <= c <= 'Z' then (c as int - 'A' as int + 'a' as int) as char else c
  }

  /** `s` starts with the lower-case word `w`, letters compared case-insensitively. */
  predicate StartsWithIgnoreCase(s: string, w: string) {
    |w| <= |s| && forall i :: 0 <= i < |w| ==> LowerChar(s[i]) == w[i]
  }

  /** The end of the longest run of host characters from `i`. */
  function HostEnd(s: string, i: nat): (j: nat)
    requires i <= |s|
    ensures i <= j <= |s|
    ensures forall k :: i <= k < j ==> IsHostChar(s[k])
    ensures j < |s| ==> !IsHostChar(s[j])
    decreases |s| - i
  {
    if i < |s| && IsHostChar(s[i]) then HostEnd(s, i + 1) else i
  }

  /** The end of the longest run of decimal digits from `i`. */
  function DigitsEnd(s: string, i: nat): (j: nat)
    requires i <= |s|
    ensures i <= j <= |s|
    ensures forall k :: i <= k < j ==> IsDigit(s[k])
    ensures j < |s| ==> !IsDigit(s[j])
    decreases |s| - i
  {
    if i < |s| && IsDigit(s[i]) then DigitsEnd(s, i + 1) else i
  }

  /** Where the host starts: after `https://` or `http://` when a host follows it, else at 0. */
  function HostStart(t: string): (i: nat)
    ensures i <= |t|
  {
    if StartsWithIgnoreCase(t, "https://") && HostEnd(t, 8) > 8 then 8
    else if StartsWithIgnoreCase(t, "http://") && HostEnd(t, 7) > 7 then 7
    else 0
  }

  /** The `scheme` group: the text before `://` when the scheme alternative matched. */
  function SchemeGroup(t: string): (r: Option<string>)
    ensures r.Some? ==> IsSchemeWord(r.value)
  {
    var start := HostStart(t);
    if start == 0 then None
    else
      assert forall i :: 0 <= i < start - 3 ==> t[..start - 3][i] == t[i];
      Some(t[..start - 3])
  }

  /** The end of the optional `:port` group that may follow the host ending at `h`. */
  function PortEnd(t: string, h: nat): (d: nat)
    requires h <= |t|
    ensures d == h || (h < |t| && t[h] == ':' && h + 1 < d <= |t| && IsPortNumber(t[h + 1..d]))
  {
    var d := if h < |t| && t[h] == ':' then DigitsEnd(t, h + 1) else h;
    if d > h + 1 then
      DigitsSlice(t, h + 1, d);
      d
    else h
  }

  lemma DigitsSlice(t: string, i: nat, j: nat)
    requires i <= j <= |t|
    requires forall k :: i <= k < j ==> IsDigit(t[k])
    ensures forall k :: 0 <= k < j - i ==> IsDigit(t[i..j][k])
  {
  }

  /** The optional path group `(/)?(wsman)?` read from `p0`: empty, a slash, `wsman`, or both. */
  predicate IsPathGroup(x: string) {
    || x == []
    || x == "/"
    || (|x| == 5 && StartsWithIgnoreCase(x, "wsman"))
    || (|x| == 6 && x[0] == '/' && StartsWithIgnoreCase(x[1..], "wsman"))
  }

  /** The end of the path group that starts at `p0`. */
  function PathEnd(t: string, p0: nat): (p2: nat)
    requires p0 <= |t|
    ensures p0 <= p2 <= |t| && IsPathGroup(t[p0..p2])
  {
    var p1 := if p0 < |t| && t[p0] == '/' then p0 + 1 else p0;
    if StartsWithIgnoreCase(t[p1..], "wsman") then
      assert forall i :: 0 <= i < 5 ==> t[p0..p1 + 5][p1 - p0..][i] == t[p1..][i];
      p1 + 5
    else p1
  }

  /** `re.match(pattern, t)`; `None` when not even one host character can be read. */
  function ParseTarget(t: string): (r: Option<Target>)
    ensures r.Some? ==> r.value.end <= |t|
    ensures r.Some? ==> r.value.scheme.Some? ==> IsSchemeWord(r.value.scheme.value)
    ensures r.Some? ==> IsHostName(r.value.host)
    ensures r.Some? ==> r.value.port.Some? ==> IsPortNumber(r.value.port.value)
    ensures r.Some? ==> IsPathGroup(r.value.path)
  {
    var start := HostStart(t);
    var h := HostEnd(t, start);
    if h == start then None
    else
      assert forall i :: 0 <= i < h - start ==> t[start..h][i] == t[start + i];
      var d := PortEnd(t, h);
      var port := if d > h then Some(t[h + 1..d]) else None;
      var p2 := PathEnd(t, d);
      Some(Target(SchemeGroup(t), t[start..h], port, t[d..p2], p2))
  }

  function DefaultScheme(transport: string): string {
    if transport == "ssl" then "https" else "http"
  }

  function DefaultPort(transport: string): string {
    if transport == "ssl" then "5986" else "5985"
  }

  /** `'{0}://{1}:{2}/{3}'.format(...)` */
  function Render(scheme: string, host: string, port: string, path: string): string {
    scheme + "://" + host + ":" + port + "/" + path
  }

  /**
   * `_build_url(target, transport)`; `None` where the source fails because
   * the pattern does not match at all.
   */
  function BuildUrl(target: string, transport: string): Option<string> {
    match ParseTarget(target)
    case None => None
    case Some(tg) =>
      var scheme := tg.scheme.GetOr(DefaultScheme(transport));
      var port := tg.port.GetOr(DefaultPort(transport));
      Some(Render(scheme, tg.host, port, BuiltPath(tg.path)))
  }

  // ---------------------------------------------------------------------
  // Defaults
  // ---------------------------------------------------------------------

  /** No scheme is read from text that starts with a host name followed by `rest` stopping the host. */
  lemma NoSchemeBeforeStop(h: string, rest: string)
    requires IsHostName(h)
    requires |rest| > 0 ==> !IsHostChar(rest[0]) && rest[0] != ':'
    ensures HostStart(h + rest) == 0
  {
    var t := h + rest;
    if |h| > 5 {
      assert t[5] == h[5];
      assert LowerChar(t[5]) != ':';
    }
    if |h| > 4 {
      assert t[4] == h[4];
      assert LowerChar(t[4]) != ':';
    }
    if |h| <= 5 && |t| >= 8 {
      assert t[|h|] == rest[0];
      assert LowerChar(t[|h|]) != "https://"[|h|];
    }
    if |h| <= 4 && |t| >= 7 {
      assert t[|h|] == rest[0];
      assert LowerChar(t[|h|]) != "http://"[|h|];
    }
  }

  /**
   * Whatever follows the host, when it can start neither a port nor a path,
   * is ignored: the address is the one built from the host alone.
   */
  lemma TrailingTextIgnored(h: string, rest: string, transport: string)
    requires IsHostName(h)
    requires |rest| > 0 ==> !IsHostChar(rest[0]) && rest[0] != ':' && rest[0] != '/'
    ensures BuildUrl(h + rest, transport) == Some(Render(DefaultScheme(transport), h, DefaultPort(transport), "wsman"))
  {
    var t := h + rest;
    NoSchemeBeforeStop(h, rest);
    HostEndAt(t, 0, |h|);
    assert !StartsWithIgnoreCase(t[|h|..], "wsman") by {
      if |rest| > 0 {
        assert t[|h|..][0] == rest[0];
      }
    }
    assert t[0..|h|] == h;
    assert ParseTarget(t) == Some(Target(None, h, None, [], |h|));
    assert LStripChar("wsman", '/') == "wsman";
  }

  /** Cutting the text at `e` cuts the host run at `e` and leaves it otherwise alone. */
  lemma {:induction false} HostEndPrefix(t: string, e: nat, i: nat)
    requires i <= e <= |t|
    ensures HostEnd(t[..e], i) == Min(HostEnd(t, i), e)
    decreases e - i
  {
    if i < e {
      assert t[..e][i] == t[i];
      HostEndPrefix(t, e, i + 1);
    }
  }

  /** Cutting the text at `e` cuts the digit run at `e` and leaves it otherwise alone. */
  lemma {:induction false} DigitsEndPrefix(t: string, e: nat, i: nat)
    requires i <= e <= |t|
    ensures DigitsEnd(t[..e], i) == Min(DigitsEnd(t, i), e)
    decreases e - i
  {
    if i < e {
      assert t[..e][i] == t[i];
      DigitsEndPrefix(t, e, i + 1);
    }
  }

  /** A prefix of `t` starts with a word exactly when it is long enough and `t` starts with that word. */
  lemma StartsWithPrefix(t: string, e: nat, w: string)
    requires e <= |t|
    ensures StartsWithIgnoreCase(t[..e], w) <==> |w| <= e && StartsWithIgnoreCase(t, w)
  {
    if |w| <= e {
      assert forall i :: 0 <= i < |w| ==> t[..e][i] == t[i];
    }
  }

  /** A prefix of `t` that keeps the whole host finds the host where `t` does. */
  lemma HostStartPrefix(t: string, e: nat)
    requires HostStart(t) < HostEnd(t, HostStart(t)) <= e <= |t|
    ensures HostStart(t[..e]) == HostStart(t)
  {
    var u := t[..e];
    StartsWithPrefix(t, e, "https://");
    StartsWithPrefix(t, e, "http://");
    if e >= 8 {
      HostEndPrefix(t, e, 8);
    }
    if e >= 7 {
      HostEndPrefix(t, e, 7);
    }
    assert (StartsWithIgnoreCase(u, "https://") && HostEnd(u, 8) > 8)
      == (StartsWithIgnoreCase(t, "https://") && HostEnd(t, 8) > 8);
    assert (StartsWithIgnoreCase(u, "http://") && HostEnd(u, 7) > 7)
      == (StartsWithIgnoreCase(t, "http://") && HostEnd(t, 7) > 7);
  }

  /** A prefix of `t` that keeps the whole host reads the same scheme group. */
  lemma SchemeGroupPrefix(t: string, e: nat)
    requires HostStart(t) < HostEnd(t, HostStart(t)) <= e <= |t|
    ensures SchemeGroup(t[..e]) == SchemeGroup(t)
  {
    HostStartPrefix(t, e);
    var start := HostStart(t);
    if start > 0 {
      assert t[..e][..start - 3] == t[..start - 3];
    }
  }

  /** A prefix of `t` that keeps the port group reads the same port group. */
  lemma PortEndPrefix(t: string, h: nat, e: nat)
    requires h <= |t| && PortEnd(t, h) <= e <= |t| && h <= e
    ensures PortEnd(t[..e], h) == PortEnd(t, h)
  {
    if h < e {
      assert t[..e][h] == t[h];
      DigitsEndPrefix(t, e, h + 1);
    }
  }

  /** A prefix of `t` that keeps the path group reads the same path group. */
  lemma PathEndPrefix(t: string, d: nat, e: nat)
    requires d <= |t| && PathEnd(t, d) <= e <= |t| && d <= e
    ensures PathEnd(t[..e], d) == PathEnd(t, d)
  {
    var u := t[..e];
    if d < e {
      assert u[d] == t[d];
    }
    var p1 := if d < |t| && t[d] == '/' then d + 1 else d;
    if p1 <= e {
      assert forall k :: 0 <= k < |u[p1..]| ==> u[p1..][k] == t[p1..][k];
    }
  }

  /** The match read off where its groups end. */
  lemma ParseFromEnds(u: string, start: nat, h: nat, d: nat, p2: nat)
    requires start == HostStart(u) && h == HostEnd(u, start) > start
    requires d == PortEnd(u, h) && p2 == PathEnd(u, d)
    ensures ParseTarget(u) == Some(Target(SchemeGroup(u), u[start..h], if d > h then Some(u[h + 1..d]) else None, u[d..p2], p2))
  {
  }

  /** Two texts whose groups end at the same places and hold the same text give the same match. */
  lemma ParseSameGroups(t: string, u: string, start: nat, h: nat, d: nat, p2: nat)
    requires start == HostStart(t) == HostStart(u)
    requires h == HostEnd(t, start) == HostEnd(u, start) > start
    requires d == PortEnd(t, h) == PortEnd(u, h) && p2 == PathEnd(t, d) == PathEnd(u, d)
    requires SchemeGroup(u) == SchemeGroup(t)
    requires u[start..h] == t[start..h] && u[d..p2] == t[d..p2]
    requires d > h ==> u[h + 1..d] == t[h + 1..d]
    ensures ParseTarget(u) == ParseTarget(t)
  {
    ParseFromEnds(t, start, h, d, p2);
    ParseFromEnds(u, start, h, d, p2);
  }

  lemma SliceOfPrefix(t: string, e: nat, i: nat, j: nat)
    requires i <= j <= e <= |t|
    ensures t[..e][i..j] == t[i..j]
  {
  }

  /** Cutting the text where the match ends moves none of the places where its groups end. */
  lemma PrefixKeepsEnds(t: string, start: nat, h: nat, d: nat, p2: nat)
    requires start == HostStart(t) && h == HostEnd(t, start) > start
    requires d == PortEnd(t, h) && p2 == PathEnd(t, d)
    ensures HostStart(t[..p2]) == start && HostEnd(t[..p2], start) == h
    ensures PortEnd(t[..p2], h) == d && PathEnd(t[..p2], d) == p2
    ensures SchemeGroup(t[..p2]) == SchemeGroup(t)
  {
    SchemeGroupPrefix(t, p2);
    HostStartPrefix(t, p2);
    HostEndPrefix(t, p2, start);
    PortEndPrefix(t, h, p2);
    PathEndPrefix(t, d, p2);
  }

  /** Matching the matched text alone gives the same match: the pattern never looks past its end. */
  lemma ParsePrefix(t: string)
    requires ParseTarget(t).Some?
    ensures ParseTarget(t[..ParseTarget(t).value.end]) == ParseTarget(t)
  {
    var start := HostStart(t);
    var h := HostEnd(t, start);
    var d := PortEnd(t, h);
    var p2 := PathEnd(t, d);
    ParseFromEnds(t, start, h, d, p2);
    PrefixKeepsEnds(t, start, h, d, p2);
    SliceOfPrefix(t, p2, start, h);
    SliceOfPrefix(t, p2, d, p2);
    if d > h {
      SliceOfPrefix(t, p2, h + 1, d);
    }
    ParseSameGroups(t, t[..p2], start, h, d, p2);
  }

  /**
   * Whatever follows the text the pattern matched is ignored: the address
   * is the one built from the matched text alone.
   */
  lemma TextAfterMatchIgnored(t: string, transport: string)
    requires ParseTarget(t).Some?
    ensures BuildUrl(t, transport) == BuildUrl(t[..ParseTarget(t).value.end], transport)
  {
    ParsePrefix(t);
  }

  /** `"server01"` becomes `http://server01:5985/wsman`, or `https://server01:5986/wsman` over SSL. */
  lemma ServerExample(t: string)
    requires t == "server01"
    ensures BuildUrl(t, "plaintext") == Some(Render("http", "server01", "5985", "wsman"))
    ensures BuildUrl(t, "ssl") == Some(Render("https", "server01", "5986", "wsman"))
  {
    assert IsHostName(t);
    assert t + [] == t;
    TrailingTextIgnored(t, [], "plaintext");
    TrailingTextIgnored(t, [], "ssl");
  }

  // ---------------------------------------------------------------------
  // Complete addresses
  // ---------------------------------------------------------------------

  /** `http` or `https`, in any letter case. */
  predicate IsSchemeWord(s: string) {
    (|s| == 4 && StartsWithIgnoreCase(s, "http")) || (|s| == 5 && StartsWithIgnoreCase(s, "https"))
  }

  /** The path part after the slash of a built address: empty, or `wsman` in any letter case. */
  predicate IsPathWord(w: string) {
    w == [] || (|w| == 5 && StartsWithIgnoreCase(w, "wsman"))
  }

  predicate IsHostName(h: string) {
    |h| > 0 && forall i :: 0 <= i < |h| ==> IsHostChar(h[i])
  }

  predicate IsPortNumber(p: string) {
    |p| > 0 && forall i :: 0 <= i < |p| ==> IsDigit(p[i])
  }

  lemma {:induction false} HostEndAt(u: string, i: nat, j: nat)
    requires i <= j <= |u|
    requires forall k :: i <= k < j ==> IsHostChar(u[k])
    requires j < |u| ==> !IsHostChar(u[j])
    ensures HostEnd(u, i) == j
    decreases j - i
  {
    if i < j {
      HostEndAt(u, i + 1, j);
    }
  }

  lemma {:induction false} DigitsEndAt(u: string, i: nat, j: nat)
    requires i <= j <= |u|
    requires forall k :: i <= k < j ==> IsDigit(u[k])
    requires j < |u| ==> !IsDigit(u[j])
    ensures DigitsEnd(u, i) == j
    decreases j - i
  {
    if i < j {
      DigitsEndAt(u, i + 1, j);
    }
  }

  /** Where each part of a rendered address sits. */
  lemma RenderedLayout(s: string, h: string, p: string, w: string)
    ensures var u := Render(s, h, p, w);
      var a := |s| + 3;
      var hEnd := a + |h|;
      var pEnd := hEnd + 1 + |p|;
      && |u| == pEnd + 1 + |w|
      && u[..|s|] == s
      && u[|s|..a] == "://"
      && (forall i :: a <= i < hEnd ==> u[i] == h[i - a])
      && u[a..hEnd] == h
      && u[hEnd] == ':'
      && (forall i :: hEnd + 1 <= i < pEnd ==> u[i] == p[i - hEnd - 1])
      && u[hEnd + 1..pEnd] == p
      && u[pEnd] == '/'
      && u[pEnd + 1..] == w
      && u[pEnd..] == "/" + w
  {
    var u := Render(s, h, p, w);
    assert u == s + "://" + h + ":" + p + "/" + w;
  }

  /** The scheme of a rendered address is recognised as such. */
  lemma RenderedScheme(s: string, h: string, p: string, w: string)
    requires IsSchemeWord(s) && IsHostName(h)
    ensures HostStart(Render(s, h, p, w)) == |s| + 3
  {
    var u := Render(s, h, p, w);
    RenderedLayout(s, h, p, w);
    var a := |s| + 3;
    HostEndAt(u, a, a + |h|);
    assert u[..|s|] == s && u[|s|..a] == "://";
    assert u[|s|] == ':' && u[|s| + 1] == '/' && u[|s| + 2] == '/';
    assert forall i :: 0 <= i < |s| ==> u[i] == s[i];
    if |s| == 5 {
      assert StartsWithIgnoreCase(u, "https://");
    } else {
      assert !StartsWithIgnoreCase(u, "https://") by {
        assert u[4] == ':';
      }
      assert StartsWithIgnoreCase(u, "http://");
    }
  }

  /** The match of an address that has a scheme, a port and a slash. */
  lemma ParseFullTarget(u: string, a: nat, hEnd: nat, pEnd: nat, p2: nat)
    requires 3 <= a == HostStart(u) && HostEnd(u, a) == hEnd > a
    requires hEnd < |u| && u[hEnd] == ':'
    requires DigitsEnd(u, hEnd + 1) == pEnd > hEnd + 1
    requires pEnd < |u| && u[pEnd] == '/'
    requires p2 == if StartsWithIgnoreCase(u[pEnd + 1..], "wsman") then pEnd + 6 else pEnd + 1
    ensures ParseTarget(u) == Some(Target(Some(u[..a - 3]), u[a..hEnd], Some(u[hEnd + 1..pEnd]), u[pEnd..p2], p2))
  {
  }

  /** After the slash of an address, a path word runs to the end, whether it is empty or `wsman`. */
  lemma PathWordRunsToEnd(u: string, pEnd: nat, w: string)
    requires pEnd < |u| && u[pEnd + 1..] == w && IsPathWord(w)
    ensures (if StartsWithIgnoreCase(u[pEnd + 1..], "wsman") then pEnd + 6 else pEnd + 1) == |u|
  {
  }

  /** Text laid out as `s://h:p/w`, with the scheme recognised, parses into those parts. */
  lemma ParseLaidOut(u: string, s: string, h: string, p: string, w: string)
    requires IsSchemeWord(s) && IsHostName(h) && IsPortNumber(p) && IsPathWord(w)
    requires HostStart(u) == |s| + 3
    requires var a := |s| + 3;
      var hEnd := a + |h|;
      var pEnd := hEnd + 1 + |p|;
      && |u| == pEnd + 1 + |w|
      && u[..|s|] == s
      && u[a..hEnd] == h
      && u[hEnd] == ':'
      && u[hEnd + 1..pEnd] == p
      && u[pEnd] == '/'
      && u[pEnd + 1..] == w
    ensures ParseTarget(u) == Some(Target(Some(s), h, Some(p), "/" + w, |u|))
  {
    var a := |s| + 3;
    var hEnd := a + |h|;
    var pEnd := hEnd + 1 + |p|;
    HostRunAt(u, a, h);
    PortRunAt(u, hEnd + 1, p);
    PathWordRunsToEnd(u, pEnd, w);
    ParseFullTarget(u, a, hEnd, pEnd, |u|);
    LaidOutParts(u, s, h, p, w, a, hEnd, pEnd);
  }

  /** A host name laid out from `a` and followed by a colon is the whole host run. */
  lemma HostRunAt(u: string, a: nat, h: string)
    requires IsHostName(h) && a + |h| < |u| && u[a..a + |h|] == h && u[a + |h|] == ':'
    ensures HostEnd(u, a) == a + |h|
  {
    assert forall i :: a <= i < a + |h| ==> u[i] == u[a..a + |h|][i - a];
    HostEndAt(u, a, a + |h|);
  }

  /** A port number laid out from `b` and followed by a slash is the whole digit run. */
  lemma PortRunAt(u: string, b: nat, p: string)
    requires IsPortNumber(p) && b + |p| < |u| && u[b..b + |p|] == p && u[b + |p|] == '/'
    ensures DigitsEnd(u, b) == b + |p|
  {
    assert forall i :: b <= i < b + |p| ==> u[i] == u[b..b + |p|][i - b];
    DigitsEndAt(u, b, b + |p|);
  }

  /** The parts `ParseFullTarget` cuts out of text laid out as `s://h:p/w` are `s`, `h`, `p` and `/w`. */
  lemma LaidOutParts(u: string, s: string, h: string, p: string, w: string, a: nat, hEnd: nat, pEnd: nat)
    requires a == |s| + 3 && hEnd == a + |h| && pEnd == hEnd + 1 + |p| && |u| == pEnd + 1 + |w|
    requires u[..|s|] == s && u[a..hEnd] == h && u[hEnd + 1..pEnd] == p && u[pEnd] == '/' && u[pEnd + 1..] == w
    requires ParseTarget(u) == Some(Target(Some(u[..a - 3]), u[a..hEnd], Some(u[hEnd + 1..pEnd]), u[pEnd..|u|], |u|))
    ensures ParseTarget(u) == Some(Target(Some(s), h, Some(p), "/" + w, |u|))
  {
    assert u[pEnd..|u|] == [u[pEnd]] + u[pEnd + 1..];
  }

  /** A complete address parses back into exactly its own parts. */
  lemma ParseRendered(s: string, h: string, p: string, w: string)
    requires IsSchemeWord(s) && IsHostName(h) && IsPortNumber(p) && IsPathWord(w)
    ensures var u := Render(s, h, p, w);
      ParseTarget(u) == Some(Target(Some(s), h, Some(p), "/" + w, |u|))
  {
    RenderedLayout(s, h, p, w);
    RenderedScheme(s, h, p, w);
    ParseLaidOut(Render(s, h, p, w), s, h, p, w);
  }

  /** A complete address is left exactly as it is. */
  lemma CompleteAddressPreserved(s: string, h: string, p: string, w: string, transport: string)
    requires IsSchemeWord(s) && IsHostName(h) && IsPortNumber(p) && IsPathWord(w)
    ensures BuildUrl(Render(s, h, p, w), transport) == Some(Render(s, h, p, w))
  {
    ParseRendered(s, h, p, w);
    assert LStripChar("/" + w, '/') == LStripChar(w, '/');
    if w != [] {
      assert w[0] != '/';
    }
  }

  /** Stripping the leading slash from a non-empty path group leaves an empty path or `wsman`. */
  lemma PathGroupStripped(x: string)
    requires IsPathGroup(x) && x != []
    ensures IsPathWord(LStripChar(x, '/'))
  {
    if x[0] == '/' {
      assert LStripChar(x, '/') == LStripChar(x[1..], '/');
      if |x| == 6 {
        assert x[1..][0] != '/' by {
          assert LowerChar(x[1..][0]) == 'w';
        }
      }
    } else {
      assert LowerChar(x[0]) == 'w';
    }
  }

  /** What fills a missing scheme or port is itself a scheme word and a port number. */
  lemma DefaultsAreWellFormed(scheme: Option<string>, port: Option<string>, transport: string)
    requires scheme.Some? ==> IsSchemeWord(scheme.value)
    requires port.Some? ==> IsPortNumber(port.value)
    ensures IsSchemeWord(scheme.GetOr(DefaultScheme(transport)))
    ensures IsPortNumber(port.GetOr(DefaultPort(transport)))
  {
    if scheme.None? {
      var d := DefaultScheme(transport);
      assert IsSchemeWord(d) by {
        if transport == "ssl" {
          assert StartsWithIgnoreCase("https", "https");
        } else {
          assert StartsWithIgnoreCase("http", "http");
        }
      }
    }
    if port.None? {
      var d := DefaultPort(transport);
      assert forall i :: 0 <= i < |d| ==> IsDigit(d[i]);
    }
  }

  /** The path a match contributes to the built address. */
  function BuiltPath(group: string): string {
    LStripChar(if group == [] then "wsman" else group, '/')
  }

  lemma BuiltPathIsPathWord(group: string)
    requires IsPathGroup(group)
    ensures IsPathWord(BuiltPath(group))
  {
    if group == [] {
      assert LStripChar("wsman", '/') == "wsman";
    } else {
      PathGroupStripped(group);
    }
  }

  lemma BuildUrlOfMatch(t: string, transport: string)
    requires ParseTarget(t).Some?
    ensures var tg := ParseTarget(t).value;
      BuildUrl(t, transport) ==
        Some(Render(tg.scheme.GetOr(DefaultScheme(transport)), tg.host, tg.port.GetOr(DefaultPort(transport)), BuiltPath(tg.path)))
  {
  }

  /**
   * Whenever the pattern matches, the address has the form
   * `scheme://host:port/path` with a scheme word, the matched host, a port
   * number and a path that is empty or `wsman`; a missing path becomes `wsman`.
   */
  lemma BuildUrlWellFormed(t: string, transport: string)
    requires ParseTarget(t).Some?
    ensures var tg := ParseTarget(t).value;
      var scheme := tg.scheme.GetOr(DefaultScheme(transport));
      var port := tg.port.GetOr(DefaultPort(transport));
      && BuildUrl(t, transport) == Some(Render(scheme, tg.host, port, BuiltPath(tg.path)))
      && IsSchemeWord(scheme) && IsHostName(tg.host) && IsPortNumber(port) && IsPathWord(BuiltPath(tg.path))
      && (tg.path == [] ==> BuiltPath(tg.path) == "wsman")
  {
    var tg := ParseTarget(t).value;
    BuildUrlOfMatch(t, transport);
    DefaultsAreWellFormed(tg.scheme, tg.port, transport);
    BuiltPathIsPathWord(tg.path);
    assert LStripChar("wsman", '/') == "wsman";
  }

  /** Building an address from an address already built changes nothing, whatever the transport. */
  lemma BuildUrlIdempotent(t: string, transport: string, transport2: string)
    requires BuildUrl(t, transport).Some?
    ensures BuildUrl(BuildUrl(t, transport).value, transport2) == BuildUrl(t, transport)
  {
    var tg := ParseTarget(t).value;
    var scheme := tg.scheme.GetOr(DefaultScheme(transport));
    var port := tg.port.GetOr(DefaultPort(transport));
    BuildUrlOfMatch(t, transport);
    DefaultsAreWellFormed(tg.scheme, tg.port, transport);
    BuiltPathIsPathWord(tg.path);
    CompleteAddressPreserved(scheme, tg.host, port, BuiltPath(tg.path), transport2);
  }
}
