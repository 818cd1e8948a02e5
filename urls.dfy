/**
  The parts of Go's `net/url` the mapping code relies on: `url.Parse`
  (RFC 3986 generic syntax `scheme:[//[userinfo@]host]path[?query][#fragment]`),
  `URL.String` and `URL.RequestURI`. Percent-escapes are checked where
  `url.Parse` checks them but not decoded, and nothing is escaped when a URL
  is printed: every component is kept as the raw text it was parsed from.
 */
module Urls {
  import opened Wrappers
  import opened Strings
  import Paths

  /** A parsed URL: `user` is the raw userinfo before '@', if any. */
  datatype Url = Url(
    scheme: string,
    rootless: string,
    user: Option<string>,
    host: string,
    path: string,
    rawQuery: string,
    fragment: string)

  datatype UrlError =
    | InvalidControlCharacter
    | MissingProtocolScheme
    | ColonInFirstSegment
    | MissingBracket
    | InvalidPort(port: string)
    | InvalidUserinfo
    | InvalidHostChar(c: char)
    | InvalidEscape(s: string)

  /** A URL that has only a path. */
  function PathOnly(p: string): Url {
    Url("", "", None, "", p, "", "")
  }

  /** The origin of a URL: scheme, userinfo and host, nothing else (mapping.go builds this as `baseTarget`). */
  function Origin(u: Url): Url {
    Url(u.scheme, "", u.user, u.host, "", "", "")
  }

  predicate IsCtl(c: char) {
    c < ' ' || c == '\U{7F}'
  }

  predicate HasCtl(s: string) {
    exists c :: c in s && IsCtl(c)
  }

  predicate IsAlpha(c: char) {
    'a' <= c <= 'z' || 'A' <= c <= 'Z'
  }

  predicate IsDigit(c: char) {
    '0' <= c <= '9'
  }

  predicate IsSchemeChar(c: char) {
    IsAlpha(c) || IsDigit(c) || c == '+' || c == '-' || c == '.'
  }

  /** RFC 3986 scheme syntax: a letter followed by letters, digits, '+', '-' or '.'. */
  predicate IsScheme(s: string) {
    |s| > 0 && IsAlpha(s[0]) && forall c :: c in s ==> IsSchemeChar(c)
  }

  predicate IsLower(s: string) {
    forall c :: c in s ==> !('A' <= c <= 'Z')
  }

  function LowerChar(c: char): char {
    if 'A' <= c <= 'Z' then (c as int + 32) as char else c
  }

  /** ASCII lower-casing, which is all `strings.ToLower` does to a scheme. */
  function ToLower(s: string): (r: string)
    ensures |r| == |s|
    ensures forall i :: 0 <= i < |s| ==> r[i] == LowerChar(s[i])
  {
    seq(|s|, i requires 0 <= i < |s| => LowerChar(s[i]))
  }

  /** Lower-casing keeps a scheme a scheme, makes it lower-case, and leaves a lower-case one alone. */
  lemma ToLowerScheme(s: string)
    ensures IsScheme(s) ==> IsScheme(ToLower(s))
    ensures IsLower(ToLower(s))
    ensures IsLower(s) ==> ToLower(s) == s
  {
    var r := ToLower(s);
    forall c | c in r ensures !('A' <= c <= 'Z') && (IsScheme(s) ==> IsSchemeChar(c)) {
      var i :| 0 <= i < |r| && r[i] == c;
      assert s[i] in s;
    }
    if IsLower(s) {
      forall i | 0 <= i < |s| ensures r[i] == s[i] {
        assert s[i] in s;
      }
    }
  }

  /** The scan of `getScheme` past the first character, which was a letter. */
  function SchemeScan(raw: string, i: nat): (r: (string, string))
    requires 1 <= i <= |raw| && IsAlpha(raw[0])
    requires forall k :: 0 <= k < i ==> IsSchemeChar(raw[k])
    ensures r.0 != "" ==> IsScheme(r.0) && raw == r.0 + ":" + r.1
    ensures r.0 == "" ==> r.1 == raw
    decreases |raw| - i
  {
    if i == |raw| then ("", raw)
    else if IsSchemeChar(raw[i]) then SchemeScan(raw, i + 1)
    else if raw[i] == ':' then
      assert raw == raw[..i] + ":" + raw[i + 1..];
      assert forall c :: c in raw[..i] ==> IsSchemeChar(c);
      (raw[..i], raw[i + 1..])
    else ("", raw)
  }

  /**
    `getScheme`: splits off a leading scheme and its ':'. A ':' in first
    position is an error; anything that is not a scheme followed by ':'
    leaves the whole input as the rest.
   */
  function GetScheme(raw: string): (r: Result<(string, string), UrlError>)
    ensures r.Err? <==> HasPrefix(raw, ":")
    ensures r.Ok? && r.value.0 != "" ==> IsScheme(r.value.0) && raw == r.value.0 + ":" + r.value.1
    ensures r.Ok? && r.value.0 == "" ==> r.value.1 == raw
  {
    if |raw| == 0 then Ok(("", raw))
    else if IsAlpha(raw[0]) then Ok(SchemeScan(raw, 1))
    else if raw[0] == ':' then Err(MissingProtocolScheme)
    else Ok(("", raw))
  }

  lemma {:induction false} SchemeScanFinds(scheme: string, rest: string, i: nat)
    requires IsScheme(scheme) && 1 <= i <= |scheme|
    ensures var raw := scheme + ":" + rest;
      forall k :: 0 <= k < i ==> IsSchemeChar(raw[k])
    ensures SchemeScan(scheme + ":" + rest, i) == (scheme, rest)
    decreases |scheme| - i
  {
    var raw := scheme + ":" + rest;
    forall k | 0 <= k < |scheme| ensures raw[k] == scheme[k] && IsSchemeChar(raw[k]) {
      assert scheme[k] in scheme;
    }
    if i < |scheme| {
      SchemeScanFinds(scheme, rest, i + 1);
    } else {
      assert raw[..i] == scheme && raw[i + 1..] == rest;
    }
  }

  /** getScheme finds every scheme that is followed by ':'. */
  lemma GetSchemeFinds(scheme: string, rest: string)
    requires IsScheme(scheme)
    ensures GetScheme(scheme + ":" + rest) == Ok((scheme, rest))
  {
    SchemeScanFinds(scheme, rest, 1);
  }

  /** `validOptionalPort`: empty, or ':' followed by digits only. */
  predicate ValidOptionalPort(port: string) {
    port == "" || (port[0] == ':' && forall c :: c in port[1..] ==> IsDigit(c))
  }

  /** `parseHost`: a bracketed IP literal needs its ']', whatever follows the last ':' (after the ']' for a literal) must be a port, and the host must pass `unescape` in host mode. */
  function ParseHost(h: string): Result<string, UrlError>
  {
    if HasPrefix(h, "[") then
      var j := LastIndexOf(h, ']');
      if j < 0 then Err(MissingBracket)
      else if !ValidOptionalPort(h[j + 1..]) then Err(InvalidPort(h[j + 1..]))
      else UnescapeHost(h)
    else
      var i := LastIndexOf(h, ':');
      if i >= 0 && !ValidOptionalPort(h[i..]) then Err(InvalidPort(h[i..]))
      else UnescapeHost(h)
  }

  /**
    The characters `shouldEscape` lets through unescaped in a host:
    letters, digits, the unreserved marks, the sub-delimiters, and ':',
    '[', ']', '<', '>' and '"'.
   */
  predicate IsHostChar(c: char) {
    || IsAlpha(c) || IsDigit(c)
    || c in {'-', '.', '_', '~', '!', '$', '&', '\'', '(', ')', '*', '+', ',', ';', '=', ':', '[', ']', '<', '>', '"'}
  }

  predicate IsHex(c: char) {
    IsDigit(c) || 'a' <= c <= 'f' || 'A' <= c <= 'F'
  }

  /** `unescape(h, encodeHost)`: the host is kept as written, or the error its first offending character or escape gives. */
  function UnescapeHost(h: string): Result<string, UrlError>
  {
    match HostScan(h, 0)
    case Some(e) => Err(e)
    case None => Ok(h)
  }

  /**
    The checking pass of `unescape` in host mode, from position `i`: a '%'
    needs two hex digits and, unless it is "%25", must encode a byte of
    0x80 or more; any other ASCII character must be one `shouldEscape`
    lets through. Characters from 0x80 up pass.
   */
  function HostScan(h: string, i: nat): Option<UrlError>
    requires i <= |h|
    decreases |h| - i
  {
    if i == |h| then None
    else if h[i] == '%' then
      if i + 2 >= |h| || !IsHex(h[i + 1]) || !IsHex(h[i + 2]) then
        Some(InvalidEscape(h[i..if i + 3 <= |h| then i + 3 else |h|]))
      else if '0' <= h[i + 1] <= '7' && h[i..i + 3] != "%25" then
        Some(InvalidEscape(h[i..i + 3]))
      else HostScan(h, i + 3)
    else if h[i] < '\U{80}' && !IsHostChar(h[i]) then Some(InvalidHostChar(h[i]))
    else HostScan(h, i + 1)
  }

  /** What a host passing the scan from `i` holds: every ASCII character from there on that is not a '%' is a host character. */
  lemma {:induction false} HostScanChars(h: string, i: nat)
    requires i <= |h| && HostScan(h, i).None?
    ensures forall k :: i <= k < |h| && h[k] < '\U{80}' && h[k] != '%' ==> IsHostChar(h[k])
    decreases |h| - i
  {
    if i < |h| {
      if h[i] == '%' {
        HostScanChars(h, i + 3);
      } else {
        HostScanChars(h, i + 1);
      }
    }
  }

  /** A host `parseHost` accepts is kept as written and has only host characters among its ASCII characters other than escapes. */
  lemma ParseHostChars(h: string)
    requires ParseHost(h).Ok?
    ensures ParseHost(h) == Ok(h)
    ensures forall k :: 0 <= k < |h| && h[k] < '\U{80}' && h[k] != '%' ==> IsHostChar(h[k])
  {
    HostScanChars(h, 0);
  }

  /** A space, for one, is no host character: `url.Parse` rejects "http://a b/". */
  lemma HostSpaceRejected()
    ensures ParseHost("a b") == Err(InvalidHostChar(' '))
    ensures ParseHost("a|b") == Err(InvalidHostChar('|'))
  {
    assert UnescapeHost("a b") == Err(InvalidHostChar(' ')) by {
      assert HostScan("a b", 1) == Some(InvalidHostChar(' '));
    }
    assert UnescapeHost("a|b") == Err(InvalidHostChar('|')) by {
      assert HostScan("a|b", 1) == Some(InvalidHostChar('|'));
    }
    assert !HasPrefix("a b", "[") && LastIndexOf("a b", ':') == -1;
    assert !HasPrefix("a|b", "[") && LastIndexOf("a|b", ':') == -1;
  }

  /** In a host an escape must be finished, and only "%25" may escape an ASCII byte. */
  lemma HostEscapeRejected()
    ensures ParseHost("a%41") == Err(InvalidEscape("%41"))
    ensures ParseHost("a%4") == Err(InvalidEscape("%4"))
  {
    assert UnescapeHost("a%41") == Err(InvalidEscape("%41")) by {
      assert "a%41"[1..4] == "%41";
      assert HostScan("a%41", 1) == Some(InvalidEscape("%41"));
      assert HostScan("a%41", 0) == HostScan("a%41", 1);
    }
    assert UnescapeHost("a%4") == Err(InvalidEscape("%4")) by {
      assert "a%4"[1..3] == "%4";
      assert HostScan("a%4", 1) == Some(InvalidEscape("%4"));
      assert HostScan("a%4", 0) == HostScan("a%4", 1);
    }
    assert !HasPrefix("a%41", "[") && LastIndexOf("a%41", ':') == -1;
    assert !HasPrefix("a%4", "[") && LastIndexOf("a%4", ':') == -1;
  }

  /** "%25" and escapes of bytes from 0x80 up pass in a host, which is kept as written. */
  lemma HostEscapeAccepted()
    ensures ParseHost("a%25b") == Ok("a%25b")
    ensures ParseHost("%c3%a9") == Ok("%c3%a9")
  {
    assert UnescapeHost("a%25b") == Ok("a%25b") by {
      assert "a%25b"[1..4] == "%25";
      assert HostScan("a%25b", 4) == None;
      assert HostScan("a%25b", 1) == None;
      assert HostScan("a%25b", 0) == None;
    }
    assert UnescapeHost("%c3%a9") == Ok("%c3%a9") by {
      assert HostScan("%c3%a9", 3) == None;
      assert HostScan("%c3%a9", 0) == None;
    }
    assert !HasPrefix("a%25b", "[") && LastIndexOf("a%25b", ':') == -1;
    assert !HasPrefix("%c3%a9", "[") && LastIndexOf("%c3%a9", ':') == -1;
  }

  predicate IsUserinfoChar(c: char) {
    IsAlpha(c) || IsDigit(c) || c in "-._:~!$&'()*+,;=%@"
  }

  /** `validUserinfo`: only unreserved characters, sub-delimiters, ':', '%' and '@'. */
  predicate ValidUserinfo(s: string) {
    forall c :: c in s ==> IsUserinfoChar(c)
  }

  /**
    The checking pass of `unescape` outside the host modes, from position
    `i`: each '%' must be followed by two hex digits, or the error holds the
    '%' and at most the two characters after it.
   */
  function EscapeScan(s: string, i: nat): (r: Option<UrlError>)
    requires i <= |s|
    ensures r.Some? ==> r.value.InvalidEscape? && HasPrefix(r.value.s, "%")
    decreases |s| - i
  {
    if i == |s| then None
    else if s[i] != '%' then EscapeScan(s, i + 1)
    else if i + 2 >= |s| || !IsHex(s[i + 1]) || !IsHex(s[i + 2]) then
      Some(InvalidEscape(s[i..if i + 3 <= |s| then i + 3 else |s|]))
    else EscapeScan(s, i + 3)
  }

  /** The '%' at position `j` begins an escape: two hex digits follow it. */
  predicate EscapeAt(s: string, j: nat)
    requires j < |s|
  {
    j + 2 < |s| && IsHex(s[j + 1]) && IsHex(s[j + 2])
  }

  /** Every '%' begins an escape. */
  predicate ValidEscapes(s: string) {
    forall j :: 0 <= j < |s| && s[j] == '%' ==> EscapeAt(s, j)
  }

  /** Appending a '/' to a string whose every '%' begins an escape keeps it so, and "/" is such a string. */
  lemma EscapesAppendSlash(p: string)
    requires ValidEscapes(p)
    ensures ValidEscapes(p + "/") && ValidEscapes("/")
  {
    var q := p + "/";
    forall j | 0 <= j < |q| && q[j] == '%'
      ensures EscapeAt(q, j)
    {
      assert q[j] == p[j];
      assert EscapeAt(p, j);
      assert q[j + 1] == p[j + 1] && q[j + 2] == p[j + 2];
    }
    assert "/"[0] == '/';
  }

  /** The scan from `i` passes exactly when every '%' from `i` on begins an escape. */
  lemma {:induction false} EscapeScanFrom(s: string, i: nat)
    requires i <= |s|
    ensures EscapeScan(s, i).None? <==> forall j :: i <= j < |s| && s[j] == '%' ==> EscapeAt(s, j)
    decreases |s| - i
  {
    if i < |s| {
      if s[i] != '%' {
        EscapeScanFrom(s, i + 1);
      } else if EscapeAt(s, i) {
        EscapeScanFrom(s, i + 3);
        assert s[i + 1] != '%' && s[i + 2] != '%';
      }
    }
  }

  lemma EscapeScanValid(s: string)
    ensures EscapeScan(s, 0).None? <==> ValidEscapes(s)
  {
    EscapeScanFrom(s, 0);
  }

  /** The `unescape` calls of `parseAuthority` on the userinfo: the whole of it without a ':', else the username before the first ':' and then the password after it. */
  function UserinfoEscapes(userinfo: string): Option<UrlError>
  {
    var (name, password) := CutOr(userinfo, ':');
    match EscapeScan(name, 0)
    case Some(e) => Some(e)
    case None => EscapeScan(password, 0)
  }

  /** Checking the username and the password apart accepts the same userinfo as checking it whole. */
  lemma UserinfoEscapesValid(userinfo: string)
    ensures UserinfoEscapes(userinfo).None? <==> ValidEscapes(userinfo)
  {
    var (name, password) := CutOr(userinfo, ':');
    EscapeScanValid(name);
    EscapeScanValid(password);
    if ':' in userinfo {
      var n := |name|;
      assert userinfo[n] == ':' && !IsHex(':');
      forall j | 0 <= j < n
        ensures userinfo[j] == name[j]
      {
      }
      forall j | n < j < |userinfo|
        ensures userinfo[j] == password[j - n - 1]
      {
      }
      if ValidEscapes(userinfo) {
        forall j | 0 <= j < n && name[j] == '%'
          ensures EscapeAt(name, j)
        {
          assert userinfo[j] == '%' && EscapeAt(userinfo, j);
        }
        forall j | 0 <= j < |password| && password[j] == '%'
          ensures EscapeAt(password, j)
        {
          assert userinfo[j + n + 1] == '%' && EscapeAt(userinfo, j + n + 1);
        }
      }
      if ValidEscapes(name) && ValidEscapes(password) {
        forall j | 0 <= j < |userinfo| && userinfo[j] == '%'
          ensures EscapeAt(userinfo, j)
        {
          if j < n {
            assert name[j] == '%' && EscapeAt(name, j);
          } else {
            assert password[j - n - 1] == '%' && EscapeAt(password, j - n - 1);
          }
        }
      }
    } else {
      assert ValidEscapes("");
    }
  }

  /** `parseAuthority`: userinfo is everything before the last '@', the host everything after it. */
  function ParseAuthority(authority: string): Result<(Option<string>, string), UrlError>
  {
    var i := LastIndexOf(authority, '@');
    var hostPart := if i < 0 then authority else authority[i + 1..];
    match ParseHost(hostPart)
    case Err(e) => Err(e)
    case Ok(host) =>
      if i < 0 then Ok((None, host))
      else if !ValidUserinfo(authority[..i]) then Err(InvalidUserinfo)
      else match UserinfoEscapes(authority[..i])
        case Some(e) => Err(e)
        case None => Ok((Some(authority[..i]), host))
  }

  /** The authority runs up to the first '/', which starts the path. */
  function SplitAuthority(s: string): (r: (string, string))
    ensures s == r.0 + r.1 && '/' !in r.0
    ensures r.1 == "" || r.1[0] == '/'
  {
    var i := IndexOf(s, '/');
    if i < 0 then (s, "")
    else
      assert s == s[..i] + s[i..];
      (s[..i], s[i..])
  }

  /** `parse(rawURL, viaRequest = false)`: a URL without its fragment. */
  function ParseReference(raw: string): Result<Url, UrlError>
  {
    if HasCtl(raw) then Err(InvalidControlCharacter)
    else if raw == "*" then Ok(PathOnly("*"))
    else
      match GetScheme(raw)
      case Err(e) => Err(e)
      case Ok((scheme, rest)) => ParseAfterScheme(ToLower(scheme), rest)
  }

  /** The part of `parse` after the scheme: the query is cut off at the first '?', then the rest is a rootless part, an authority and path, or a path. */
  function ParseAfterScheme(scheme: string, rest0: string): Result<Url, UrlError>
  {
    var (rest, query) := CutOr(rest0, '?');
    if !HasPrefix(rest, "/") && scheme != "" then
      // a rootless path after a scheme is kept whole (Go's URL.Opaque)
      Ok(Url(scheme, rest, None, "", "", query, ""))
    else if !HasPrefix(rest, "/") && ':' in CutOr(rest, '/').0 then
      Err(ColonInFirstSegment)
    else if (scheme != "" || !HasPrefix(rest, "///")) && HasPrefix(rest, "//") then
      ParseAuthorityPath(scheme, rest[2..], query)
    else
      SetPath(Url(scheme, "", None, "", "", query, ""), rest)
  }

  /** What follows "//": the authority up to the first '/', then the path. */
  function ParseAuthorityPath(scheme: string, s: string, query: string): Result<Url, UrlError>
  {
    var (authority, path) := SplitAuthority(s);
    match ParseAuthority(authority)
    case Err(e) => Err(e)
    case Ok((user, host)) => SetPath(Url(scheme, "", user, host, "", query, ""), path)
  }

  /** `URL.setPath`: the path is kept when its escapes are well formed. */
  function SetPath(u: Url, p: string): Result<Url, UrlError>
  {
    match EscapeScan(p, 0)
    case Some(e) => Err(e)
    case None => Ok(u.(path := p))
  }

  /** `URL.setFragment`: the fragment is kept when its escapes are well formed. */
  function SetFragment(u: Url, f: string): Result<Url, UrlError>
  {
    match EscapeScan(f, 0)
    case Some(e) => Err(e)
    case None => Ok(u.(fragment := f))
  }

  /** `url.Parse`: the fragment is cut off at the first '#', the rest parsed as a reference, then the fragment set. */
  function Parse(raw: string): Result<Url, UrlError>
  {
    var (u, frag) := CutOr(raw, '#');
    match ParseReference(u)
    case Err(e) => Err(e)
    case Ok(url) => SetFragment(url, frag)
  }

  /** A host as `url.Parse` leaves it: no separator of another component, no control character, only host characters among its ASCII characters other than escapes, and accepted by parseHost. */
  ghost predicate WellFormedHost(host: string) {
    && '/' !in host && '@' !in host && '?' !in host && '#' !in host
    && !HasCtl(host)
    && (forall k :: 0 <= k < |host| && host[k] < '\U{80}' && host[k] != '%' ==> IsHostChar(host[k]))
    && ParseHost(host) == Ok(host)
  }

  /** Userinfo as `url.Parse` leaves it: only userinfo characters, and every '%' begins an escape. */
  ghost predicate WellFormedUser(user: Option<string>) {
    user.Some? ==> ValidUserinfo(user.value) && ValidEscapes(user.value)
  }

  lemma ParseAuthorityParts(authority: string)
    requires '/' !in authority && '?' !in authority && '#' !in authority && !HasCtl(authority)
    ensures var r := ParseAuthority(authority);
      r.Ok? ==> WellFormedHost(r.value.1) && WellFormedUser(r.value.0)
  {
    var r := ParseAuthority(authority);
    if r.Ok? {
      HostPartOf(authority);
      var i := LastIndexOf(authority, '@');
      if i < 0 {
        AcceptedHostWellFormed(authority);
        assert r.value.1 == authority;
      } else {
        var hostPart := authority[i + 1..];
        assert forall c :: c in hostPart ==> c in authority;
        AcceptedHostWellFormed(hostPart);
        assert r.value.1 == hostPart;
      }
    }
  }

  /** What parseAuthority returns: the host after the last '@', as parseHost keeps it, and the userinfo before it, which validUserinfo accepts. */
  lemma HostPartOf(authority: string)
    requires ParseAuthority(authority).Ok?
    ensures var i := LastIndexOf(authority, '@');
      var hostPart := if i < 0 then authority else authority[i + 1..];
      && ParseHost(hostPart) == Ok(ParseAuthority(authority).value.1)
      && '@' !in hostPart
      && WellFormedUser(ParseAuthority(authority).value.0)
  {
    var i := LastIndexOf(authority, '@');
    if i >= 0 {
      UserinfoEscapesValid(authority[..i]);
    }
  }

  /** A host parseHost accepts, holding no separator of another component and no control character, is well formed. */
  lemma AcceptedHostWellFormed(h: string)
    requires '/' !in h && '@' !in h && '?' !in h && '#' !in h && !HasCtl(h)
    requires ParseHost(h).Ok?
    ensures WellFormedHost(h)
  {
    ParseHostChars(h);
  }

  /** The parts of a URL as `url.Parse` returns them. */
  ghost predicate WellParsed(u: Url) {
    && (u.scheme == "" || (IsScheme(u.scheme) && IsLower(u.scheme)))
    && WellFormedHost(u.host)
    && WellFormedUser(u.user)
    && (u.host != "" ==> u.path == "" || Paths.IsRooted(u.path))
    && (u.rootless != "" ==> u.host == "" && u.path == "")
    && '?' !in u.path && '#' !in u.path && !HasCtl(u.path)
    && ValidEscapes(u.path) && ValidEscapes(u.fragment)
  }

  /** A lower-case scheme, or none. */
  predicate SchemeOk(scheme: string) {
    scheme == "" || (IsScheme(scheme) && IsLower(scheme))
  }

  lemma EmptyHostWellFormed()
    ensures WellFormedHost("")
  {
    assert ParseHost("") == Ok("");
  }

  lemma AuthorityPathParts(scheme: string, s: string, query: string)
    requires SchemeOk(scheme)
    requires '?' !in s && '#' !in s && !HasCtl(s)
    requires ParseAuthorityPath(scheme, s, query).Ok?
    ensures WellParsed(ParseAuthorityPath(scheme, s, query).value)
  {
    var (authority, path) := SplitAuthority(s);
    assert forall c :: c in authority ==> c in s;
    assert forall c :: c in path ==> c in s;
    ParseAuthorityParts(authority);
    EscapeScanValid(path);
  }

  lemma AfterSchemeParts(scheme: string, rest0: string)
    requires SchemeOk(scheme)
    requires '#' !in rest0 && !HasCtl(rest0)
    requires ParseAfterScheme(scheme, rest0).Ok?
    ensures WellParsed(ParseAfterScheme(scheme, rest0).value)
  {
    var (rest, query) := CutOr(rest0, '?');
    assert forall c :: c in rest ==> c in rest0;
    EmptyHostWellFormed();
    if (HasPrefix(rest, "/") || scheme == "") && (scheme != "" || !HasPrefix(rest, "///")) && HasPrefix(rest, "//") {
      assert forall c :: c in rest[2..] ==> c in rest;
      AuthorityPathParts(scheme, rest[2..], query);
    } else {
      EscapeScanValid(rest);
    }
  }

  lemma ReferenceParts(s: string)
    requires '#' !in s
    requires ParseReference(s).Ok?
    ensures WellParsed(ParseReference(s).value)
  {
    if s != "*" {
      var (scheme0, rest0) := GetScheme(s).value;
      ToLowerScheme(scheme0);
      assert forall c :: c in rest0 ==> c in s;
      AfterSchemeParts(ToLower(scheme0), rest0);
    } else {
      EmptyHostWellFormed();
    }
  }

  /**
    What a successful `url.Parse` guarantees about its parts: a lower-case
    scheme, a host free of the other components' separators, a path with no
    query, fragment or control character, rooted whenever there is a host.
   */
  lemma ParsedParts(raw: string)
    requires Parse(raw).Ok?
    ensures WellParsed(Parse(raw).value)
  {
    var (s, frag) := CutOr(raw, '#');
    ReferenceParts(s);
    EscapeScanValid(frag);
  }

  /** A path that `url.Parse` reads back as nothing but that path: rooted, not starting with "//", free of '?', '#' and control characters, and with every '%' beginning an escape. */
  predicate IsPlainPath(p: string) {
    Paths.IsRooted(p) && !HasPrefix(p, "//") && '?' !in p && '#' !in p && !HasCtl(p) && ValidEscapes(p)
  }

  lemma ParsePlainPath(p: string)
    requires IsPlainPath(p)
    ensures Parse(p) == Ok(PathOnly(p))
  {
    PlainPathReference(p);
    ParseWithoutFragment(p);
  }

  lemma PlainPathReference(p: string)
    requires IsPlainPath(p)
    ensures ParseReference(p) == Ok(PathOnly(p))
  {
    assert GetScheme(p) == Ok(("", p));
    assert CutOr(p, '?') == (p, "");
    assert ToLower("") == "";
    EscapeScanValid(p);
  }

  /** The fragment is what follows the first '#', set once the rest has parsed. */
  lemma ParseWithFragment(u: string, f: string)
    requires '#' !in u
    ensures Parse(u + "#" + f) == match ParseReference(u)
      case Err(e) => Err(e)
      case Ok(url) => SetFragment(url, f)
  {
    assert u + "#" + f == u + ['#'] + f;
    CutAtFirst(u, '#', f);
  }

  function UserPart(user: Option<string>): string {
    match user
    case None => ""
    case Some(x) => x + "@"
  }

  /**
    `URL.String` without escaping: the scheme and ':', then the rootless part,
    or "//", userinfo and host followed by the path (a rootless path after a
    host gets a '/', a relative path whose first segment holds ':' gets "./"),
    then '?' and the query and '#' and the fragment when they are non-empty.
   */
  function UrlString(u: Url): string
  {
    var head := if u.scheme != "" then u.scheme + ":" else "";
    var body :=
      if u.rootless != "" then u.rootless
      else
        var authority :=
          if u.scheme != "" || u.host != "" || u.user.Some? then
            (if u.host != "" || u.path != "" || u.user.Some? then "//" else "") + UserPart(u.user) + u.host
          else "";
        var slash := if u.path != "" && u.path[0] != '/' && u.host != "" then "/" else "";
        var dot := if |head + authority + slash| == 0 && ':' in CutOr(u.path, '/').0 then "./" else "";
        authority + slash + dot + u.path;
    head + body
      + (if u.rawQuery != "" then "?" + u.rawQuery else "")
      + (if u.fragment != "" then "#" + u.fragment else "")
  }

  /** A URL that has only a rooted path prints as that path. */
  lemma PathOnlyString(p: string)
    requires Paths.IsRooted(p)
    ensures UrlString(PathOnly(p)) == p
  {
    assert CutOr(p, '/').0 == "";
  }

  /** The transport-pool key of a URL: the printed form of its origin. */
  function OriginKey(u: Url): string {
    UrlString(Origin(u))
  }

  lemma OriginKeyForm(u: Url)
    requires u.scheme != "" && u.host != ""
    ensures OriginKey(u) == u.scheme + ":" + ("//" + (UserPart(u.user) + u.host))
  {
    assert OriginKey(u) == u.scheme + ":" + "//" + UserPart(u.user) + u.host;
  }

  /** An authority printed from a well-formed userinfo and host parses back to them. */
  lemma ParseAuthorityOfParts(user: Option<string>, host: string)
    requires WellFormedHost(host) && WellFormedUser(user)
    ensures ParseAuthority(UserPart(user) + host) == Ok((user, host))
  {
    AuthorityOfParts(user, host);
  }

  lemma AuthorityOfParts(user: Option<string>, host: string)
    requires '@' !in host && ParseHost(host) == Ok(host) && WellFormedUser(user)
    ensures ParseAuthority(UserPart(user) + host) == Ok((user, host))
  {
    var a := UserPart(user) + host;
    match user {
      case None =>
        assert a == host;
        assert LastIndexOf(a, '@') == -1;
      case Some(x) =>
        SplitAtLastAt(x, host);
        UserinfoEscapesValid(x);
        assert a == x + "@" + host;
        assert ParseHost(a[|x| + 1..]) == Ok(host);
    }
  }

  /** Userinfo and a host without '@', joined by '@', split back at the last '@'. */
  lemma SplitAtLastAt(x: string, host: string)
    requires '@' !in host
    ensures var a := x + "@" + host;
      LastIndexOf(a, '@') == |x| && a[..|x|] == x && a[|x| + 1..] == host
  {
    var a := x + "@" + host;
    assert a[|x|] == '@';
    assert forall k :: |x| < k < |a| ==> a[k] == host[k - |x| - 1];
  }

  /** After a non-empty scheme, a rest that starts with "//" and has no '?' is an authority and path. */
  lemma AfterSchemeAuthority(scheme: string, rest: string)
    requires scheme != "" && '?' !in rest && HasPrefix(rest, "//")
    ensures ParseAfterScheme(scheme, rest) == ParseAuthorityPath(scheme, rest[2..], "")
  {
    assert CutOr(rest, '?') == (rest, "");
    assert HasPrefix(rest, "/");
  }

  /** A lower-case scheme and ':' are split off and the rest parsed on its own. */
  lemma ParseAfterLowerScheme(scheme: string, rest: string)
    requires IsScheme(scheme) && IsLower(scheme) && !HasCtl(scheme + ":" + rest)
    ensures ParseReference(scheme + ":" + rest) == ParseAfterScheme(scheme, rest)
  {
    var key := scheme + ":" + rest;
    assert key != "*" by { assert |key| >= 2; }
    GetSchemeFinds(scheme, rest);
    ToLowerScheme(scheme);
  }

  /** An authority with no '/' is followed by an empty path. */
  lemma AuthorityPathOfAuthority(scheme: string, a: string, user: Option<string>, host: string)
    requires '/' !in a && ParseAuthority(a) == Ok((user, host))
    ensures ParseAuthorityPath(scheme, a, "") == Ok(Url(scheme, "", user, host, "", "", ""))
  {
    assert SplitAuthority(a) == (a, "");
  }

  lemma SlashesChars(a: string)
    requires '?' !in a && !HasCtl(a)
    ensures '?' !in "//" + a && !HasCtl("//" + a)
  {
    var rest := "//" + a;
    forall c | c in rest ensures c != '?' && !IsCtl(c) {
      var i :| 0 <= i < |rest| && rest[i] == c;
      if i >= 2 {
        assert rest[i] == a[i - 2];
      }
    }
  }

  lemma SchemeKeyChars(scheme: string, rest: string)
    requires IsScheme(scheme) && !HasCtl(rest)
    ensures !HasCtl(scheme + ":" + rest)
  {
    var key := scheme + ":" + rest;
    forall c | c in key ensures !IsCtl(c) {
      var i :| 0 <= i < |key| && key[i] == c;
      if i < |scheme| {
        assert key[i] == scheme[i];
        assert scheme[i] in scheme;
      } else if i > |scheme| {
        assert key[i] == rest[i - |scheme| - 1];
      }
    }
  }

  /** A lower-case scheme followed by "//" and an authority with no path, query or fragment parses as that scheme and authority. */
  lemma ParseSchemeAuthority(scheme: string, a: string, user: Option<string>, host: string)
    requires IsScheme(scheme) && IsLower(scheme)
    requires '/' !in a && '?' !in a && '#' !in a && !HasCtl(a)
    requires ParseAuthority(a) == Ok((user, host))
    ensures ParseReference(scheme + ":" + ("//" + a)) == Ok(Url(scheme, "", user, host, "", "", ""))
  {
    var rest := "//" + a;
    assert rest[2..] == a;
    AuthorityPathOfAuthority(scheme, a, user, host);
    SlashesChars(a);
    AfterSchemeAuthority(scheme, rest);
    SchemeKeyChars(scheme, rest);
    ParseAfterLowerScheme(scheme, rest);
  }

  /** The printed origin parses, as a reference, back to the origin. */
  lemma OriginKeyReference(u: Url)
    requires IsScheme(u.scheme) && IsLower(u.scheme)
    requires u.host != "" && WellFormedHost(u.host) && WellFormedUser(u.user)
    ensures ParseReference(OriginKey(u)) == Ok(Origin(u))
  {
    var a := UserPart(u.user) + u.host;
    var key := u.scheme + ":" + ("//" + a);
    assert ParseReference(key) == Ok(Origin(u)) by {
      AuthorityChars(u.user, u.host);
      ParseAuthorityOfParts(u.user, u.host);
      ParseSchemeAuthority(u.scheme, a, u.user, u.host);
    }
    assert OriginKey(u) == key by {
      OriginKeyForm(u);
    }
  }

  lemma OriginKeyNoHash(u: Url)
    requires IsScheme(u.scheme) && u.host != "" && WellFormedHost(u.host) && WellFormedUser(u.user)
    ensures '#' !in OriginKey(u)
  {
    OriginKeyForm(u);
    AuthorityChars(u.user, u.host);
    SchemeHasNoHash(u.scheme);
  }

  /**
    Round trip: the origin key of a URL with a well-formed scheme, userinfo
    and host parses back to exactly that origin.
   */
  lemma ParseOriginKey(u: Url)
    requires IsScheme(u.scheme) && IsLower(u.scheme)
    requires u.host != "" && WellFormedHost(u.host) && WellFormedUser(u.user)
    ensures Parse(OriginKey(u)) == Ok(Origin(u))
  {
    OriginKeyReference(u);
    OriginKeyNoHash(u);
    ParseWithoutFragment(OriginKey(u));
  }

  lemma SchemeHasNoHash(s: string)
    requires IsScheme(s)
    ensures '#' !in s
  {
    assert !IsSchemeChar('#');
  }

  /** Without a '#' there is no fragment to cut off. */
  lemma ParseWithoutFragment(raw: string)
    requires '#' !in raw
    ensures Parse(raw) == match ParseReference(raw)
      case Err(e) => Err(e)
      case Ok(url) => Ok(url.(fragment := ""))
  {
  }

  /** The authority ends where the first '/' begins the path. */
  lemma SplitAuthorityAt(a: string, p: string)
    requires '/' !in a && HasPrefix(p, "/")
    ensures SplitAuthority(a + p) == (a, p)
  {
    var s := a + p;
    var r := SplitAuthority(s);
    assert s[|a|] == '/';
    assert |r.0| == |a|;
    assert r.0 == s[..|a|] == a;
  }

  /** A lower-case scheme and "//" followed by text with no '?' or '#' parse as an authority and path. */
  lemma ParseSchemeSlashes(scheme: string, a: string)
    requires IsScheme(scheme) && IsLower(scheme)
    requires '?' !in a && '#' !in a && !HasCtl(a)
    ensures Parse(scheme + ":" + ("//" + a)) == ParseAuthorityPath(scheme, a, "")
  {
    var rest := "//" + a;
    assert rest[2..] == a;
    SlashesChars(a);
    AfterSchemeAuthority(scheme, rest);
    SchemeKeyChars(scheme, rest);
    ParseAfterLowerScheme(scheme, rest);
    var raw := scheme + ":" + rest;
    assert '#' !in raw by {
      SchemeHasNoHash(scheme);
      assert '#' !in rest;
    }
    ParseWithoutFragment(raw);
  }

  /** A host and a path joined, neither holding '?', '#' or a control character, hold none either. */
  lemma HostPathChars(host: string, p: string)
    requires '?' !in host && '#' !in host && !HasCtl(host)
    requires '?' !in p && '#' !in p && !HasCtl(p)
    ensures var a := host + p; '?' !in a && '#' !in a && !HasCtl(a)
  {
    var a := host + p;
    forall c | c in a ensures c != '?' && c != '#' && !IsCtl(c) {
      var i :| 0 <= i < |a| && a[i] == c;
      if i < |host| {
        assert a[i] == host[i];
      } else {
        assert a[i] == p[i - |host|];
      }
    }
  }

  /** A host `parseHost` rejects fails the whole parse with the same error, whatever path follows it. */
  lemma ParseRejectedHost(scheme: string, host: string, p: string)
    requires IsScheme(scheme) && IsLower(scheme)
    requires '/' !in host && '?' !in host && '#' !in host && '@' !in host && !HasCtl(host)
    requires HasPrefix(p, "/") && '?' !in p && '#' !in p && !HasCtl(p)
    requires ParseHost(host).Err?
    ensures Parse(scheme + ":" + ("//" + (host + p))) == Err(ParseHost(host).error)
  {
    HostPathChars(host, p);
    ParseSchemeSlashes(scheme, host + p);
    SplitAuthorityAt(host, p);
  }

  /** After a host `parseHost` accepts, a path with a malformed escape fails the whole parse with the error `setPath` gives. */
  lemma ParseRejectedPath(scheme: string, host: string, p: string)
    requires IsScheme(scheme) && IsLower(scheme)
    requires '/' !in host && '?' !in host && '#' !in host && '@' !in host && !HasCtl(host)
    requires HasPrefix(p, "/") && '?' !in p && '#' !in p && !HasCtl(p)
    requires ParseHost(host).Ok? && EscapeScan(p, 0).Some?
    ensures Parse(scheme + ":" + ("//" + (host + p))) == Err(EscapeScan(p, 0).value)
  {
    HostPathChars(host, p);
    ParseSchemeSlashes(scheme, host + p);
    SplitAuthorityAt(host, p);
  }

  /** "%zz" is no escape, so "http://h/%zz" is no URL. */
  lemma ParseRejectsBadEscape()
    ensures Parse("http://h/%zz") == Err(InvalidEscape("%zz"))
  {
    assert "http://h/%zz" == "http" + ":" + ("//" + ("h" + "/%zz"));
    assert IsScheme("http") && IsLower("http");
    assert ParseHost("h") == Ok("h") by {
      assert UnescapeHost("h") == Ok("h") by {
        assert HostScan("h", 0) == HostScan("h", 1) == None;
      }
    }
    assert EscapeScan("/%zz", 0) == Some(InvalidEscape("%zz")) by {
      assert "/%zz"[1..4] == "%zz";
      assert EscapeScan("/%zz", 0) == EscapeScan("/%zz", 1);
    }
    ParseRejectedPath("http", "h", "/%zz");
  }

  /** A space is no host character, so "http://a b/" is no URL. */
  lemma ParseRejectsSpaceInHost()
    ensures Parse("http://a b/") == Err(InvalidHostChar(' '))
  {
    assert "http://a b/" == "http" + ":" + ("//" + ("a b" + "/"));
    assert IsScheme("http") && IsLower("http");
    HostSpaceRejected();
    ParseRejectedHost("http", "a b", "/");
  }

  /** A '%' at the end of the userinfo begins no escape, so the authority "u%@h" is refused. */
  lemma AuthorityRejectsBadUserinfo()
    ensures ParseAuthority("u%@h") == Err(InvalidEscape("%"))
  {
    assert LastIndexOf("u%@h", '@') == 2;
    assert "u%@h"[..2] == "u%" && "u%@h"[3..] == "h";
    assert ParseHost("h") == Ok("h") by {
      assert UnescapeHost("h") == Ok("h") by {
        assert HostScan("h", 0) == HostScan("h", 1) == None;
      }
    }
    assert ValidUserinfo("u%") by {
      assert forall c :: c in "u%" ==> c == 'u' || c == '%';
    }
    assert UserinfoEscapes("u%") == Some(InvalidEscape("%")) by {
      assert CutOr("u%", ':') == ("u%", "");
      assert "u%"[1..2] == "%";
      assert EscapeScan("u%", 0) == EscapeScan("u%", 1);
    }
  }

  /** "%g" is no escape, so a fragment "%g" makes the whole URL "/a#%g" fail, after its path is read. */
  lemma ParseRejectsBadFragment()
    ensures Parse("/a#%g") == Err(InvalidEscape("%g"))
  {
    assert Parse("/a#%g") == Parse("/a" + "#" + "%g") by {
      assert "/a#%g" == "/a" + "#" + "%g";
    }
    ParseWithFragment("/a", "%g");
    SlashAReference();
    PercentGRejected();
  }

  lemma PercentGRejected()
    ensures EscapeScan("%g", 0) == Some(InvalidEscape("%g"))
  {
    assert "%g"[0..2] == "%g";
  }

  lemma SlashAReference()
    ensures ParseReference("/a") == Ok(PathOnly("/a"))
  {
    var p := "/a";
    assert |p| == 2 && p[0] == '/' && p[1] == 'a';
    assert forall c :: c in p ==> c == '/' || c == 'a';
    assert ValidEscapes(p);
    assert !HasPrefix(p, "//");
    PlainPathReference(p);
  }

  lemma AuthorityChars(user: Option<string>, host: string)
    requires '/' !in host && '?' !in host && '#' !in host && !HasCtl(host) && WellFormedUser(user)
    ensures var a := UserPart(user) + host;
      '/' !in a && '?' !in a && '#' !in a && !HasCtl(a)
  {
    var a := UserPart(user) + host;
    forall c | c in UserPart(user) ensures c != '/' && c != '?' && c != '#' && !IsCtl(c) {
      if user.Some? && c in user.value {
        assert IsUserinfoChar(c);
      }
    }
  }

  /**
    Two URLs with well-formed origins have the same origin key exactly when
    they have the same scheme, userinfo and host.
   */
  lemma OriginKeyInjective(u: Url, v: Url)
    requires IsScheme(u.scheme) && IsLower(u.scheme) && u.host != "" && WellFormedHost(u.host) && WellFormedUser(u.user)
    requires IsScheme(v.scheme) && IsLower(v.scheme) && v.host != "" && WellFormedHost(v.host) && WellFormedUser(v.user)
    ensures OriginKey(u) == OriginKey(v) <==> Origin(u) == Origin(v)
  {
    ParseOriginKey(u);
    ParseOriginKey(v);
  }

  /** `URL.RequestURI`, with the path printed as it is held rather than escaped: the path ("/" when empty) or the rootless part, then '?' and the query when it is non-empty. */
  function RequestURI(u: Url): string
  {
    var result :=
      if u.rootless == "" then (if u.path == "" then "/" else u.path)
      else if HasPrefix(u.rootless, "//") then u.scheme + ":" + u.rootless
      else u.rootless;
    if u.rawQuery != "" then result + "?" + u.rawQuery else result
  }

  /** The request-URI of a non-rootless URL splits at its first '?' back into the path (or "/") and the query. */
  lemma RequestURISplits(u: Url)
    requires u.rootless == "" && '?' !in u.path
    ensures CutOr(RequestURI(u), '?') == (if u.path == "" then "/" else u.path, u.rawQuery)
  {
    var p := if u.path == "" then "/" else u.path;
    if u.rawQuery != "" {
      var s := p + "?" + u.rawQuery;
      assert s[|p|] == '?';
      assert IndexOf(s, '?') == |p| by {
        assert s[..|p|] == p;
      }
      assert s[..|p|] == p && s[|p| + 1..] == u.rawQuery;
    }
  }
}
