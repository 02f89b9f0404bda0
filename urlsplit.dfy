/**
 * The `netloc` component of a URL, extracted as CPython's `urllib.parse.urlsplit`
 * (3.12) extracts it: strip leading C0 controls and spaces, delete tab, CR and LF,
 * remove a scheme prefix made of scheme characters and starting with an ASCII letter,
 * and, when what remains starts with "//", take everything up to the first '/', '?'
 * or '#'. This is the authority of section 3.2 of RFC 3986, kept verbatim: userinfo
 * and port stay in it and no case is folded.
 */
module UrlSplit {
  import opened Wrappers

  /** The characters `str.lstrip` removes before splitting: C0 controls and space. */
  predicate IsC0OrSpace(c: char) { c <= ' ' }

  /** Tab, carriage return and line feed, which urlsplit deletes wherever they occur. */
  predicate IsUnsafe(c: char) { c == '\t' || c == '\r' || c == '\n' }

  predicate IsAsciiLetter(c: char) { 'a' <= c <= 'z' || 'A' <= c <= 'Z' }

  /** The characters allowed in a scheme: letters, digits, '+', '-' and '.'. */
  predicate IsSchemeChar(c: char)
  {
    IsAsciiLetter(c) || '0' <= c <= '9' || c == '+' || c == '-' || c == '.'
  }

  /** The characters that end the authority. */
  predicate IsAuthorityEnd(c: char) { c == '/' || c == '?' || c == '#' }

  /** `s.lstrip(C0 controls and space)`. */
  function LStrip(s: string): string
    decreases |s|
  {
    if s != [] && IsC0OrSpace(s[0]) then LStrip(s[1..]) else s
  }

  /** `s` with every tab, carriage return and line feed deleted. */
  function RemoveUnsafe(s: string): string
    decreases |s|
  {
    if s == [] then []
    else
      var rest := RemoveUnsafe(s[1..]);
      if IsUnsafe(s[0]) then rest else [s[0]] + rest
  }

  /** `s.find(c)`, with `None` where Python returns -1. */
  function IndexOf(s: string, c: char): (r: Option<nat>)
    ensures r.Some? ==> r.value < |s|
    decreases |s|
  {
    if s == [] then None
    else if s[0] == c then Some(0)
    else match IndexOf(s[1..], c)
      case None => None
      case Some(i) => Some(i + 1)
  }

  /** What remains after the scheme and its ':' are removed, or `u` itself when it has no scheme. */
  function AfterScheme(u: string): string
  {
    match IndexOf(u, ':')
    case None => u
    case Some(i) =>
      if i > 0 && IsAsciiLetter(u[0]) && forall k :: 0 <= k < i ==> IsSchemeChar(u[k])
      then u[i + 1..]
      else u
  }

  /** The longest prefix of `s` without '/', '?' or '#'. */
  function TakeAuthority(s: string): string
    decreases |s|
  {
    if s == [] || IsAuthorityEnd(s[0]) then []
    else [s[0]] + TakeAuthority(s[1..])
  }

  /** `urlsplit(url).netloc`. */
  function Netloc(url: string): string
  {
    var rest := AfterScheme(RemoveUnsafe(LStrip(url)));
    if |rest| >= 2 && rest[..2] == "//" then TakeAuthority(rest[2..]) else ""
  }

  /** Stripping removes a prefix of C0 controls and spaces, and stops at the first other character. */
  lemma {:induction false} LStripSpec(s: string)
    ensures var r := LStrip(s);
      && |r| <= |s| && r == s[|s| - |r|..]
      && (r == [] || !IsC0OrSpace(r[0]))
      && forall i :: 0 <= i < |s| - |r| ==> IsC0OrSpace(s[i])
    decreases |s|
  {
    if s != [] && IsC0OrSpace(s[0]) {
      LStripSpec(s[1..]);
      var r := LStrip(s[1..]);
      assert forall i :: 1 <= i < |s| - |r| ==> s[i] == s[1..][i - 1];
    }
  }

  /** Deletion leaves no tab, carriage return or line feed, and leaves a string without them unchanged. */
  lemma {:induction false} RemoveUnsafeSpec(s: string)
    ensures var r := RemoveUnsafe(s);
      && |r| <= |s|
      && (forall i :: 0 <= i < |r| ==> !IsUnsafe(r[i]))
      && ((forall i :: 0 <= i < |s| ==> !IsUnsafe(s[i])) ==> r == s)
    decreases |s|
  {
    if s != [] {
      RemoveUnsafeSpec(s[1..]);
      assert forall i :: 1 <= i < |s| ==> s[1..][i - 1] == s[i];
    }
  }

  /** `find` gives the first occurrence, and `None` exactly when there is none. */
  lemma {:induction false} IndexOfSpec(s: string, c: char)
    ensures var r := IndexOf(s, c);
      && (r.Some? ==> s[r.value] == c && c !in s[..r.value])
      && (r.None? <==> c !in s)
    decreases |s|
  {
    if s != [] && s[0] != c {
      IndexOfSpec(s[1..], c);
      match IndexOf(s[1..], c)
      case None =>
        assert s == [s[0]] + s[1..];
      case Some(i) =>
        assert s[..i + 1] == [s[0]] + s[1..][..i];
    }
  }

  /** Removing the scheme leaves a suffix. */
  lemma AfterSchemeSuffix(u: string)
    ensures var r := AfterScheme(u);
      |r| <= |u| && r == u[|u| - |r|..]
  {
  }

  /** The authority is a prefix without '/', '?' or '#', followed by one of them or by nothing. */
  lemma {:induction false} TakeAuthoritySpec(s: string)
    ensures var r := TakeAuthority(s);
      && r <= s
      && (forall i :: 0 <= i < |r| ==> !IsAuthorityEnd(r[i]))
      && (|r| < |s| ==> IsAuthorityEnd(s[|r|]))
    decreases |s|
  {
    if s != [] && !IsAuthorityEnd(s[0]) {
      TakeAuthoritySpec(s[1..]);
    }
  }

  /** A netloc holds no '/', '?', '#', tab, carriage return or line feed. */
  lemma NetlocChars(url: string)
    ensures var n := Netloc(url);
      forall i :: 0 <= i < |n| ==> !IsAuthorityEnd(n[i]) && !IsUnsafe(n[i])
  {
    var safe := RemoveUnsafe(LStrip(url));
    RemoveUnsafeSpec(LStrip(url));
    var rest := AfterScheme(safe);
    AfterSchemeSuffix(safe);
    assert forall i :: 0 <= i < |rest| ==> rest[i] == safe[|safe| - |rest| + i];
    if |rest| >= 2 && rest[..2] == "//" {
      TakeAuthoritySpec(rest[2..]);
      var n := TakeAuthority(rest[2..]);
      assert forall i :: 0 <= i < |n| ==> n[i] == rest[i + 2];
    }
  }

  /** The authority ends where the first '/', '?' or '#' begins, and never earlier. */
  lemma {:induction false} TakeAuthorityOf(host: string, tail: string)
    requires forall i :: 0 <= i < |host| ==> !IsAuthorityEnd(host[i])
    requires tail == [] || IsAuthorityEnd(tail[0])
    ensures TakeAuthority(host + tail) == host
    decreases |host|
  {
    if host != [] {
      assert (host + tail)[1..] == host[1..] + tail;
      TakeAuthorityOf(host[1..], tail);
    } else {
      assert host + tail == tail;
    }
  }

  /** The first ':' of `scheme + ":" + rest` is the one after the scheme. */
  lemma {:induction false} IndexOfColon(scheme: string, rest: string)
    requires forall i :: 0 <= i < |scheme| ==> IsSchemeChar(scheme[i])
    ensures IndexOf(scheme + ":" + rest, ':') == Some(|scheme|)
    decreases |scheme|
  {
    var u := scheme + ":" + rest;
    if scheme == [] {
      assert u[0] == ':';
    } else {
      assert u[0] == scheme[0] && IsSchemeChar(scheme[0]);
      assert u[1..] == scheme[1..] + ":" + rest;
      IndexOfColon(scheme[1..], rest);
    }
  }

  /** A well-formed scheme and its ':' are removed, whatever follows. */
  lemma AfterSchemeOf(scheme: string, rest: string)
    requires |scheme| > 0 && IsAsciiLetter(scheme[0])
    requires forall i :: 0 <= i < |scheme| ==> IsSchemeChar(scheme[i])
    ensures AfterScheme(scheme + ":" + rest) == rest
  {
    var u := scheme + ":" + rest;
    IndexOfColon(scheme, rest);
    assert forall k :: 0 <= k < |scheme| ==> u[k] == scheme[k];
    assert u[|scheme| + 1..] == rest;
  }

  /** A URL made of safe parts holds no tab, carriage return or line feed. */
  lemma SafeParts(scheme: string, rest: string)
    requires forall i :: 0 <= i < |scheme| ==> IsSchemeChar(scheme[i])
    requires forall i :: 0 <= i < |rest| ==> !IsUnsafe(rest[i])
    ensures forall i :: 0 <= i < |scheme + ":" + rest| ==> !IsUnsafe((scheme + ":" + rest)[i])
  {
    var u := scheme + ":" + rest;
    forall i | 0 <= i < |u| ensures !IsUnsafe(u[i]) {
      if i < |scheme| {
        assert u[i] == scheme[i] && IsSchemeChar(scheme[i]);
      } else if i > |scheme| {
        assert u[i] == rest[i - |scheme| - 1];
      }
    }
  }

  /**
   * An absolute URL `scheme://authority<tail>` has netloc `authority`, verbatim:
   * the authority may hold userinfo and a port, and its case is preserved.
   */
  lemma NetlocOfAbsolute(scheme: string, authority: string, tail: string)
    requires |scheme| > 0 && IsAsciiLetter(scheme[0])
    requires forall i :: 0 <= i < |scheme| ==> IsSchemeChar(scheme[i])
    requires forall i :: 0 <= i < |authority| ==> !IsAuthorityEnd(authority[i]) && !IsUnsafe(authority[i])
    requires forall i :: 0 <= i < |tail| ==> !IsUnsafe(tail[i])
    requires tail == [] || IsAuthorityEnd(tail[0])
    ensures Netloc(scheme + ":" + ("//" + (authority + tail))) == authority
  {
    var rest := "//" + (authority + tail);
    var u := scheme + ":" + rest;
    assert u[0] == scheme[0];
    assert LStrip(u) == u;
    forall i | 0 <= i < |rest| ensures !IsUnsafe(rest[i]) {
      if 2 <= i < 2 + |authority| {
        assert rest[i] == authority[i - 2];
      } else if 2 + |authority| <= i {
        assert rest[i] == tail[i - 2 - |authority|];
      }
    }
    SafeParts(scheme, rest);
    RemoveUnsafeSpec(u);
    AfterSchemeOf(scheme, rest);
    assert rest[..2] == "//";
    assert rest[2..] == authority + tail;
    TakeAuthorityOf(authority, tail);
  }

  /** The netloc of the internal link of the example page. */
  lemma NetlocSameHost()
    ensures Netloc("http://same-host/path") == "same-host"
  {
    var u := "http" + ":" + ("//" + ("same-host" + "/path"));
    forall i | 0 <= i < |u| ensures u[i] == "http://same-host/path"[i] {}
    assert u == "http://same-host/path";
    NetlocOfAbsolute("http", "same-host", "/path");
  }

  /** The netloc of the external link of the example page. */
  lemma NetlocOtherHost()
    ensures Netloc("http://other-host/") == "other-host"
  {
    var u := "http" + ":" + ("//" + ("other-host" + "/"));
    forall i | 0 <= i < |u| ensures u[i] == "http://other-host/"[i] {}
    assert u == "http://other-host/";
    NetlocOfAbsolute("http", "other-host", "/");
  }

  /** The netloc of the example page itself. */
  lemma NetlocSameHostRoot()
    ensures Netloc("http://same-host/") == "same-host"
  {
    var u := "http" + ":" + ("//" + ("same-host" + "/"));
    forall i | 0 <= i < |u| ensures u[i] == "http://same-host/"[i] {}
    assert u == "http://same-host/";
    NetlocOfAbsolute("http", "same-host", "/");
  }
}
