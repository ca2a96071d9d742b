/**
 URL resolution (`resolveURL`). Parsing and reference resolution are `net/url`'s
 `Parse`, `ResolveReference` and `String`; they are not reimplemented. The model
 takes them as a `UrlLib` value, and states, as the predicate `FollowsRfc3986`,
 the part of section 5.2.2 of RFC 3986 the engine's examples rely on.
 */
module Url {

  /** `parses(s)`: `url.Parse(s)` returns no error. `resolveReference(base, ref)`:
      the string form of `ref` resolved against `base`, both parsed. */
  datatype UrlLib = UrlLib(parses: string -> bool, resolveReference: (string, string) -> string)

  /** Resolves `href` against `base`; when either does not parse, `href` comes
      back unchanged, so resolution never fails. */
  function ResolveUrl(href: string, base: string, lib: UrlLib): (r: string)
    ensures !lib.parses(base) ==> r == href
    ensures !lib.parses(href) ==> r == href
    ensures lib.parses(base) && lib.parses(href) ==> r == lib.resolveReference(base, href)
  {
    if !lib.parses(base) then href
    else if !lib.parses(href) then href
    else lib.resolveReference(base, href)
  }

  predicate IsLowerAlpha(c: char) { 'a' <= c <= 'z' }
  predicate IsDigit(c: char) { '0' <= c <= '9' }

  /** The characters of the host names considered here: no port, no user info,
      no percent-encoding. */
  predicate IsHostChar(c: char) {
    IsLowerAlpha(c) || IsDigit(c) || c == '.' || c == '-'
  }

  /** The characters of the paths considered here: no dot, so no dot segments,
      and nothing that needs escaping or starts a query or fragment. */
  predicate IsPathChar(c: char) {
    IsLowerAlpha(c) || 'A' <= c <= 'Z' || IsDigit(c) || c == '-' || c == '_' || c == '/'
  }

  /** A lower-case scheme and a plain host name. */
  datatype Origin = Origin(scheme: string, host: string)

  predicate ValidOrigin(o: Origin) {
    && |o.scheme| > 0 && (forall i :: 0 <= i < |o.scheme| ==> IsLowerAlpha(o.scheme[i]))
    && |o.host| > 0 && (forall i :: 0 <= i < |o.host| ==> IsHostChar(o.host[i]))
  }

  /** An absolute-path reference ("/a/b") of the plain kind above, with no empty segment. */
  predicate IsAbsolutePath(p: string) {
    && |p| > 0 && p[0] == '/'
    && (forall i :: 0 <= i < |p| ==> IsPathChar(p[i]))
    && (forall i :: 0 <= i < |p| - 1 ==> !(p[i] == '/' && p[i + 1] == '/'))
  }

  /** A path a plain URL may carry: none at all, or an absolute path. */
  predicate IsPlainPath(p: string) {
    p == "" || IsAbsolutePath(p)
  }

  /** `scheme://host/path`. */
  function Serialize(o: Origin, path: string): string {
    o.scheme + "://" + o.host + path
  }

  /** The hypothesis on `net/url` for plain URLs: such strings parse, an
      absolute-path reference replaces the base's path and keeps its scheme and
      host (section 5.2.2 of RFC 3986, with no dot segment to remove), and an
      absolute URL resolves to itself. */
  ghost predicate FollowsRfc3986(lib: UrlLib) {
    && (forall o, p :: ValidOrigin(o) && IsPlainPath(p) ==> lib.parses(Serialize(o, p)))
    && (forall p :: IsAbsolutePath(p) ==> lib.parses(p))
    && (forall o, bp, p :: ValidOrigin(o) && IsPlainPath(bp) && IsAbsolutePath(p) ==>
          lib.resolveReference(Serialize(o, bp), p) == Serialize(o, p))
    && (forall o, bp, o', p :: ValidOrigin(o) && IsPlainPath(bp) && ValidOrigin(o') && IsPlainPath(p) ==>
          lib.resolveReference(Serialize(o, bp), Serialize(o', p)) == Serialize(o', p))
  }

  /** Under the hypothesis, an absolute path resolves against the base's origin. */
  lemma ResolveAbsolutePath(lib: UrlLib, o: Origin, bp: string, p: string)
    requires FollowsRfc3986(lib)
    requires ValidOrigin(o) && IsPlainPath(bp) && IsAbsolutePath(p)
    ensures ResolveUrl(p, Serialize(o, bp), lib) == Serialize(o, p)
  {
  }

  /** Under the hypothesis, an absolute URL is its own resolution. */
  lemma ResolveAbsoluteUrl(lib: UrlLib, o: Origin, bp: string, o': Origin, p: string)
    requires FollowsRfc3986(lib)
    requires ValidOrigin(o) && IsPlainPath(bp) && ValidOrigin(o') && IsPlainPath(p)
    ensures ResolveUrl(Serialize(o', p), Serialize(o, bp), lib) == Serialize(o', p)
  {
  }

  /** "https://example.com" as a plain URL. */
  lemma ExampleComOrigin()
    ensures ValidOrigin(Origin("https", "example.com"))
    ensures Serialize(Origin("https", "example.com"), "") == "https://example.com"
  {
  }

  /** "/path" against "https://example.com" gives "https://example.com/path". */
  lemma ResolvePathExample(lib: UrlLib)
    requires FollowsRfc3986(lib)
    ensures ResolveUrl("/path", "https://example.com", lib) == "https://example.com/path"
  {
    var o := Origin("https", "example.com");
    ExampleComOrigin();
    assert IsAbsolutePath("/path");
    ResolveAbsolutePath(lib, o, "", "/path");
  }
}
