/**
 * URL handling as the scripts use it: `urllib.parse.urlparse` to get the
 * scheme and host of the current page, and `urllib.parse.urljoin` to turn
 * an href into an absolute URL.  The URL is split into its five components
 * with the regular expression of Appendix B of RFC 3986, narrowed to the
 * schemes `urlsplit` accepts (an ASCII letter, then ASCII letters, digits,
 * '+', '-' and '.'), a reference is
 * resolved against a base by the algorithm of section 5.2.2 of RFC 3986
 * (merging paths as section 5.2.3 says; as `urljoin` does, a reference
 * with the base's scheme and no host of its own is joined to the base's
 * host), and the result is put back
 * together as section 5.3 says.
 */
module Urls {
  import opened Common
  import opened Text

  predicate IsAsciiLetter(c: char) {
    'a' <= c <= 'z' || 'A' <= c <= 'Z'
  }

  /** The characters `urlsplit` allows in a scheme. */
  predicate IsSchemeChar(c: char) {
    IsAsciiLetter(c) || '0' <= c <= '9' || c == '+' || c == '-' || c == '.'
  }

  /**
   * The characters that end each component: for the scheme, anything
   * `urlsplit` does not allow in one (':', '/', '?' and '#' among them);
   * for the others, the delimiters of Appendix B.
   */
  datatype Delimiters = SchemeEnd | AuthorityEnd | PathEnd | QueryEnd

  predicate Ends(stops: Delimiters, c: char) {
    match stops
    case SchemeEnd => !IsSchemeChar(c)
    case AuthorityEnd => c == '/' || c == '?' || c == '#'
    case PathEnd => c == '?' || c == '#'
    case QueryEnd => c == '#'
  }

  predicate NoneOf(s: string, stops: Delimiters) {
    forall i :: 0 <= i < |s| ==> !Ends(stops, s[i])
  }

  /** Splits `s` before its first delimiter: the longest delimiter-free prefix, and the rest. */
  function Scan(s: string, stops: Delimiters): (r: (string, string))
    ensures s == r.0 + r.1
    ensures NoneOf(r.0, stops)
    ensures r.1 == [] || Ends(stops, r.1[0])
  {
    if s == [] || Ends(stops, s[0]) then ([], s)
    else
      var (p, rest) := Scan(s[1..], stops);
      assert s == [s[0]] + s[1..];
      ([s[0]] + p, rest)
  }

  /** The five components of a URL; an absent component differs from an empty one. */
  datatype Uri = Uri(scheme: Option<string>, authority: Option<string>, path: string,
                     query: Option<string>, fragment: Option<string>)

  function SchemePart(scheme: Option<string>): string {
    if scheme.Some? then scheme.value + ":" else ""
  }

  function AuthorityPart(authority: Option<string>): string {
    if authority.Some? then "//" + authority.value else ""
  }

  function QueryPart(query: Option<string>): string {
    if query.Some? then "?" + query.value else ""
  }

  function FragmentPart(fragment: Option<string>): string {
    if fragment.Some? then "#" + fragment.value else ""
  }

  /** Section 5.3 of RFC 3986: the components written back in order with their delimiters. */
  function Recompose(u: Uri): string {
    SchemePart(u.scheme) + (AuthorityPart(u.authority) + (u.path + (QueryPart(u.query) + FragmentPart(u.fragment))))
  }

  /** A scheme of `s` ends at `k`: an ASCII letter and more scheme characters, then ':'. */
  predicate SchemeAt(s: string, k: int) {
    0 < k < |s| && s[k] == ':' && IsAsciiLetter(s[0]) && NoneOf(s[..k], SchemeEnd)
  }

  /** The scan stops at the first delimiter. */
  lemma ScanStopsAt(s: string, stops: Delimiters, k: int)
    requires 0 <= k < |s| && NoneOf(s[..k], stops) && Ends(stops, s[k])
    ensures Scan(s, stops).0 == s[..k]
  {
    var r := Scan(s, stops);
    assert forall i :: 0 <= i < k ==> !Ends(stops, s[i]) by {
      forall i | 0 <= i < k
        ensures !Ends(stops, s[i])
      {
        assert s[..k][i] == s[i];
      }
    }
    assert forall i :: 0 <= i < |r.0| ==> !Ends(stops, s[i]) by {
      forall i | 0 <= i < |r.0|
        ensures !Ends(stops, s[i])
      {
        assert r.0[i] == s[i];
      }
    }
    assert |r.0| < |s| ==> Ends(stops, s[|r.0|]);
    assert |r.0| == k;
    assert s[..k] == (r.0 + r.1)[..k];
  }

  /** When the scan does not end in ':' after a non-empty name that starts with a letter, `s` has no scheme. */
  lemma NoSchemeAt(s: string)
    requires var (name, rest) := Scan(s, SchemeEnd);
             !(name != [] && IsAsciiLetter(name[0]) && rest != [] && rest[0] == ':')
    ensures forall k :: !SchemeAt(s, k)
  {
    forall k | SchemeAt(s, k)
      ensures false
    {
      ScanStopsAt(s, SchemeEnd, k);
    }
  }

  /**
   * The scheme as `urlsplit` finds it: the text before the first ':' when
   * it starts with an ASCII letter and holds only scheme characters; there
   * is none exactly when `s` does not start that way.
   */
  function SplitScheme(s: string): (r: (Option<string>, string))
    ensures s == SchemePart(r.0) + r.1
    ensures r.0.Some? ==> r.0.value != [] && IsAsciiLetter(r.0.value[0]) && NoneOf(r.0.value, SchemeEnd)
                          && SchemeAt(s, |r.0.value|)
    ensures r.0.None? ==> forall k :: !SchemeAt(s, k)
  {
    var (name, rest) := Scan(s, SchemeEnd);
    if name != [] && IsAsciiLetter(name[0]) && rest != [] && rest[0] == ':' then
      assert rest == ":" + rest[1..];
      assert s[..|name|] == name;
      (Some(name), rest[1..])
    else
      NoSchemeAt(s);
      (None, s)
  }

  lemma SlashesFirst(s: string, host: string, rest: string)
    requires "//" <= s && s[2..] == host + rest
    ensures s == AuthorityPart(Some(host)) + rest
  {
    assert s[..2] == "//";
    assert s == "//" + (host + rest);
    ConcatAssociative("//", host, rest);
  }

  /** `(//([^/?#]*))?`: an authority introduced by "//" and ended by '/', '?', '#' or the end. */
  function SplitAuthority(s: string): (r: (Option<string>, string))
    ensures s == AuthorityPart(r.0) + r.1
    ensures r.0.Some? ==> NoneOf(r.0.value, AuthorityEnd) && (r.1 == [] || Ends(AuthorityEnd, r.1[0]))
    ensures r.0.None? <==> !("//" <= s)
  {
    if "//" <= s then
      var r := Scan(s[2..], AuthorityEnd);
      SlashesFirst(s, r.0, r.1);
      (Some(r.0), r.1)
    else (None, s)
  }

  /** `([^?#]*)`: the path runs up to the first '?' or '#'. */
  function SplitPath(s: string): (r: (string, string))
    ensures s == r.0 + r.1
    ensures NoneOf(r.0, PathEnd)
    ensures r.1 == [] || Ends(PathEnd, r.1[0])
  {
    Scan(s, PathEnd)
  }

  lemma QueryMarkFirst(s: string, query: string, rest: string)
    requires s != [] && s[0] == '?' && s[1..] == query + rest
    ensures s == QueryPart(Some(query)) + rest
  {
    assert s == [s[0]] + s[1..];
  }

  /** `(\?([^#]*))?`: a query introduced by '?' and ended by '#' or the end. */
  function SplitQuery(s: string): (r: (Option<string>, string))
    requires s == [] || Ends(PathEnd, s[0])
    ensures s == QueryPart(r.0) + r.1
    ensures r.0.Some? ==> NoneOf(r.0.value, QueryEnd)
    ensures r.1 == [] || r.1[0] == '#'
  {
    if s != [] && s[0] == '?' then
      var r := Scan(s[1..], QueryEnd);
      QueryMarkFirst(s, r.0, r.1);
      (Some(r.0), r.1)
    else (None, s)
  }

  lemma FragmentFirst(rest: string)
    requires rest == [] || rest[0] == '#'
    ensures rest == FragmentPart(if rest != [] then Some(rest[1..]) else None)
  {
    if rest != [] {
      assert rest == [rest[0]] + rest[1..];
    }
  }

  lemma AfterScheme(s: string, scheme: Option<string>, rest: string)
    requires s == SchemePart(scheme) + rest
    ensures s[|SchemePart(scheme)|..] == rest
  {
  }

  /**
   * The authority, path, query and fragment of what follows the scheme,
   * each as long as it can be; written back they give `s` again.
   */
  function SplitRest(s: string): (u: Uri)
    ensures u.scheme.None?
    ensures AuthorityPart(u.authority) + (u.path + (QueryPart(u.query) + FragmentPart(u.fragment))) == s
    ensures u.authority.Some? <==> "//" <= s
    ensures u.authority.Some? ==> NoneOf(u.authority.value, AuthorityEnd)
    ensures u.authority.Some? ==> u.path == [] || u.path[0] == '/'
    ensures NoneOf(u.path, PathEnd)
    ensures u.query.Some? ==> NoneOf(u.query.value, QueryEnd)
  {
    var (authority, rest2) := SplitAuthority(s);
    var (path, rest3) := SplitPath(rest2);
    var (query, rest4) := SplitQuery(rest3);
    var fragment := if rest4 != [] then Some(rest4[1..]) else None;
    FragmentFirst(rest4);
    if authority.Some? && path != [] then
      assert rest2[0] == path[0];
      Uri(None, authority, path, query, fragment)
    else Uri(None, authority, path, query, fragment)
  }

  /**
   * Splits a URL or reference into its components.  Nothing is lost:
   * writing the components back gives the input string again.  Each
   * component is as long as it can be: the scheme is there exactly when
   * `s` starts with one, the authority exactly when "//" follows the
   * scheme, and the path and the query run up to their first delimiter,
   * which fixes the split.
   */
  function Parse(s: string): (u: Uri)
    ensures Recompose(u) == s
    ensures u.scheme.Some? ==> u.scheme.value != [] && IsAsciiLetter(u.scheme.value[0])
                               && NoneOf(u.scheme.value, SchemeEnd) && SchemeAt(s, |u.scheme.value|)
    ensures u.scheme.None? ==> forall k :: !SchemeAt(s, k)
    ensures u.authority.Some? <==> "//" <= s[|SchemePart(u.scheme)|..]
    ensures u.authority.Some? ==> NoneOf(u.authority.value, AuthorityEnd)
    ensures u.authority.Some? ==> u.path == [] || u.path[0] == '/'
    ensures NoneOf(u.path, PathEnd)
    ensures u.query.Some? ==> NoneOf(u.query.value, QueryEnd)
  {
    var (scheme, rest) := SplitScheme(s);
    var h := SplitRest(rest);
    AfterScheme(s, scheme, rest);
    Uri(scheme, h.authority, h.path, h.query, h.fragment)
  }

  /** Length of the longest prefix of `path` that ends in '/' (0 when `path` has no '/'). */
  function DirectoryEnd(path: string): (k: nat)
    ensures k <= |path|
    ensures k > 0 ==> path[k - 1] == '/'
    ensures forall i :: k <= i < |path| ==> path[i] != '/'
  {
    if path == [] then 0
    else if path[|path| - 1] == '/' then |path|
    else DirectoryEnd(path[..|path| - 1])
  }

  /** The directory a relative path is merged into: section 5.2.3 of RFC 3986. */
  function Directory(base: Uri): string {
    if base.authority.Some? && base.path == [] then "/" else base.path[..DirectoryEnd(base.path)]
  }

  /** A host that is there and not empty, as `urlsplit`'s netloc is when it is not "". */
  predicate HasHost(u: Uri) {
    u.authority.Some? && u.authority.value != []
  }

  /**
   * `urljoin` hands back the reference as written when its scheme differs
   * from the base's, or when it repeats the base's scheme and brings a
   * host of its own.
   */
  predicate KeptAsWritten(base: Uri, ref: Uri) {
    ref.scheme.Some? && (ref.scheme != base.scheme || HasHost(ref))
  }

  /**
   * The target of reference `ref` seen from `base`, as `urljoin` finds it:
   * section 5.2.2 of RFC 3986, except that a reference that repeats the
   * base's scheme without a host of its own, or that has an empty host,
   * is joined to the base's host like one without scheme or host (dot
   * segments are kept as written).
   */
  function ResolveUri(base: Uri, ref: Uri): Uri {
    if ref.scheme.Some? && ref.scheme != base.scheme then ref
    else if HasHost(ref) then Uri(base.scheme, ref.authority, ref.path, ref.query, ref.fragment)
    else if ref.path == [] then
      Uri(base.scheme, base.authority, base.path,
          if ref.query.Some? then ref.query else base.query, ref.fragment)
    else if ref.path[0] == '/' then Uri(base.scheme, base.authority, ref.path, ref.query, ref.fragment)
    else Uri(base.scheme, base.authority, Directory(base) + ref.path, ref.query, ref.fragment)
  }

  /**
   * `urljoin(base, ref)`.  A reference with another scheme than the
   * base's, or with the same scheme and a host, is kept as written.  Any
   * other takes the base's scheme, and also the base's authority unless
   * it brings a host of its own.  The reference's fragment always ends
   * the result.
   */
  function Resolve(base: string, ref: string): (r: string)
    ensures KeptAsWritten(Parse(base), Parse(ref)) ==> r == ref
    ensures !KeptAsWritten(Parse(base), Parse(ref)) ==> SchemePart(Parse(base).scheme) <= r
    ensures !KeptAsWritten(Parse(base), Parse(ref)) && !HasHost(Parse(ref))
            ==> SchemePart(Parse(base).scheme) + AuthorityPart(Parse(base).authority) <= r
    ensures EndsWith(r, FragmentPart(Parse(ref).fragment))
  {
    Join(Parse(base), Parse(ref))
  }

  /** `Resolve` over parsed URLs, with its edges written out. */
  function Join(base: Uri, ref: Uri): (r: string)
    ensures KeptAsWritten(base, ref) ==> r == Recompose(ref)
    ensures !KeptAsWritten(base, ref) ==> SchemePart(base.scheme) <= r
    ensures !KeptAsWritten(base, ref) && !HasHost(ref) ==> SchemePart(base.scheme) + AuthorityPart(base.authority) <= r
    ensures EndsWith(r, FragmentPart(ref.fragment))
  {
    ResolveUriKeeps(base, ref);
    RecomposeEdges(ResolveUri(base, ref));
    Recompose(ResolveUri(base, ref))
  }

  /** What a resolved reference takes from the base and from the reference. */
  lemma ResolveUriKeeps(base: Uri, ref: Uri)
    ensures KeptAsWritten(base, ref) ==> ResolveUri(base, ref) == ref
    ensures !KeptAsWritten(base, ref) ==> ResolveUri(base, ref).scheme == base.scheme
    ensures !KeptAsWritten(base, ref) && !HasHost(ref) ==> ResolveUri(base, ref).authority == base.authority
    ensures ResolveUri(base, ref).fragment == ref.fragment
  {
  }

  /** A recomposed URL starts with its scheme part, then its authority part, and ends with its fragment part. */
  lemma RecomposeEdges(u: Uri)
    ensures SchemePart(u.scheme) + AuthorityPart(u.authority) <= Recompose(u)
    ensures EndsWith(Recompose(u), FragmentPart(u.fragment))
  {
    var s, a := SchemePart(u.scheme), AuthorityPart(u.authority);
    var rest := u.path + QueryPart(u.query);
    var f := FragmentPart(u.fragment);
    assert Recompose(u) == (s + a) + (rest + f);
    assert Recompose(u) == (s + a + rest) + f;
  }

  /** A character that ends a path segment. */
  predicate EndsSegment(c: char) {
    c == '/' || c == '?' || c == '#'
  }

  /** A "." or ".." segment starts at index `i` of `s`. */
  predicate DotSegmentAt(s: string, i: int) {
    && 0 <= i < |s| && (i == 0 || s[i - 1] == '/') && s[i] == '.'
    && (i + 1 == |s| || EndsSegment(s[i + 1])
        || (s[i + 1] == '.' && (i + 2 == |s| || EndsSegment(s[i + 2]))))
  }

  /**
   * `s` has no "." or ".." segment, so removing dot segments (section
   * 5.2.4 of RFC 3986, which `urljoin` applies) leaves it as it is.
   */
  predicate NoDotSegment(s: string) {
    forall i :: 0 <= i < |s| ==> !DotSegmentAt(s, i)
  }

  /** Scheme and host of a URL as the page loop computes them: `f"{p.scheme}://{p.netloc}"`. */
  function Origin(url: string): string {
    var u := Parse(url);
    u.scheme.GetOr("") + "://" + u.authority.GetOr("")
  }

  /**
   * A reference that names another scheme than the base's, or the same
   * scheme and a host, resolves to itself.
   */
  lemma ResolveAbsolute(base: string, ref: string)
    requires KeptAsWritten(Parse(base), Parse(ref))
    ensures Resolve(base, ref) == ref
  {
  }

  /** A reference whose first character is '/', '?' or '#' has no scheme. */
  lemma NoSchemeBeforeStop(ref: string)
    requires ref != [] && (ref[0] == '/' || ref[0] == '?' || ref[0] == '#')
    ensures Parse(ref).scheme.None?
  {
    assert Scan(ref, SchemeEnd).0 == [];
    assert SplitScheme(ref).0.None?;
  }

  /**
   * A URL whose text before its first ':' holds a character `urlsplit`
   * does not allow in a scheme (such as '_') has no scheme.
   */
  lemma NoSchemeWithForeignChar(s: string, j: int)
    requires 0 <= j < |s| && !IsSchemeChar(s[j]) && s[j] != ':'
    requires forall i :: 0 <= i < j ==> s[i] != ':'
    ensures Parse(s).scheme.None?
  {
  }

  /**
   * A reference with no scheme that does not start with "//" has no
   * authority either; its path is non-empty and starts where the
   * reference starts unless the reference starts with '?' or '#'.
   */
  lemma PathOfSchemeless(ref: string)
    requires Parse(ref).scheme.None? && !("//" <= ref)
    ensures Parse(ref).authority.None?
    ensures ref == Parse(ref).path + (QueryPart(Parse(ref).query) + FragmentPart(Parse(ref).fragment))
    ensures ref != [] && ref[0] != '?' && ref[0] != '#' ==> Parse(ref).path != [] && Parse(ref).path[0] == ref[0]
  {
    AuthorityOfSchemeless(ref);
    assert ref == Recompose(Parse(ref));
  }

  /** A reference that starts with one '/' replaces the base's path, query and fragment. */
  lemma ResolveRootRelative(base: string, ref: string)
    requires ref != [] && ref[0] == '/' && !("//" <= ref)
    ensures Resolve(base, ref)
            == SchemePart(Parse(base).scheme) + (AuthorityPart(Parse(base).authority) + ref)
  {
    NoSchemeBeforeStop(ref);
    PathOfSchemeless(ref);
  }

  /** On components: a relative path is appended to the directory of the base path. */
  lemma ResolveUriPathRelative(b: Uri, r: Uri)
    requires r.scheme.None? && r.authority.None? && r.path != [] && r.path[0] != '/'
    ensures Recompose(ResolveUri(b, r))
            == SchemePart(b.scheme) + (AuthorityPart(b.authority) + (Directory(b) + Recompose(r)))
  {
    var dir := Directory(b);
    var tail := QueryPart(r.query) + FragmentPart(r.fragment);
    assert ResolveUri(b, r) == Uri(b.scheme, b.authority, dir + r.path, r.query, r.fragment);
    assert (dir + r.path) + tail == dir + (r.path + tail);
  }

  /**
   * A relative path reference (no scheme, not starting with '/', '?' or
   * '#') is appended to the directory of the base path.
   */
  lemma ResolvePathRelative(base: string, ref: string)
    requires ref != [] && ref[0] != '/' && ref[0] != '?' && ref[0] != '#' && Parse(ref).scheme.None?
    ensures Resolve(base, ref)
            == SchemePart(Parse(base).scheme)
               + (AuthorityPart(Parse(base).authority) + (Directory(Parse(base)) + ref))
  {
    PathOfSchemeless(ref);
    ResolveUriPathRelative(Parse(base), Parse(ref));
  }

  /** The scan of `a + b` stops between the two when `a` holds no delimiter and `b` starts with one. */
  lemma {:induction false} ScanAtBoundary(a: string, b: string, stops: Delimiters)
    requires NoneOf(a, stops) && (b == [] || Ends(stops, b[0]))
    ensures Scan(a + b, stops) == (a, b)
    decreases |a|
  {
    if a != [] {
      assert (a + b)[0] == a[0] && (a + b)[1..] == a[1..] + b;
      ScanAtBoundary(a[1..], b, stops);
      assert a == [a[0]] + a[1..];
    } else {
      assert a + b == b;
    }
  }

  /** A scheme, "://", a host and a path with no query or fragment parse back to those components. */
  lemma ParseSchemeHostPath(sc: string, au: string, path: string)
    requires sc != [] && IsAsciiLetter(sc[0]) && NoneOf(sc, SchemeEnd) && NoneOf(au, AuthorityEnd)
    requires (path == [] || path[0] == '/') && NoneOf(path, PathEnd)
    ensures Parse(sc + "://" + au + path) == Uri(Some(sc), Some(au), path, None, None)
  {
    var o := sc + "://" + au + path;
    var rest := "//" + (au + path);
    assert o == sc + (":" + rest);
    ScanAtBoundary(sc, ":" + rest, SchemeEnd);
    assert SplitScheme(o) == (Some(sc), rest);
    assert rest[2..] == au + path;
    ScanAtBoundary(au, path, AuthorityEnd);
    assert SplitAuthority(rest) == (Some(au), path);
    assert path == path + [];
    ScanAtBoundary(path, [], PathEnd);
    assert SplitPath(path) == (path, "");
    assert SplitQuery("") == (None, "");
  }

  /** The root address of a site, `scheme://host`. */
  function SiteUrl(scheme: string, host: string): string {
    scheme + "://" + host
  }

  /** A site address "scheme://host" has that scheme and host, and no path, query or fragment. */
  lemma SiteAddress(scheme: string, host: string, site: string)
    requires scheme != [] && IsAsciiLetter(scheme[0]) && NoneOf(scheme, SchemeEnd) && NoneOf(host, AuthorityEnd)
    requires site == scheme + "://" + host
    ensures Parse(site) == Uri(Some(scheme), Some(host), "", None, None)
  {
    ParseSchemeHostPath(scheme, host, "");
    assert scheme + "://" + host + "" == site;
  }

  /** The origin of a URL with a scheme and a host parses back to that scheme and host alone. */
  lemma ParseOrigin(url: string)
    requires Parse(url).scheme.Some? && Parse(url).authority.Some?
    ensures Parse(Origin(url)) == Uri(Parse(url).scheme, Parse(url).authority, "", None, None)
  {
    var sc, au := Parse(url).scheme.value, Parse(url).authority.value;
    ParseSchemeHostPath(sc, au, "");
    assert sc + "://" + au + "" == Origin(url);
  }

  /** Without a scheme, a reference has an authority exactly when it starts with "//". */
  lemma AuthorityOfSchemeless(ref: string)
    requires Parse(ref).scheme.None?
    ensures Parse(ref).authority.Some? <==> "//" <= ref
  {
    assert SplitScheme(ref).1 == ref;
  }

  /** A network-path reference with an empty host and nothing after it but a query or fragment, such as "//". */
  predicate EmptyNetworkPath(u: Uri) {
    u.authority == Some([]) && u.path == []
  }

  /**
   * A reference starting with '/' has no scheme, and a host, a path
   * starting with '/', or an empty host and no path.
   */
  lemma RootRelativeShape(ref: string)
    requires ref != [] && ref[0] == '/'
    ensures Parse(ref).scheme.None?
    ensures HasHost(Parse(ref)) || (Parse(ref).path != [] && Parse(ref).path[0] == '/') || EmptyNetworkPath(Parse(ref))
  {
    NoSchemeBeforeStop(ref);
    AuthorityOfSchemeless(ref);
    if !("//" <= ref) {
      PathOfSchemeless(ref);
    }
  }

  /** On components: a reference that does not depend on the base's path sees only its scheme and authority. */
  lemma ResolveUriSameOrigin(o: Uri, u: Uri, r: Uri)
    requires o.scheme == u.scheme && o.authority == u.authority
    requires r.scheme.None? && (HasHost(r) || (r.path != [] && r.path[0] == '/'))
    ensures ResolveUri(o, r) == ResolveUri(u, r)
  {
  }

  /**
   * Resolving a root-relative href against the page's origin gives what
   * resolving it against the page URL itself gives.  The one exception is
   * an empty host with no path ("//", "//?q"), which keeps the base's
   * path.
   */
  lemma OriginResolvesLikePage(url: string, ref: string)
    requires Parse(url).scheme.Some? && Parse(url).authority.Some?
    requires ref != [] && ref[0] == '/' && !EmptyNetworkPath(Parse(ref))
    ensures Resolve(Origin(url), ref) == Resolve(url, ref)
  {
    var o := Origin(url);
    ParseOrigin(url);
    RootRelativeShape(ref);
    ResolveUriSameOrigin(Parse(o), Parse(url), Parse(ref));
    SameTargetSameResolution(o, url, ref);
  }

  lemma SameTargetSameResolution(b1: string, b2: string, ref: string)
    requires ResolveUri(Parse(b1), Parse(ref)) == ResolveUri(Parse(b2), Parse(ref))
    ensures Resolve(b1, ref) == Resolve(b2, ref)
  {
  }

  lemma RecomposeHostOnly(b: Uri, ref: string)
    requires b.path == [] && b.query.None? && b.fragment.None?
    ensures Recompose(b) + ref == SchemePart(b.scheme) + (AuthorityPart(b.authority) + ref)
  {
    var sp, ap := SchemePart(b.scheme), AuthorityPart(b.authority);
    assert Recompose(b) == sp + (ap + ([] + ([] + [])));
    assert Recompose(b) == sp + ap;
  }

  /**
   * On a base with no path, query or fragment (a bare scheme and host),
   * string concatenation agrees with resolution for root-relative hrefs.
   */
  lemma ConcatMatchesResolve(base: string, ref: string)
    requires Parse(base).path == [] && Parse(base).query.None? && Parse(base).fragment.None?
    requires ref != [] && ref[0] == '/' && !("//" <= ref)
    ensures base + ref == Resolve(base, ref)
  {
    ResolveRootRelative(base, ref);
    RecomposeHostOnly(Parse(base), ref);
  }

  /** A bare scheme and host: an authority and nothing after it. */
  predicate HostOnly(b: Uri) {
    b.authority.Some? && b.path == [] && b.query.None? && b.fragment.None?
  }

  /**
   * What `urljoin` drops from a reference it joins to the base's host:
   * the base's own scheme written out again, and an empty host "//".
   */
  function Dropped(b: Uri, r: Uri): string {
    if KeptAsWritten(b, r) || HasHost(r) then [] else SchemePart(r.scheme) + AuthorityPart(r.authority)
  }

  /** The rest of the reference, which ends the joined URL. */
  function Written(b: Uri, r: Uri): string {
    if KeptAsWritten(b, r) || HasHost(r) then Recompose(r) else r.path + (QueryPart(r.query) + FragmentPart(r.fragment))
  }

  /** A reference is what `urljoin` drops from it followed by what it keeps. */
  lemma DroppedWritten(b: Uri, r: Uri)
    ensures Recompose(r) == Dropped(b, r) + Written(b, r)
    ensures !KeptAsWritten(b, r) ==> r.scheme.None? || r.scheme == b.scheme
    ensures Dropped(b, r) != [] ==> !KeptAsWritten(b, r) && !HasHost(r)
  {
    if !(KeptAsWritten(b, r) || HasHost(r)) {
      ConcatAssociative(SchemePart(r.scheme), AuthorityPart(r.authority), r.path + (QueryPart(r.query) + FragmentPart(r.fragment)));
    }
  }

  /** What resolution against a bare scheme and host puts in front of the reference. */
  function HostOnlyPrefix(b: Uri, r: Uri): string {
    if KeptAsWritten(b, r) then []
    else if HasHost(r) then SchemePart(b.scheme)
    else if r.path != [] && r.path[0] != '/' then SchemePart(b.scheme) + (AuthorityPart(b.authority) + "/")
    else SchemePart(b.scheme) + AuthorityPart(b.authority)
  }

  lemma HostOnlyAbsolute(b: Uri, r: Uri)
    requires KeptAsWritten(b, r)
    ensures Recompose(ResolveUri(b, r)) == HostOnlyPrefix(b, r) + Written(b, r)
  {
    assert ResolveUri(b, r) == r;
    assert [] + Recompose(r) == Recompose(r);
  }

  lemma HostOnlyNetworkPath(b: Uri, r: Uri)
    requires HostOnly(b) && !KeptAsWritten(b, r) && HasHost(r)
    ensures Recompose(ResolveUri(b, r)) == HostOnlyPrefix(b, r) + Written(b, r)
  {
    assert r.scheme.None?;
  }

  lemma HostOnlySameDocument(b: Uri, r: Uri)
    requires HostOnly(b) && !KeptAsWritten(b, r) && !HasHost(r) && r.path == []
    ensures Recompose(ResolveUri(b, r)) == HostOnlyPrefix(b, r) + Written(b, r)
  {
    assert ResolveUri(b, r) == Uri(b.scheme, b.authority, [], r.query, r.fragment);
  }

  lemma HostOnlyRootRelative(b: Uri, r: Uri)
    requires HostOnly(b) && !KeptAsWritten(b, r) && !HasHost(r) && r.path != [] && r.path[0] == '/'
    ensures Recompose(ResolveUri(b, r)) == HostOnlyPrefix(b, r) + Written(b, r)
  {
    assert ResolveUri(b, r) == Uri(b.scheme, b.authority, r.path, r.query, r.fragment);
  }

  lemma HostOnlyPathRelative(b: Uri, r: Uri)
    requires HostOnly(b) && !KeptAsWritten(b, r) && !HasHost(r) && r.path != [] && r.path[0] != '/'
    ensures Recompose(ResolveUri(b, r)) == HostOnlyPrefix(b, r) + Written(b, r)
  {
    assert Directory(b) == "/";
    assert ResolveUri(b, r) == Uri(b.scheme, b.authority, "/" + r.path, r.query, r.fragment);
  }

  /**
   * On components: against a bare scheme and host, the target ends with
   * the reference as written, less what `urljoin` drops from it.
   */
  lemma ResolveUriHostOnly(b: Uri, r: Uri)
    requires HostOnly(b)
    ensures Recompose(ResolveUri(b, r)) == HostOnlyPrefix(b, r) + Written(b, r)
  {
    if KeptAsWritten(b, r) {
      HostOnlyAbsolute(b, r);
    } else if HasHost(r) {
      HostOnlyNetworkPath(b, r);
    } else if r.path == [] {
      HostOnlySameDocument(b, r);
    } else if r.path[0] == '/' {
      HostOnlyRootRelative(b, r);
    } else {
      HostOnlyPathRelative(b, r);
    }
  }

  /**
   * Joining any reference to a bare "scheme://host" address leaves the
   * reference, as written, at the end of the result (dot segments are
   * not removed), less at most the base's own scheme and an empty host
   * "//" in front of it.
   */
  lemma ResolveEndsWithRef(base: string, ref: string)
    requires Parse(base).authority.Some? && Parse(base).path == []
    requires Parse(base).query.None? && Parse(base).fragment.None?
    ensures ref == Dropped(Parse(base), Parse(ref)) + Written(Parse(base), Parse(ref))
    ensures Dropped(Parse(base), Parse(ref)) in {[], "//", SchemePart(Parse(base).scheme), SchemePart(Parse(base).scheme) + "//"}
    ensures exists p :: Resolve(base, ref) == p + Written(Parse(base), Parse(ref))
  {
    var b, r := Parse(base), Parse(ref);
    DroppedWritten(b, r);
    DroppedShape(b, r);
    ResolveUriHostOnly(b, r);
    assert Resolve(base, ref) == HostOnlyPrefix(b, r) + Written(b, r);
  }

  /**
   * A reference joined to the host of a bare "scheme://host" address
   * gives a URL that starts with that address.
   */
  lemma ResolveStaysOnSite(base: string, ref: string)
    requires HostOnly(Parse(base))
    requires !KeptAsWritten(Parse(base), Parse(ref)) && !HasHost(Parse(ref))
    ensures base <= Resolve(base, ref)
  {
    var b, u := Parse(base), Parse(ref);
    assert Resolve(base, ref) == Join(b, u);
    RecomposeBare(b);
  }

  /** A bare scheme and host is written as its scheme part and its authority part. */
  lemma RecomposeBare(b: Uri)
    requires b.path == [] && b.query.None? && b.fragment.None?
    ensures Recompose(b) == SchemePart(b.scheme) + AuthorityPart(b.authority)
  {
    RecomposeHostOnly(b, []);
    assert Recompose(b) + [] == Recompose(b);
    assert AuthorityPart(b.authority) + [] == AuthorityPart(b.authority);
  }

  /**
   * Against a bare "scheme://host" address, text that starts with '/'
   * and a character that does not end a path segment, found in the
   * reference, is found in the joined URL (dot segments are not removed).
   */
  lemma HostOnlyKeepsText(base: string, ref: string, t: string)
    requires HostOnly(Parse(base))
    requires |t| >= 2 && t[0] == '/' && !EndsSegment(t[1])
    requires Contains(ref, t)
    ensures Contains(Resolve(base, ref), t)
  {
    var b := Parse(base);
    ResolveEndsWithRef(base, ref);
    var w := Written(b, Parse(ref));
    WrittenKeepsText(b, ref, t);
    var p :| Resolve(base, ref) == p + w;
    ContainsInContext(p, w, [], t);
    assert p + w + [] == Resolve(base, ref);
  }

  /** What `urljoin` drops is nothing, the base's scheme, an empty host "//", or both. */
  lemma DroppedShape(b: Uri, r: Uri)
    ensures Dropped(b, r) in {[], "//", SchemePart(b.scheme), SchemePart(b.scheme) + "//"}
  {
    if !(KeptAsWritten(b, r) || HasHost(r)) {
      var sp, ap := SchemePart(r.scheme), AuthorityPart(r.authority);
      assert sp == [] || sp == SchemePart(b.scheme);
      if r.authority.None? {
        assert Dropped(b, r) == sp + [] == sp;
      } else {
        assert ap == "//";
        assert sp == [] ==> Dropped(b, r) == [] + "//" == "//";
      }
    }
  }

  /**
   * Text that starts with '/' and a character that does not end a path
   * segment, found in a reference, is found in what `urljoin` keeps of
   * it: the only '/' characters it drops are those of an empty host "//",
   * and the kept part then starts with '/', '?' or '#'.
   */
  lemma WrittenKeepsText(b: Uri, s: string, t: string)
    requires |t| >= 2 && t[0] == '/' && !EndsSegment(t[1])
    requires Contains(s, t)
    ensures Contains(Written(b, Parse(s)), t)
  {
    var r := Parse(s);
    DroppedWritten(b, r);
    var d, w := Dropped(b, r), Written(b, r);
    assert s == d + w;
    ContainsIff(s, t);
    var i :| OccursAt(d + w, t, i);
    NoOccurrenceInDropped(b, r, t, i);
    OccursAfterPrefix(d, w, t, i);
  }

  /** On components: such text does not start inside the part `urljoin` drops. */
  lemma NoOccurrenceInDropped(b: Uri, r: Uri, t: string, i: int)
    requires r.scheme.Some? ==> NoneOf(r.scheme.value, SchemeEnd)
    requires r.authority.Some? ==> r.path == [] || r.path[0] == '/'
    requires |t| >= 2 && t[0] == '/' && !EndsSegment(t[1])
    requires OccursAt(Dropped(b, r) + Written(b, r), t, i)
    ensures i >= |Dropped(b, r)|
  {
    var d, w := Dropped(b, r), Written(b, r);
    if d != [] {
      var sp := SchemePart(r.scheme);
      SchemePartNoSlash(r.scheme);
      assert d == sp + AuthorityPart(r.authority);
      assert (d + w)[i] == '/';
      if r.authority.Some? {
        assert d == sp + "//";
        assert w == r.path + (QueryPart(r.query) + FragmentPart(r.fragment));
        assert (d + w)[i + 1] == t[1];
      }
    }
  }

  /** A scheme part holds no '/'. */
  lemma SchemePartNoSlash(scheme: Option<string>)
    requires scheme.Some? ==> NoneOf(scheme.value, SchemeEnd)
    ensures forall j | 0 <= j < |SchemePart(scheme)| :: SchemePart(scheme)[j] != '/'
  {
    if scheme.Some? {
      assert forall j | 0 <= j < |scheme.value| :: !Ends(SchemeEnd, scheme.value[j]);
    }
  }

  /** Joining anything to a URL that has a scheme gives a non-empty URL. */
  lemma ResolveNonEmpty(base: string, ref: string)
    requires Parse(base).scheme.Some?
    ensures Resolve(base, ref) != []
  {
    var t := ResolveUri(Parse(base), Parse(ref));
    assert t.scheme.Some?;
    assert |Recompose(t)| >= |SchemePart(t.scheme)| > 0;
  }

  /** A reference holding no ':' has no scheme. */
  lemma NoSchemeInWord(ref: string)
    requires forall i :: 0 <= i < |ref| ==> ref[i] != ':'
    ensures Parse(ref).scheme.None?
  {
    var (name, rest) := Scan(ref, SchemeEnd);
    assert rest == [] || rest[0] == ref[|name|];
  }
}
