/**
 * The page key and site key of main.py: `normalize_url` (lines 45-56) and
 * `urlparse(page_url).netloc` (line 67).
 *
 * `rfc3986.normalize_uri` (the syntax-based normalisation of section 6.2.2 of
 * RFC 3986) belongs to a foreign library and is taken as a parameter
 * `normalizeUri`, about which nothing is assumed.
 */
module UrlKey {
  import opened Text

  const IndexSuffix: string := "index.html"

  predicate EndsWith(s: string, suffix: string) {
    |suffix| <= |s| && s[|s| - |suffix|..] == suffix
  }

  /** `url.removesuffix("index.html")`: exactly those ten characters go, and only when they end the string. */
  function RemoveIndexSuffix(url: string): (r: string)
    ensures EndsWith(url, IndexSuffix) ==> r + IndexSuffix == url
    ensures !EndsWith(url, IndexSuffix) ==> r == url
  {
    if EndsWith(url, IndexSuffix) then url[..|url| - |IndexSuffix|] else url
  }

  /** `url.replace("\\", "/")`. */
  function ReplaceBackslashes(s: string): (r: string)
    ensures |r| == |s|
    ensures forall i | 0 <= i < |s| :: r[i] == if s[i] == '\\' then '/' else s[i]
    ensures '\\' !in r
  {
    if s == [] then []
    else [if s[0] == '\\' then '/' else s[0]] + ReplaceBackslashes(s[1..])
  }

  /** `'/'.join(x for x in url.split('/') if x)`: no `/` at either end and no `//`. */
  function Collapse(s: string): (r: string)
    ensures Collapsed(r)
  {
    SplitPiecesAvoidSeparator(s, '/');
    JoinCollapsed(NonEmpty(Split(s, '/')));
    Join(NonEmpty(Split(s, '/')), '/')
  }

  /** Lines 52-55: the `http:/` or `https:/` that the collapse made of the scheme's `//` gets its slash back. */
  function RepairScheme(t: string): (r: string)
    ensures "http:/" <= t ==> r == "http:" + "//" + t[6..]
    ensures "https:/" <= t ==> r == "https:" + "//" + t[7..]
    ensures !("http:/" <= t) && !("https:/" <= t) ==> r == t
  {
    assert "http:/" <= t ==> !("https:/" <= t) by {
      if "http:/" <= t { assert t[4] == ':'; }
    }
    assert "http:/" <= t ==> !("https:/" <= "http://" + t[6..]) by {
      if "http:/" <= t { assert ("http://" + t[6..])[4] == ':'; }
    }
    var u := if "http:/" <= t then "http://" + t[6..] else t;
    if "https:/" <= u then "https://" + u[7..] else u
  }

  /**
   * Lines 50-55, the post-processing after URI normalisation: the result has
   * no `\`, no `/` at either end, and its only `//` follows a leading scheme.
   */
  function CleanSeparators(s: string): (r: string)
    ensures PageKeyShape(r)
  {
    var x := ReplaceBackslashes(s);
    CollapseAvoids(x, '\\');
    RepairShape(Collapse(x));
    RepairScheme(Collapse(x))
  }

  /** `normalize_url(url)`, the page key; it has page-key shape whatever `normalizeUri` returns. */
  function NormalizeUrl(url: string, normalizeUri: string -> string): (key: string)
    ensures PageKeyShape(key)
  {
    CleanSeparators(normalizeUri(RemoveIndexSuffix(url)))
  }

  /** No `/` at either end and no two `/` in a row. */
  predicate Collapsed(t: string) {
    forall i | 0 <= i < |t| && t[i] == '/' :: 0 < i < |t| - 1 && t[i + 1] != '/'
  }

  /** The only `//` is the one right after a leading `http:` or `https:`. */
  predicate SchemeSlashesOnly(r: string) {
    forall i | 0 <= i < |r| - 1 && r[i] == '/' && r[i + 1] == '/' ::
      (i == 5 && "http:" <= r) || (i == 6 && "https:" <= r)
  }

  /** What every page key looks like. */
  predicate PageKeyShape(r: string) {
    && '\\' !in r
    && SchemeSlashesOnly(r)
    && (r != [] ==> r[0] != '/' && r[|r| - 1] != '/')
  }

  // ---------------------------------------------------------------------
  // The collapse of lines 50-51

  lemma {:induction false} JoinCollapsed(parts: seq<string>)
    requires forall p <- parts :: p != [] && '/' !in p
    ensures Collapsed(Join(parts, '/'))
  {
    if |parts| > 1 {
      var p, j := parts[0], Join(parts[1..], '/');
      var t := Join(parts, '/');
      assert forall q <- parts[1..] :: q in parts;
      JoinCollapsed(parts[1..]);
      assert parts[1] in parts;
      assert parts[1] <= j;
      assert j != [] && j[0] != '/';
      assert t == p + ['/'] + j;
      assert p in parts;
      assert forall k | 0 <= k < |p| :: t[k] == p[k] && t[k] != '/';
      forall i | 0 <= i < |t| && t[i] == '/'
        ensures 0 < i < |t| - 1 && t[i + 1] != '/'
      {
        if i == |p| {
          assert t[i + 1] == j[0];
        } else {
          assert t[i] == j[i - |p| - 1];
          assert i + 1 < |t| && t[i + 1] == j[i - |p|];
        }
      }
    } else if parts != [] {
      assert parts[0] in parts;
    }
  }

  /** The collapse invents no characters other than `/`. */
  lemma CollapseAvoids(s: string, c: char)
    requires c != '/' && c !in s
    ensures c !in Collapse(s)
  {
    SplitAvoids(s, '/', c);
    JoinAvoids(NonEmpty(Split(s, '/')), '/', c);
  }

  /** Collapsing twice is collapsing once. */
  lemma CollapseIdempotent(s: string)
    ensures Collapse(Collapse(s)) == Collapse(s)
  {
    var parts := NonEmpty(Split(s, '/'));
    if parts == [] {
      assert Split([], '/') == [[]];
    } else {
      SplitPiecesAvoidSeparator(s, '/');
      SplitJoin(parts, '/');
      NonEmptyKeepsNonEmpty(parts);
    }
  }

  /** A trailing `/` makes no difference to the collapse. */
  lemma CollapseTrailingSlash(x: string)
    ensures Collapse(x + "/") == Collapse(x)
  {
    SplitTrailingSeparator(x, '/');
    NonEmptyConcat(Split(x, '/'), [[]]);
    assert NonEmpty([[]]) == [];
    assert NonEmpty(Split(x, '/')) + [] == NonEmpty(Split(x, '/'));
  }

  /** A doubled `/` makes no difference to the collapse. */
  lemma CollapseDoubleSlash(x: string, y: string)
    ensures Collapse(x + "//" + y) == Collapse(x + "/" + y)
  {
    assert x + "//" + y == x + ['/'] + (['/'] + y);
    assert ['/'] + y == [] + ['/'] + y;
    SplitConcat(x, ['/'] + y, '/');
    SplitConcat([], y, '/');
    SplitConcat(x, y, '/');
    NonEmptyConcat(Split(x, '/'), [[]] + Split(y, '/'));
    NonEmptyConcat([[]], Split(y, '/'));
    NonEmptyConcat(Split(x, '/'), Split(y, '/'));
  }

  // ---------------------------------------------------------------------
  // The scheme repair of lines 52-55

  /** The repair only re-inserts a `/` that a later collapse takes out again. */
  lemma RepairThenCollapse(t: string)
    requires Collapse(t) == t
    ensures Collapse(RepairScheme(t)) == t
  {
    if "http:/" <= t {
      assert t == "http:" + "/" + t[6..];
      CollapseDoubleSlash("http:", t[6..]);
    } else if "https:/" <= t {
      assert t == "https:" + "/" + t[7..];
      CollapseDoubleSlash("https:", t[7..]);
    }
  }

  /** Re-inserting one `/` after `scheme:` of a collapsed string gives a page key. */
  lemma RepairOneScheme(t: string, scheme: string)
    requires scheme == "http:" || scheme == "https:"
    requires Collapsed(t) && '\\' !in t
    requires scheme + "/" <= t
    ensures PageKeyShape(scheme + "//" + t[|scheme| + 1..])
  {
    var n := |scheme|;
    var w := t[n + 1..];
    var r := scheme + "//" + w;
    assert t[n] == '/';
    assert forall i | n + 2 <= i < |r| :: r[i] == t[i - 1];
    assert forall i | 0 <= i < n :: r[i] == scheme[i] && r[i] != '/';
    assert forall c <- w :: c in t;
    assert scheme <= r;
  }

  /** A collapsed string without `\` is a page key as it stands. */
  lemma CollapsedIsPageKey(t: string)
    requires Collapsed(t) && '\\' !in t
    ensures PageKeyShape(t)
  {
  }

  /** The repaired string is a page key. */
  lemma RepairShape(t: string)
    requires Collapsed(t) && '\\' !in t
    ensures PageKeyShape(RepairScheme(t))
  {
    var r := RepairScheme(t);
    if "http:/" <= t {
      assert "http:" + "/" == "http:/";
      RepairOneScheme(t, "http:");
      assert r == "http:" + "//" + t[6..];
    } else if "https:/" <= t {
      assert "https:" + "/" == "https:/";
      RepairOneScheme(t, "https:");
      assert r == "https:" + "//" + t[7..];
    } else {
      CollapsedIsPageKey(t);
    }
  }

  // ---------------------------------------------------------------------
  // Properties of the post-processing of lines 50-55

  lemma ReplaceBackslashesConcat(a: string, b: string)
    ensures ReplaceBackslashes(a + b) == ReplaceBackslashes(a) + ReplaceBackslashes(b)
  {
  }

  lemma ReplaceBackslashesIdentity(s: string)
    requires '\\' !in s
    ensures ReplaceBackslashes(s) == s
  {
    assert forall i | 0 <= i < |s| :: s[i] != '\\';
  }

  /** Applying the post-processing to its own output changes nothing. */
  lemma CleanSeparatorsIdempotent(s: string)
    ensures CleanSeparators(CleanSeparators(s)) == CleanSeparators(s)
  {
    var t := Collapse(ReplaceBackslashes(s));
    var r := RepairScheme(t);
    assert r == CleanSeparators(s);
    ReplaceBackslashesIdentity(r);
    CollapseIdempotent(ReplaceBackslashes(s));
    RepairThenCollapse(t);
  }

  /** `s` and `s + "/"` give the same key. */
  lemma CleanSeparatorsTrailingSlash(s: string)
    ensures CleanSeparators(s + "/") == CleanSeparators(s)
  {
    assert ReplaceBackslashes(s + "/") == ReplaceBackslashes(s) + "/";
    CollapseTrailingSlash(ReplaceBackslashes(s));
  }

  /** `s` and `s` with every `\` made `/` give the same key. */
  lemma CleanSeparatorsBackslash(s: string)
    ensures CleanSeparators(ReplaceBackslashes(s)) == CleanSeparators(s)
  {
    ReplaceBackslashesIdentity(ReplaceBackslashes(s));
  }

  /** One `\` anywhere gives the same key as a `/` in its place. */
  lemma BackslashAsSlash(a: string, b: string)
    ensures CleanSeparators(a + "\\" + b) == CleanSeparators(a + "/" + b)
  {
    ReplaceBackslashesConcat(a + "\\", b);
    ReplaceBackslashesConcat(a, "\\");
    ReplaceBackslashesConcat(a + "/", b);
    ReplaceBackslashesConcat(a, "/");
    assert ReplaceBackslashes("\\") == "/" == ReplaceBackslashes("/");
  }

  /** Two `\` in a row of pieces act as two `/`. */
  lemma TwoBackslashes(a: string, b: string, c: string)
    ensures CleanSeparators(a + "\\" + b + "\\" + c) == CleanSeparators(a + "/" + b + "/" + c)
  {
    var tail, head := b + "\\" + c, a + "/" + b;
    assert CleanSeparators(a + "\\" + b + "\\" + c) == CleanSeparators(a + "/" + tail) by {
      assert a + "\\" + b + "\\" + c == a + "\\" + tail;
      BackslashAsSlash(a, tail);
    }
    assert CleanSeparators(a + "/" + tail) == CleanSeparators(a + "/" + b + "/" + c) by {
      assert a + "/" + tail == head + "\\" + c;
      BackslashAsSlash(head, c);
      assert head + "/" + c == a + "/" + b + "/" + c;
    }
  }

  lemma BackslashExample()
    ensures CleanSeparators("https://a.com\\b\\c") == CleanSeparators("https://a.com/b/c")
  {
    assert "https://a.com\\b\\c" == "https://a.com" + "\\" + "b" + "\\" + "c";
    assert "https://a.com/b/c" == "https://a.com" + "/" + "b" + "/" + "c";
    TwoBackslashes("https://a.com", "b", "c");
  }

  /** Collapsing pieces joined by `/` keeps exactly the non-empty pieces. */
  lemma CollapseJoin(parts: seq<string>)
    requires parts != [] && forall p <- parts :: '/' !in p
    ensures Collapse(Join(parts, '/')) == Join(NonEmpty(parts), '/')
  {
    SplitJoin(parts, '/');
  }

  /** `https://host/segment` is the join of `https:`, an empty piece, `host` and `segment`. */
  lemma HttpsKeyJoin(host: string, segment: string)
    ensures Join(["https:", "", host, segment], '/') == "https://" + host + "/" + segment
    ensures Join(["https:", host, segment], '/') == "https:/" + host + "/" + segment
  {
    var parts := ["https:", "", host, segment];
    assert Join(parts[3..], '/') == segment;
    assert Join(parts[2..], '/') == host + "/" + segment;
    assert Join(parts[1..], '/') == "/" + host + "/" + segment;
    var kept := ["https:", host, segment];
    assert kept[1..] == parts[2..];
  }

  /** The filter drops just the empty piece between the scheme's two slashes. */
  lemma HttpsKeyPieces(host: string, segment: string)
    requires host != [] && segment != []
    ensures NonEmpty(["https:", "", host, segment]) == ["https:", host, segment]
  {
    assert ["https:", "", host, segment] == ["https:"] + [""] + [host, segment];
    NonEmptyConcat(["https:"] + [""], [host, segment]);
    NonEmptyConcat(["https:"], [""]);
    NonEmptyKeepsNonEmpty(["https:"]);
    NonEmptyKeepsNonEmpty([host, segment]);
  }

  /** The collapse turns the scheme's `//` into a single `/`. */
  lemma HttpsKeyCollapse(host: string, segment: string)
    requires host != [] && segment != []
    requires '/' !in host && '/' !in segment
    ensures Collapse("https://" + host + "/" + segment) == "https:/" + host + "/" + segment
  {
    HttpsKeyJoin(host, segment);
    CollapseJoin(["https:", "", host, segment]);
    HttpsKeyPieces(host, segment);
  }

  /** The repair gives `https:/host/segment` its second slash back. */
  lemma HttpsKeyRepair(host: string, segment: string)
    ensures RepairScheme("https:/" + host + "/" + segment) == "https://" + host + "/" + segment
  {
    var t := "https:/" + host + "/" + segment;
    assert "https:/" <= t && !("http:/" <= t) by { assert t[4] == 's'; }
    assert "https:" + "//" + t[7..] == "https://" + host + "/" + segment;
  }

  /** No `\` to replace in `https://host/segment`. */
  lemma HttpsKeyNoBackslash(host: string, segment: string)
    requires '\\' !in host && '\\' !in segment
    ensures ReplaceBackslashes("https://" + host + "/" + segment) == "https://" + host + "/" + segment
  {
    HttpsKeyJoin(host, segment);
    JoinAvoids(["https:", "", host, segment], '/', '\\');
    ReplaceBackslashesIdentity("https://" + host + "/" + segment);
  }

  /** `https://host/segment`, with no `/` or `\` inside host and segment, comes out of lines 50-55 unchanged. */
  lemma HttpsKeyUnchanged(host: string, segment: string)
    requires host != [] && segment != []
    requires '/' !in host && '\\' !in host && '/' !in segment && '\\' !in segment
    ensures CleanSeparators("https://" + host + "/" + segment) == "https://" + host + "/" + segment
  {
    HttpsKeyNoBackslash(host, segment);
    HttpsKeyCollapse(host, segment);
    HttpsKeyRepair(host, segment);
  }

  // ---------------------------------------------------------------------
  // normalize_url as a whole

  /** The `index.html` suffix is removed before the URI normaliser sees the string. */
  lemma IndexSuffixStrippedFirst(prefix: string, normalizeUri: string -> string)
    ensures NormalizeUrl(prefix + IndexSuffix, normalizeUri) == CleanSeparators(normalizeUri(prefix))
  {
    assert (prefix + IndexSuffix)[..|prefix|] == prefix;
  }

  /** Normalising a page key again, with a URI normaliser that leaves it alone, returns it unchanged. */
  lemma NormalizeUrlStable(url: string, normalizeUri: string -> string)
    requires var key := NormalizeUrl(url, normalizeUri);
      !EndsWith(key, IndexSuffix) && normalizeUri(key) == key
    ensures NormalizeUrl(NormalizeUrl(url, normalizeUri), normalizeUri) == NormalizeUrl(url, normalizeUri)
  {
    CleanSeparatorsIdempotent(normalizeUri(RemoveIndexSuffix(url)));
  }

  /** Non-empty pieces without `/` or `\`, joined by `/`, come out of lines 50-55 unchanged when they do not start with `h`. */
  lemma PlainPathUnchanged(parts: seq<string>)
    requires parts != [] && forall p <- parts :: p != [] && '/' !in p && '\\' !in p
    requires parts[0] != [] && parts[0][0] != 'h'
    ensures CleanSeparators(Join(parts, '/')) == Join(parts, '/')
  {
    var j := Join(parts, '/');
    JoinAvoids(parts, '/', '\\');
    ReplaceBackslashesIdentity(j);
    CollapseJoin(parts);
    NonEmptyKeepsNonEmpty(parts);
    assert j[0] == parts[0][0];
  }

  /**
   * `index.html` is removed (line 46) before the collapse (line 51). With a URI
   * normaliser that leaves these strings alone, `p/index.html/` keeps the
   * `index.html` that `p/index.html` loses: the trailing `/` changes the page
   * key, and normalising that key again changes it once more.
   */
  lemma IndexHtmlBeforeSlash(p: string, normalizeUri: string -> string)
    requires p != [] && '/' !in p && '\\' !in p && p[0] != 'h'
    requires normalizeUri(p + "/" + IndexSuffix + "/") == p + "/" + IndexSuffix + "/"
    requires normalizeUri(p + "/" + IndexSuffix) == p + "/" + IndexSuffix
    requires normalizeUri(p + "/") == p + "/"
    ensures NormalizeUrl(p + "/" + IndexSuffix + "/", normalizeUri) == p + "/" + IndexSuffix
    ensures NormalizeUrl(p + "/" + IndexSuffix, normalizeUri) == p
    ensures NormalizeUrl(NormalizeUrl(p + "/" + IndexSuffix + "/", normalizeUri), normalizeUri) !=
            NormalizeUrl(p + "/" + IndexSuffix + "/", normalizeUri)
  {
    var page := p + "/" + IndexSuffix;
    IndexPathSuffix(p);
    IndexPathCleaned(p);
    assert NormalizeUrl(page + "/", normalizeUri) == CleanSeparators(page + "/");
    assert NormalizeUrl(page, normalizeUri) == CleanSeparators(p + "/");
    assert |page| > |p|;
  }

  /** `removesuffix` leaves `p/index.html/` alone and takes `p/index.html` to `p/`. */
  lemma IndexPathSuffix(p: string)
    ensures RemoveIndexSuffix(p + "/" + IndexSuffix + "/") == p + "/" + IndexSuffix + "/"
    ensures RemoveIndexSuffix(p + "/" + IndexSuffix) == p + "/"
  {
    var page := p + "/" + IndexSuffix;
    assert !EndsWith(page + "/", IndexSuffix) by { assert (page + "/")[|page|] == '/'; }
    assert page[..|page| - |IndexSuffix|] == p + "/";
  }

  /** Lines 50-55 take `p/index.html/` to `p/index.html` and `p/` to `p`. */
  lemma IndexPathCleaned(p: string)
    requires p != [] && '/' !in p && '\\' !in p && p[0] != 'h'
    ensures CleanSeparators(p + "/" + IndexSuffix + "/") == p + "/" + IndexSuffix
    ensures CleanSeparators(p + "/") == p
  {
    IndexPageSlashCleaned(p);
    PlainSlashCleaned(p);
  }

  /** Lines 50-55 take `p/index.html/` to `p/index.html`. */
  lemma IndexPageSlashCleaned(p: string)
    requires p != [] && '/' !in p && '\\' !in p && p[0] != 'h'
    ensures CleanSeparators(p + "/" + IndexSuffix + "/") == p + "/" + IndexSuffix
  {
    var page := p + "/" + IndexSuffix;
    CleanSeparatorsTrailingSlash(page);
    assert Join([p, IndexSuffix], '/') == page;
    PlainPathUnchanged([p, IndexSuffix]);
  }

  /** Lines 50-55 take `p/` to `p`. */
  lemma PlainSlashCleaned(p: string)
    requires p != [] && '/' !in p && '\\' !in p && p[0] != 'h'
    ensures CleanSeparators(p + "/") == p
  {
    CleanSeparatorsTrailingSlash(p);
    PlainPathUnchanged([p]);
  }

  /** `https://host` is the join of `https:`, an empty piece and `host`; the filter drops the empty piece. */
  lemma HttpsSitePieces(host: string)
    requires host != []
    ensures Join(["https:", "", host], '/') == "https://" + host
    ensures Join(["https:", host], '/') == "https:/" + host
    ensures NonEmpty(["https:", "", host]) == ["https:", host]
  {
    var parts := ["https:", "", host];
    assert Join(parts[2..], '/') == host;
    assert Join(parts[1..], '/') == "/" + host;
    assert ["https:", host][1..] == parts[2..];
    assert parts == ["https:"] + [""] + [host];
    NonEmptyConcat(["https:"] + [""], [host]);
    NonEmptyConcat(["https:"], [""]);
    NonEmptyKeepsNonEmpty(["https:"]);
    NonEmptyKeepsNonEmpty([host]);
  }

  /** `https://host`, with no `/` or `\` inside host, comes out of lines 50-55 unchanged. */
  lemma HttpsSiteUnchanged(host: string)
    requires host != [] && '/' !in host && '\\' !in host
    ensures CleanSeparators("https://" + host) == "https://" + host
  {
    HttpsSiteNoBackslash(host);
    HttpsSiteCollapse(host);
    HttpsSiteRepair(host);
  }

  /** No `\` to replace in `https://host`. */
  lemma HttpsSiteNoBackslash(host: string)
    requires host != [] && '\\' !in host
    ensures ReplaceBackslashes("https://" + host) == "https://" + host
  {
    HttpsSitePieces(host);
    JoinAvoids(["https:", "", host], '/', '\\');
    ReplaceBackslashesIdentity("https://" + host);
  }

  /** The collapse turns the scheme's `//` of `https://host` into a single `/`. */
  lemma HttpsSiteCollapse(host: string)
    requires host != [] && '/' !in host
    ensures Collapse("https://" + host) == "https:/" + host
  {
    HttpsSitePieces(host);
    CollapseJoin(["https:", "", host]);
  }

  /** The repair gives `https:/host` its second slash back. */
  lemma HttpsSiteRepair(host: string)
    ensures RepairScheme("https:/" + host) == "https://" + host
  {
    var t := "https:/" + host;
    assert "https:/" <= t && !("http:/" <= t) by { assert t[4] == 's'; }
    assert "https:" + "//" + t[7..] == "https://" + host;
  }

  /** Lines 50-55 take `https://host/index.html/` to `https://host/index.html` and `https://host/` to `https://host`. */
  lemma HttpsIndexPathCleaned(host: string)
    requires host != [] && '/' !in host && '\\' !in host
    ensures CleanSeparators("https://" + host + "/" + IndexSuffix + "/") == "https://" + host + "/" + IndexSuffix
    ensures CleanSeparators("https://" + host + "/") == "https://" + host
  {
    HttpsKeySlashCleaned(host, IndexSuffix);
    HttpsSiteSlashCleaned(host);
  }

  /** Lines 50-55 drop the trailing `/` of `https://host/segment/`. */
  lemma HttpsKeySlashCleaned(host: string, segment: string)
    requires host != [] && segment != []
    requires '/' !in host && '\\' !in host && '/' !in segment && '\\' !in segment
    ensures CleanSeparators("https://" + host + "/" + segment + "/") == "https://" + host + "/" + segment
  {
    CleanSeparatorsTrailingSlash("https://" + host + "/" + segment);
    HttpsKeyUnchanged(host, segment);
  }

  /** Lines 50-55 drop the trailing `/` of `https://host/`. */
  lemma HttpsSiteSlashCleaned(host: string)
    requires host != [] && '/' !in host && '\\' !in host
    ensures CleanSeparators("https://" + host + "/") == "https://" + host
  {
    CleanSeparatorsTrailingSlash("https://" + host);
    HttpsSiteUnchanged(host);
  }

  /**
   * The same behaviour on a URL a request can carry: with a URI normaliser that
   * leaves these strings alone, `https://host/index.html/` keeps its `index.html`
   * while `https://host/index.html` becomes `https://host`, and the first key is
   * not a fixed point of `normalize_url`.
   */
  lemma HttpsIndexHtmlBeforeSlash(host: string, normalizeUri: string -> string)
    requires host != [] && '/' !in host && '\\' !in host
    requires normalizeUri("https://" + host + "/" + IndexSuffix + "/") == "https://" + host + "/" + IndexSuffix + "/"
    requires normalizeUri("https://" + host + "/" + IndexSuffix) == "https://" + host + "/" + IndexSuffix
    requires normalizeUri("https://" + host + "/") == "https://" + host + "/"
    ensures NormalizeUrl("https://" + host + "/" + IndexSuffix + "/", normalizeUri) == "https://" + host + "/" + IndexSuffix
    ensures NormalizeUrl("https://" + host + "/" + IndexSuffix, normalizeUri) == "https://" + host
    ensures NormalizeUrl(NormalizeUrl("https://" + host + "/" + IndexSuffix + "/", normalizeUri), normalizeUri) !=
            NormalizeUrl("https://" + host + "/" + IndexSuffix + "/", normalizeUri)
  {
    var site := "https://" + host;
    var page := site + "/" + IndexSuffix;
    IndexPathSuffix(site);
    HttpsIndexPathCleaned(host);
    assert NormalizeUrl(page + "/", normalizeUri) == CleanSeparators(page + "/");
    assert NormalizeUrl(page, normalizeUri) == CleanSeparators(site + "/");
    assert |page| > |site|;
  }

  // ---------------------------------------------------------------------
  // The site key of line 67

  predicate IsDelimiter(c: char) {
    c == '/' || c == '?' || c == '#'
  }

  /** The text up to the first `/`, `?` or `#` (the authority of section 3.2 of RFC 3986). */
  function Authority(rest: string): (a: string)
    ensures a <= rest
    ensures forall c <- a :: !IsDelimiter(c)
    ensures a == rest || IsDelimiter(rest[|a|])
  {
    if rest == [] || IsDelimiter(rest[0]) then []
    else [rest[0]] + Authority(rest[1..])
  }

  /**
   * `urlparse(page_url).netloc` for a page key: the authority after `http://`
   * or `https://`, and empty otherwise (a page key has no other `//`).
   */
  function Netloc(page: string): (site: string)
    ensures "http://" <= page ==> site <= page[7..]
    ensures "https://" <= page ==> site <= page[8..]
    ensures !("http://" <= page) && !("https://" <= page) ==> site == []
    ensures forall c <- site :: !IsDelimiter(c)
    ensures "http://" <= page ==> site == page[7..] || IsDelimiter(page[7 + |site|])
    ensures "https://" <= page ==> site == page[8..] || IsDelimiter(page[8 + |site|])
  {
    assert "http://" <= page ==> !("https://" <= page) by {
      if "http://" <= page { assert page[4] == ':'; }
    }
    if "http://" <= page then Authority(page[7..])
    else if "https://" <= page then Authority(page[8..])
    else []
  }

  /** The authority is exactly the delimiter-free text before the first delimiter. */
  lemma {:induction false} AuthorityOf(host: string, tail: string)
    requires forall c <- host :: !IsDelimiter(c)
    requires tail == [] || IsDelimiter(tail[0])
    ensures Authority(host + tail) == host
  {
    if host != [] {
      var s := host + tail;
      assert s[0] == host[0] && host[0] in host;
      assert s[1..] == host[1..] + tail;
      assert Authority(s) == [host[0]] + Authority(host[1..] + tail);
      assert forall c <- host[1..] :: c in host;
      AuthorityOf(host[1..], tail);
      assert [host[0]] + host[1..] == host;
    } else {
      assert host + tail == tail;
    }
  }

  /** The site of `https://host/path` (or `?query`, `#fragment`) is `host`. */
  lemma SiteOfHttpsKey(host: string, tail: string)
    requires forall c <- host :: !IsDelimiter(c)
    requires tail == [] || IsDelimiter(tail[0])
    ensures Netloc("https://" + host + tail) == host
  {
    var page := "https://" + host + tail;
    assert page[8..] == host + tail;
    assert !("http://" <= page) by { assert page[4] == 's'; }
    AuthorityOf(host, tail);
  }

  /** The site of `https://host/segment` is `host`. */
  lemma HttpsKeySite(host: string, segment: string)
    requires forall c <- host :: !IsDelimiter(c)
    ensures Netloc("https://" + host + "/" + segment) == host
  {
    assert "https://" + host + "/" + segment == "https://" + host + ("/" + segment);
    SiteOfHttpsKey(host, "/" + segment);
  }

  /** The site of `http://host/path` (or `?query`, `#fragment`) is `host`. */
  lemma SiteOfHttpKey(host: string, tail: string)
    requires forall c <- host :: !IsDelimiter(c)
    requires tail == [] || IsDelimiter(tail[0])
    ensures Netloc("http://" + host + tail) == host
  {
    var page := "http://" + host + tail;
    assert page[7..] == host + tail;
    AuthorityOf(host, tail);
  }
}
