# Page-view counter: page keys, visitor addresses and counts

A Dafny model of the core of a small page-view counting service, a single
FastAPI file (`main.py`). Each request to `POST /count` does four things:

- It turns the submitted URL into a **page key** (`normalize_url`).
- It takes the page key's netloc as the **site key**.
- It works out the **visitor's address**, trusting the `CF-Connecting-IP`
  header only when the connection comes from a configured proxy range.
- It appends one `(url, site, ip_addr)` row to the `access_record` table and
  returns four numbers: page pageviews (PV), page unique visitors (UV), site PV
  and site UV.

Modules:

- `Common` (common.dfy): `Option`, and a `Result` whose `Error` names the two
  `ValueError`s of the `ipaddress` module that the service can hit.
- `Text` (text.dfy): Python's `str.split`, `str.join` and the `if x` filter for
  a one-character separator, with their round trips.
- `UrlKey` (url_key.dfy): `normalize_url` and the netloc rule of line 67. The
  URI normaliser `rfc3986.normalize_uri` implements section 6.2.2 of RFC 3986.
  It is a parameter `normalizeUri: string -> string`, and nothing is assumed
  about it.
- `Visitor` (visitor.dfy): IP addresses as (version, integer) and networks as
  (version, network address, prefix length). It also holds the start-up loop
  that builds the range list, and the class `TrustedProxies`, whose immutable
  `ranges` is given at construction. The class has the `is_cloudflare_ip` scan and
  `get_ip_from_request`.
- `Counting` (counting.dfy): the table as the class `AccessLog`, with a
  `seq<Record>` field that only grows. It also has PV/UV as functions of the
  log, and `PageCount`, which runs the whole request.

The model follows this version of the code, including where later versions of
the service behave differently:

- The page key keeps the scheme (`https://…`) and any query string. Later
  versions drop both; this one does not.
- As a result, a bare authority's page key is `https://host`, not `host`, and
  it differs from its site key.
- Only the `CF-Connecting-IP` header matters, and it counts only when it is
  present and non-empty (Python's `or`).
- There is no `page_mv` count.
- `removesuffix("index.html")` runs before the slashes are collapsed, so a
  path ending in `index.html/` keeps its `index.html`, while the same path
  without the slash loses it. For such paths a trailing `/` changes the page
  key, and normalising a page key a second time can change it again.
  `UrlKey.HttpsIndexHtmlBeforeSlash` exhibits both on
  `https://host/index.html/`, and `UrlKey.IndexHtmlBeforeSlash` on a path
  without a scheme. The trailing-slash and
  backslash lemmas below are therefore stated for lines 50-55 only.

## Model

| member | source | states |
|---|---|---|
| `Text.Split` | main.py:51 | `s.split(sep)` is never an empty list; `JoinSplit`, `SplitJoin` and `SplitConcat` tie it to `Join` |
| `Text.Join` | main.py:51 | `sep.join(parts)` starts with the first piece; `JoinSplit` and `SplitJoin` make it the inverse of `Split` |
| `Text.NonEmpty` | main.py:51 | the filter keeps every non-empty piece and only pieces of the input, all non-empty |
| `Text.JoinSplit` | main.py:51 | joining the pieces of `s.split(sep)` with `sep` gives `s` back |
| `Text.SplitJoin` | main.py:51 | splitting a join of separator-free pieces gives the pieces back |
| `Text.SplitConcat` | main.py:51 | `split` of `x + sep + y` is the pieces of `x` followed by the pieces of `y` |
| `UrlKey.RemoveIndexSuffix` | main.py:46 | exactly the ten characters `index.html` are removed when they end the string; otherwise it is unchanged |
| `UrlKey.ReplaceBackslashes` | main.py:50 | same length, every `\` becomes `/`, every other character stays, and no `\` remains |
| `UrlKey.RepairScheme` | main.py:52-55 | the two prefix repairs are exclusive: `http:/x` becomes `http://x`, `https:/x` becomes `https://x`, and anything else is unchanged |
| `UrlKey.Collapse` | main.py:51 | the split/filter/join leaves no `//` and no `/` at either end; `CollapseIdempotent`, `CollapseTrailingSlash`, `CollapseDoubleSlash` and `CollapseJoin` state what it keeps |
| `UrlKey.CollapseAvoids` | main.py:51 | the collapse adds no character other than `/` |
| `UrlKey.CollapseIdempotent` | main.py:51 | collapsing twice is the same as collapsing once |
| `UrlKey.CollapseTrailingSlash` | main.py:51 | a trailing `/` does not change the collapse |
| `UrlKey.CollapseDoubleSlash` | main.py:51 | `//` and `/` collapse the same way |
| `UrlKey.RepairThenCollapse` | main.py:51-55 | the `/` that the scheme repair puts back is the one a second collapse removes |
| `UrlKey.RepairShape` | main.py:52-55 | repairing a collapsed string without `\` gives a string of page-key shape |
| `UrlKey.CleanSeparators` | main.py:50-55 | the result has no `\` and no `/` at either end, and its only `//` comes right after a leading `http:` or `https:`; `CleanSeparatorsIdempotent` and the lemmas below relate it to its input |
| `UrlKey.CleanSeparatorsIdempotent` | main.py:50-55 | applying lines 50-55 to their own output returns it unchanged |
| `UrlKey.CleanSeparatorsTrailingSlash` | main.py:50-55 | lines 50-55 map `s` and `s + "/"` to the same string |
| `UrlKey.CleanSeparatorsBackslash` | main.py:50-55 | lines 50-55 map `s`, and `s` with every `\` replaced by `/`, to the same string |
| `UrlKey.BackslashAsSlash` | main.py:50-55 | lines 50-55 map a string with one `\` anywhere, and the same string with a `/` in its place, to the same string |
| `UrlKey.TwoBackslashes` | main.py:50-55 | two `\` between three pieces act as two `/` in lines 50-55 |
| `UrlKey.BackslashExample` | main.py:50-55 | lines 50-55 map `https://a.com\b\c` and `https://a.com/b/c` to the same string |
| `UrlKey.CollapseJoin` | main.py:51 | collapsing pieces joined by `/` (none holding a `/`) gives the join of the non-empty pieces |
| `UrlKey.PlainPathUnchanged` | main.py:50-55 | non-empty pieces without `/` or `\`, joined by `/` and not starting with `h`, are left unchanged by lines 50-55 |
| `UrlKey.HttpsKeyUnchanged` | main.py:50-55 | `https://host/segment`, with no `/` or `\` in host or segment, is left unchanged by lines 50-55 |
| `UrlKey.IndexSuffixStrippedFirst` | main.py:45-47 | `normalize_url(p + "index.html")` normalises `p`: the suffix is dropped before the URI normaliser runs |
| `UrlKey.NormalizeUrl` | main.py:45-56 | for any URI normaliser, the page key has the page-key shape of `CleanSeparators`; `IndexSuffixStrippedFirst`, `NormalizeUrlStable` and `HttpsIndexHtmlBeforeSlash` state what it does to its input |
| `UrlKey.NormalizeUrlStable` | main.py:45-56 | normalising a page key again returns it, when it does not end in `index.html` and the URI normaliser leaves it alone; a key ending in `index.html` is a case where `normalize_url` itself is not idempotent (see `IndexHtmlBeforeSlash`) |
| `UrlKey.IndexHtmlBeforeSlash` | main.py:45-56 | for a plain segment `p` and a URI normaliser that leaves the strings alone, `p/index.html/` normalises to `p/index.html` but `p/index.html` normalises to `p`: the trailing `/` changes the key, and normalising the first key again changes it |
| `UrlKey.HttpsSiteUnchanged` | main.py:50-55 | `https://host`, with no `/` or `\` inside host, is a fixed point of lines 50-55 |
| `UrlKey.HttpsIndexPathCleaned` | main.py:50-55 | lines 50-55 map `https://host/index.html/` to `https://host/index.html` and `https://host/` to `https://host` |
| `UrlKey.HttpsIndexHtmlBeforeSlash` | main.py:45-56 | for a URI normaliser that leaves the strings alone, `https://host/index.html/` normalises to `https://host/index.html` but `https://host/index.html` normalises to `https://host`: the trailing `/` changes the key, and normalising the first key again changes it |
| `UrlKey.Authority` | main.py:67 | the result is the longest prefix with no `/`, `?` or `#` (a prefix, free of delimiters, and followed by the end or a delimiter) |
| `UrlKey.Netloc` | main.py:67 | the site key is the text directly after `http://` or `https://` up to the first `/`, `?` or `#` (or the end), and empty when the key has neither prefix |
| `UrlKey.AuthorityOf` | main.py:67 | the authority of `host + tail` is exactly `host` when `tail` is empty or starts with a delimiter |
| `UrlKey.SiteOfHttpsKey` | main.py:67 | the site of `https://host/…` (or `?…`, `#…`) is `host` |
| `UrlKey.SiteOfHttpKey` | main.py:67 | the site of `http://host/…` (or `?…`, `#…`) is `host` |
| `UrlKey.HttpsKeySite` | main.py:67 | the site of `https://host/segment` is `host` when `host` has no `/`, `?` or `#` |
| `Visitor.Contains` | main.py:33 | `addr in net` places the address, of the network's version, in the interval `[network_address, network_address + 2^hostBits)`, and for a network with zero host bits every such address is in it |
| `Visitor.InAnyRange` | main.py:32-35 | when some trusted range contains the address, it lies in the interval of a range of its own version; `IsCloudflareIp` is proved equal to it |
| `Visitor.ContainsIffPrefixAgrees` | main.py:33 | for a strict network, `addr in net` holds iff the versions match and the top `prefixLen` bits agree |
| `Visitor.WholeFamily` | main.py:33 | a `/0` network contains every address of its version and none of the other |
| `Visitor.SingleHost` | main.py:33 | a full-length network contains its own address and nothing else |
| `Visitor.OtherFamilyNeverTrusted` | main.py:32-35 | an address whose version no configured range has is never trusted |
| `Visitor.LoadTrustedRanges` | main.py:13-16 | the ranges are the lines of the text, each parsed, in order; the first line that fails to parse is the error; a text ending in a newline has an empty last line that must parse too |
| `Visitor.TrustedProxies.constructor` | main.py:13 | the configured ranges are the ones given and never change |
| `Visitor.TrustedProxies.IsCloudflareIp` | main.py:30-35 | an unparseable address is an error; otherwise the result is true iff some configured range contains the address |
| `Visitor.EffectiveIp` | main.py:40-42 | from an untrusted origin the result is the connection address; behind a trusted proxy it is a non-empty `CF-Connecting-IP` value when there is one, and otherwise the connection address |
| `Visitor.TrustedProxyUsesHeader` | main.py:40-41 | behind a trusted proxy a non-empty header value is the visitor |
| `Visitor.TrustedProxyWithoutHeader` | main.py:41 | a missing or empty header leaves the connection address |
| `Visitor.TrustedProxies.GetIpFromRequest` | main.py:38-42 | an unparseable connection address is an error; otherwise the result is the three-way choice of `EffectiveIp` over the configured ranges |
| `Counting.Where` | main.py:79-89 | `where url = %s` (or `site = %s`) selects no more rows than the table has; `WhereSelects` and `WhereAppend` state exactly which |
| `Counting.Pv` | main.py:79-89 | `count(ip_addr)` is at most the number of rows in the table |
| `Counting.Uv` | main.py:79-89 | `count(DISTINCT ip_addr)` is at most `count(ip_addr)` for the same key, and at least 1 once that key has a row |
| `Counting.Counts` | main.py:79-91 | the four integers of the answer, with each unique-visitor count at most its pageview count |
| `Counting.WhereSelects` | main.py:79-89 | the rows selected by `where url = %s` (or `site = %s`) are exactly the rows of the table with that key |
| `Counting.DistinctAtMostRows` | main.py:80 | `count(DISTINCT ip_addr) <= count(ip_addr)`, and at least 1 when some row matches |
| `Counting.WhereAppend` | main.py:73-76 | an appended row joins exactly the selections whose key it has |
| `Counting.RecordCounted` | main.py:73-91 | recording a visit adds one view to its page and site, and one visitor exactly when the address is new there |
| `Counting.RecordLeavesOthers` | main.py:73-91 | recording a visit leaves the counts of every other page and site unchanged |
| `Counting.CountsAfterRecord` | main.py:73-84 | right after the insert, `1 <= page_uv <= page_pv` |
| `Counting.AllRowsMatch` | main.py:79-82 | a log whose rows all have the key is its own selection |
| `Counting.SamePageVisits` | main.py:79-84 | N visits to one page from K distinct addresses give `page_pv = N` and `page_uv = K` |
| `Counting.PageRowsWithinSite` | main.py:66-91 | when every row's site is its url's netloc, every row of a page is a row of its site, the page has no more rows than its site, and its addresses are among its site's |
| `Counting.PageWithinSite` | main.py:66-91 | under that invariant, `page_pv <= site_pv` and `page_uv <= site_uv` |
| `Counting.WorkedExample` | main.py:79-91 | visits (post1, ip1), (post1, ip2), (post2, ip1) on one site give post1 pv=2, uv=2 and the site pv=3, uv=2 |
| `Counting.WorkedExampleSites` | main.py:67 | `https://blog.test/post1` and `https://blog.test/post2` both have the site `blog.test` |
| `Counting.ExamplePageKey` | main.py:45-56 | with a URI normaliser that leaves it alone, `https://host/segment` is its own page key, and its site is `host` |
| `Counting.ExampleRequestCounts` | main.py:79-91 | after the first, second and third visit of the worked example the answers are (1, 1, 1, 1), (2, 2, 2, 2) and, for the second page, (1, 1, 3, 2) |
| `Counting.WorkedRequests` | main.py:64-92 | three requests through `page_count` on a new table, from an untrusted connection and with a URI normaliser that changes nothing, answer (1, 1, 1, 1), (2, 2, 2, 2) and (1, 1, 3, 2) |
| `Counting.AccessLog.constructor` | main.py:104-111 | a new table is empty and keeps the site invariant |
| `Counting.AccessLog.Insert` | main.py:73-77 | one row is appended at the end, earlier rows are unchanged, and the site invariant is kept when the site is the url's netloc |
| `Counting.PageCount` | main.py:64-92 | an unparseable connection address fails before anything is written; otherwise exactly the row (page key, its netloc, effective address) is appended and the four counts are those of the new log, with `1 <= page_uv <= page_pv <= site_pv` and `page_uv <= site_uv` |

## Left out

- The internals of `rfc3986.normalize_uri` (main.py:47): case folding, percent-encoding and dot-segment removal belong to a foreign library. The normaliser is an arbitrary `string -> string` parameter.
- The pydantic `HttpUrl` validation and stringification (main.py:20, 66): `PageCount` receives the string that `str(count_request.page_url)` produced.
- `Netloc` models `urlparse(…).netloc` only on page keys. There the only `//` is the scheme's, so the netloc is the authority after `http://` or `https://`, or empty. The general `urlparse` rules are left out, including its whitespace stripping and its "Invalid IPv6 URL" error for unbalanced brackets.
- Text parsing in `ipaddress.ip_address` and `ipaddress.ip_network` is left out. Both are parameters that return `None` where Python raises `ValueError`, so a strict network with host bits set is a parse failure.
- Reading `cf_ips.txt` (main.py:14) is I/O. `LoadTrustedRanges` takes the file's text.
- Header lookup is left out. Starlette's `headers.get` matches case-insensitively; the model takes the looked-up `CF-Connecting-IP` value as an `Option<string>`.
- `request.client` being `None` is left out, and so is the `AttributeError` that would follow.
- The MySQL connection, the DDL, commit, shutdown, async/await, FastAPI routing, the `/` endpoint and the response models (main.py:59-61, 70-72, 77, 95-118) are plumbing. The table is an in-memory `seq<Record>`. The auto-increment `id` (main.py:107) is not modelled: MySQL starts it at 1 and may skip values, and a row's position in the sequence keeps only the ids' order.
- MySQL collation and column widths are left out: `url = %s` uses exact string equality and strings are unbounded. The `varchar(15)` `ip_addr` of main.py:110 would truncate or reject IPv6 text; the model does not capture this.
- Visitor.Contains: the `addr & netmask` of `__contains__` is computed as `bits - bits % 2^hostBits`. This agrees with the source only for integers below 2^32 (IPv4) or 2^128 (IPv6). `ipaddress` only produces such integers, but the model does not require the `parseAddress` parameter to do the same.
- UrlKey.NormalizeUrlStable: idempotence is stated only for page keys that do not end in `index.html`, because for keys that do, `normalize_url` itself is not idempotent (`UrlKey.IndexHtmlBeforeSlash`).
- Concurrency is left out. The insert is committed (main.py:77) before the two count queries, so concurrent requests could interleave there. The model runs one request at a time.
