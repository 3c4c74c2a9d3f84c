/**
 * `page_count` of main.py (lines 64-92) over an in-memory `access_record`
 * table: one row appended per request, then the page and site pageview (PV)
 * and unique-visitor (UV) counts read back.
 */
module Counting {
  import opened Common
  import opened UrlKey
  import opened Visitor

  /** One row of `access_record`. The auto-increment id is not modelled; a row's position in the log keeps the ids' order. */
  datatype Record = Record(url: string, site: string, ipAddr: string)

  /** The two columns the counts filter on. */
  datatype Column = Url | Site

  function Key(r: Record, col: Column): string {
    match col
    case Url => r.url
    case Site => r.site
  }

  /** `from access_record where <col> = key`: the matching rows, in log order. */
  function Where(log: seq<Record>, col: Column, key: string): (rows: seq<Record>)
    ensures |rows| <= |log|
  {
    if log == [] then []
    else if Key(log[0], col) == key then [log[0]] + Where(log[1..], col, key)
    else Where(log[1..], col, key)
  }

  /** The selection holds exactly the rows of the log that match the key. */
  lemma {:induction false} WhereSelects(log: seq<Record>, col: Column, key: string)
    ensures forall r <- Where(log, col, key) :: r in log && Key(r, col) == key
    ensures forall r <- log :: Key(r, col) == key ==> r in Where(log, col, key)
  {
    if log != [] {
      WhereSelects(log[1..], col, key);
      assert log == [log[0]] + log[1..];
    }
  }

  /** The distinct `ip_addr` values among the rows. */
  function Ips(rows: seq<Record>): set<string> {
    set r <- rows :: r.ipAddr
  }

  /** `count(ip_addr)`: the number of matching rows (no row has a NULL ip_addr), at most the table's size. */
  function Pv(log: seq<Record>, col: Column, key: string): (n: nat)
    ensures n <= |log|
  {
    |Where(log, col, key)|
  }

  /**
   * `count(DISTINCT ip_addr)`: the number of distinct visitors among the
   * matching rows; never more than the views, and at least one once there is a view.
   */
  function Uv(log: seq<Record>, col: Column, key: string): (n: nat)
    ensures n <= Pv(log, col, key)
    ensures Pv(log, col, key) >= 1 ==> n >= 1
  {
    DistinctAtMostRows(Where(log, col, key));
    |Ips(Where(log, col, key))|
  }

  /** The four integers of `CountResponse`. */
  datatype CountSnapshot = CountSnapshot(pagePv: nat, pageUv: nat, sitePv: nat, siteUv: nat)

  /** The answer of lines 79-91: the page's and the site's counts, visitors never above views. */
  function Counts(log: seq<Record>, page: string, site: string): (r: CountSnapshot)
    ensures r.pageUv <= r.pagePv && r.siteUv <= r.sitePv
  {
    CountSnapshot(Pv(log, Url, page), Uv(log, Url, page), Pv(log, Site, site), Uv(log, Site, site))
  }

  /** Every row's site is the netloc of its url, as line 67 computes it. */
  predicate SitesFollowUrls(log: seq<Record>) {
    forall i | 0 <= i < |log| :: log[i].site == Netloc(log[i].url)
  }

  // ---------------------------------------------------------------------
  // Count relations

  /** There are never more distinct visitors than rows, and some rows mean some visitor. */
  lemma {:induction false} DistinctAtMostRows(rows: seq<Record>)
    ensures |Ips(rows)| <= |rows|
    ensures rows != [] ==> 1 <= |Ips(rows)|
  {
    if rows != [] {
      DistinctAtMostRows(rows[1..]);
      assert rows == [rows[0]] + rows[1..];
      IpsPrepend(rows[0], rows[1..]);
    }
  }

  lemma IpsAppend(rows: seq<Record>, rec: Record)
    ensures Ips(rows + [rec]) == Ips(rows) + {rec.ipAddr}
  {
    var both := rows + [rec];
    forall x | x in Ips(both) ensures x in Ips(rows) + {rec.ipAddr} {
      var r :| r in both && r.ipAddr == x;
      assert r in rows || r == rec;
    }
    forall x | x in Ips(rows) + {rec.ipAddr} ensures x in Ips(both) {
      if x == rec.ipAddr {
        assert rec in both;
      } else {
        var r :| r in rows && r.ipAddr == x;
        assert r in both;
      }
    }
  }

  /** Appending a row adds it to exactly the selections it matches. */
  lemma {:induction false} WhereAppend(log: seq<Record>, rec: Record, col: Column, key: string)
    ensures Where(log + [rec], col, key) ==
            Where(log, col, key) + (if Key(rec, col) == key then [rec] else [])
  {
    if log == [] {
      assert log + [rec] == [rec];
    } else {
      assert (log + [rec])[0] == log[0];
      assert (log + [rec])[1..] == log[1..] + [rec];
      WhereAppend(log[1..], rec, col, key);
    }
  }

  /** A recorded visit adds one view to its own page and site, and one visitor if the address is new there. */
  lemma RecordCounted(log: seq<Record>, rec: Record, col: Column)
    ensures Pv(log + [rec], col, Key(rec, col)) == Pv(log, col, Key(rec, col)) + 1
    ensures Uv(log + [rec], col, Key(rec, col)) ==
            Uv(log, col, Key(rec, col)) + (if rec.ipAddr in Ips(Where(log, col, Key(rec, col))) then 0 else 1)
  {
    var rows := Where(log, col, Key(rec, col));
    WhereAppend(log, rec, col, Key(rec, col));
    IpsAppend(rows, rec);
  }

  /** A recorded visit leaves the counts of every other page and site as they were. */
  lemma RecordLeavesOthers(log: seq<Record>, rec: Record, col: Column, key: string)
    requires key != Key(rec, col)
    ensures Pv(log + [rec], col, key) == Pv(log, col, key)
    ensures Uv(log + [rec], col, key) == Uv(log, col, key)
  {
    WhereAppend(log, rec, col, key);
    assert Where(log, col, key) + [] == Where(log, col, key);
  }

  /** Right after a visit is recorded its page has at least one visitor and no more visitors than views. */
  lemma CountsAfterRecord(log: seq<Record>, rec: Record, col: Column)
    ensures 1 <= Uv(log + [rec], col, Key(rec, col)) <= Pv(log + [rec], col, Key(rec, col))
  {
    var rows := Where(log + [rec], col, Key(rec, col));
    WhereAppend(log, rec, col, Key(rec, col));
    DistinctAtMostRows(rows);
  }

  /** A log in which every row has the key is its own selection. */
  lemma {:induction false} AllRowsMatch(log: seq<Record>, col: Column, key: string)
    requires forall i | 0 <= i < |log| :: Key(log[i], col) == key
    ensures Where(log, col, key) == log
  {
    if log != [] {
      assert Key(log[0], col) == key;
      AllRowsMatch(log[1..], col, key);
      assert log == [log[0]] + log[1..];
    }
  }

  /** N visits to one page give N views, and as many visitors as distinct addresses. */
  lemma SamePageVisits(log: seq<Record>, url: string)
    requires forall i | 0 <= i < |log| :: log[i].url == url
    ensures Pv(log, Url, url) == |log| && Uv(log, Url, url) == |Ips(log)|
  {
    AllRowsMatch(log, Url, url);
  }

  lemma SubsetCardinality(a: set<string>, b: set<string>)
    requires a <= b
    ensures |a| <= |b|
  {
    assert b == a + (b - a);
  }

  lemma IpsPrepend(rec: Record, rows: seq<Record>)
    ensures Ips([rec] + rows) == {rec.ipAddr} + Ips(rows)
  {
    var both := [rec] + rows;
    assert forall r <- both :: r == rec || r in rows;
    assert forall r <- rows :: r in both;
    assert rec in both;
  }

  /** Under the site invariant, the rows of a page are among the rows of its site. */
  lemma {:induction false} PageRowsWithinSite(log: seq<Record>, url: string)
    requires SitesFollowUrls(log)
    ensures |Where(log, Url, url)| <= |Where(log, Site, Netloc(url))|
    ensures Ips(Where(log, Url, url)) <= Ips(Where(log, Site, Netloc(url)))
    ensures forall r <- Where(log, Url, url) :: r in Where(log, Site, Netloc(url))
  {
    if log != [] {
      var head, tail := log[0], log[1..];
      var site := Netloc(url);
      assert head.site == Netloc(head.url);
      assert SitesFollowUrls(tail);
      PageRowsWithinSite(tail, url);
      var pageTail, siteTail := Where(tail, Url, url), Where(tail, Site, site);
      if head.url == url {
        assert Where(log, Url, url) == [head] + pageTail;
        assert Where(log, Site, site) == [head] + siteTail;
        IpsPrepend(head, pageTail);
        IpsPrepend(head, siteTail);
      } else if head.site == site {
        assert Where(log, Url, url) == pageTail;
        assert Where(log, Site, site) == [head] + siteTail;
        IpsPrepend(head, siteTail);
      } else {
        assert Where(log, Url, url) == pageTail;
        assert Where(log, Site, site) == siteTail;
      }
    }
  }

  /** A page never has more views or visitors than its site. */
  lemma PageWithinSite(log: seq<Record>, url: string)
    requires SitesFollowUrls(log)
    ensures Pv(log, Url, url) <= Pv(log, Site, Netloc(url))
    ensures Uv(log, Url, url) <= Uv(log, Site, Netloc(url))
  {
    PageRowsWithinSite(log, url);
    SubsetCardinality(Ips(Where(log, Url, url)), Ips(Where(log, Site, Netloc(url))));
  }

  /** The rows of the worked example below. */
  function ExampleLog(site: string, post1: string, post2: string, ip1: string, ip2: string): seq<Record> {
    [Record(post1, site, ip1), Record(post1, site, ip2), Record(post2, site, ip1)]
  }

  lemma ExamplePageRows(site: string, post1: string, post2: string, ip1: string, ip2: string)
    requires post1 != post2
    ensures Where(ExampleLog(site, post1, post2, ip1, ip2), Url, post1) ==
            [Record(post1, site, ip1), Record(post1, site, ip2)]
  {
    var a, b, c := Record(post1, site, ip1), Record(post1, site, ip2), Record(post2, site, ip1);
    assert ExampleLog(site, post1, post2, ip1, ip2) == [a, b] + [c];
    assert [a, b] == [a] + [b] && [a] == [] + [a];
    WhereAppend([], a, Url, post1);
    WhereAppend([a], b, Url, post1);
    WhereAppend([a, b], c, Url, post1);
  }

  lemma ExampleIps(site: string, post1: string, post2: string, ip1: string, ip2: string)
    requires ip1 != ip2
    ensures Ips([Record(post1, site, ip1), Record(post1, site, ip2)]) == {ip1, ip2}
    ensures Ips(ExampleLog(site, post1, post2, ip1, ip2)) == {ip1, ip2}
    ensures |{ip1, ip2}| == 2
  {
    var a, b, c := Record(post1, site, ip1), Record(post1, site, ip2), Record(post2, site, ip1);
    assert [a, b] == [] + [a] + [b];
    assert ExampleLog(site, post1, post2, ip1, ip2) == [a, b] + [c];
    assert Ips([]) == {};
    IpsAppend([], a);
    IpsAppend([a], b);
    IpsAppend([a, b], c);
  }

  /**
   * Visits (post1, ip1), (post1, ip2), (post2, ip1) on one site give post1 2 views
   * by 2 visitors, and the site 3 views by 2 visitors.
   */
  lemma WorkedExample(site: string, post1: string, post2: string, ip1: string, ip2: string)
    requires post1 != post2 && ip1 != ip2
    ensures Counts(ExampleLog(site, post1, post2, ip1, ip2), post1, site) == CountSnapshot(2, 2, 3, 2)
  {
    var log := ExampleLog(site, post1, post2, ip1, ip2);
    ExamplePageRows(site, post1, post2, ip1, ip2);
    AllRowsMatch(log, Site, site);
    ExampleIps(site, post1, post2, ip1, ip2);
  }

  /** The example's rows keep the site invariant: the site of `https://blog.test/postN` is `blog.test`. */
  lemma WorkedExampleSites()
    ensures Netloc("https://blog.test/post1") == "blog.test"
    ensures Netloc("https://blog.test/post2") == "blog.test"
  {
    var host := "blog.test";
    assert forall c <- host :: !IsDelimiter(c);
    assert IsDelimiter("/post1"[0]) && IsDelimiter("/post2"[0]);
    assert "https://blog.test/post1" == "https://" + host + "/post1";
    assert "https://blog.test/post2" == "https://" + host + "/post2";
    SiteOfHttpsKey(host, "/post1");
    SiteOfHttpsKey(host, "/post2");
  }

  /** `https://host/segment` with a plain host and one plain path segment, not ending in `index.html`. */
  predicate PlainPage(host: string, segment: string) {
    && host != [] && (forall c <- host :: !IsDelimiter(c) && c != '\\')
    && segment != [] && '/' !in segment && '\\' !in segment
    && !EndsWith("https://" + host + "/" + segment, IndexSuffix)
  }

  /** `https://host/segment` is its own page key, under a URI normaliser that leaves it alone, and its site is `host`. */
  lemma ExamplePageKey(host: string, segment: string, url: string, normalizeUri: string -> string)
    requires PlainPage(host, segment)
    requires url == "https://" + host + "/" + segment && normalizeUri(url) == url
    ensures NormalizeUrl(url, normalizeUri) == url
    ensures Netloc(url) == host
  {
    assert '/' !in host && '\\' !in host by {
      assert forall i | 0 <= i < |host| :: !IsDelimiter(host[i]) && host[i] != '\\';
    }
    HttpsKeyUnchanged(host, segment);
    assert RemoveIndexSuffix(url) == url;
    HttpsKeySite(host, segment);
  }

  /** The counts that the three requests of `WorkedRequests` answer, one log prefix at a time. */
  lemma ExampleRequestCounts(site: string, post1: string, post2: string, ip1: string, ip2: string)
    requires post1 != post2 && ip1 != ip2
    ensures Counts([Record(post1, site, ip1)], post1, site) == CountSnapshot(1, 1, 1, 1)
    ensures Counts([Record(post1, site, ip1), Record(post1, site, ip2)], post1, site) == CountSnapshot(2, 2, 2, 2)
    ensures Counts(ExampleLog(site, post1, post2, ip1, ip2), post2, site) == CountSnapshot(1, 1, 3, 2)
  {
    var a, b, c := Record(post1, site, ip1), Record(post1, site, ip2), Record(post2, site, ip1);
    assert [a] == [] + [a] && [a, b] == [a] + [b];
    assert ExampleLog(site, post1, post2, ip1, ip2) == [a, b] + [c];
    WhereAppend([], a, Url, post1);
    WhereAppend([], a, Site, site);
    IpsAppend([], a);
    WhereAppend([a], b, Url, post1);
    WhereAppend([a], b, Site, site);
    ExampleIps(site, post1, post2, ip1, ip2);
    WhereAppend([], a, Url, post2);
    WhereAppend([a], b, Url, post2);
    WhereAppend([a, b], c, Url, post2);
    WhereAppend([a, b], c, Site, site);
    assert [c] == [] + [c];
    IpsAppend([], c);
  }

  // ---------------------------------------------------------------------
  // The table and the request

  /** The `access_record` table: rows are only ever appended. */
  class AccessLog {
    var records: seq<Record>

    ghost predicate Valid()
      reads this
    {
      SitesFollowUrls(records)
    }

    constructor ()
      ensures records == [] && Valid()
    {
      records := [];
    }

    /** The insert of lines 73-77: one new row at the end, earlier rows untouched. */
    method Insert(url: string, site: string, ipAddr: string)
      modifies this
      ensures records == old(records) + [Record(url, site, ipAddr)]
      ensures old(Valid()) && site == Netloc(url) ==> Valid()
    {
      records := records + [Record(url, site, ipAddr)];
    }
  }

  /**
   * `page_count`: the page key and its site, the visitor's address, one row
   * recorded, then the four counts over the log that includes it. An
   * unparseable connection address stops the request before anything is written.
   */
  method PageCount(log: AccessLog, proxies: TrustedProxies, pageUrl: string, normalizeUri: string -> string,
                   host: string, cfConnectingIp: Option<string>, parseAddress: string -> Option<Address>)
    returns (r: Result<CountSnapshot>)
    requires log.Valid()
    modifies log
    ensures log.Valid()
    ensures parseAddress(host).None? ==> r == Err(InvalidAddress(host)) && log.records == old(log.records)
    ensures parseAddress(host).Some? ==>
              var page := NormalizeUrl(pageUrl, normalizeUri);
              var ip := EffectiveIp(proxies.ranges, parseAddress(host).value, host, cfConnectingIp);
              && log.records == old(log.records) + [Record(page, Netloc(page), ip)]
              && r == Ok(Counts(log.records, page, Netloc(page)))
    ensures r.Ok? ==>
              && 1 <= r.value.pageUv <= r.value.pagePv
              && r.value.pagePv <= r.value.sitePv
              && r.value.pageUv <= r.value.siteUv
  {
    var pageKey := NormalizeUrl(pageUrl, normalizeUri);
    var site := Netloc(pageKey);
    var ip := proxies.GetIpFromRequest(host, cfConnectingIp, parseAddress);
    if ip.Err? {
      return Err(ip.error);
    }
    ghost var before := log.records;
    log.Insert(pageKey, site, ip.value);
    CountsAfterRecord(before, Record(pageKey, site, ip.value), Url);
    PageWithinSite(log.records, pageKey);
    var pagePv, pageUv := Pv(log.records, Url, pageKey), Uv(log.records, Url, pageKey);
    var sitePv, siteUv := Pv(log.records, Site, site), Uv(log.records, Site, site);
    return Ok(CountSnapshot(pagePv, pageUv, sitePv, siteUv));
  }

  /** A URI normaliser that changes nothing. */
  function Verbatim(u: string): string { u }

  /** One request of the worked example: `https://host/segment` from `ip`, a connection outside every trusted range. */
  method ExampleRequest(log: AccessLog, proxies: TrustedProxies, host: string, segment: string, ip: string,
                        parseAddress: string -> Option<Address>)
    returns (r: Result<CountSnapshot>)
    requires log.Valid() && proxies.ranges == [] && PlainPage(host, segment) && parseAddress(ip).Some?
    modifies log
    ensures log.Valid()
    ensures log.records == old(log.records) + [Record("https://" + host + "/" + segment, host, ip)]
    ensures r == Ok(Counts(log.records, "https://" + host + "/" + segment, host))
  {
    var url := "https://" + host + "/" + segment;
    ExamplePageKey(host, segment, url, Verbatim);
    TrustedProxyWithoutHeader(proxies.ranges, parseAddress(ip).value, ip, None);
    r := PageCount(log, proxies, url, Verbatim, ip, None, parseAddress);
  }

  /** The three requests of the worked example, on a table that starts empty. */
  method ExampleRequests(log: AccessLog, proxies: TrustedProxies, host: string, seg1: string, seg2: string,
                         ip1: string, ip2: string, parseAddress: string -> Option<Address>)
    returns (r1: Result<CountSnapshot>, r2: Result<CountSnapshot>, r3: Result<CountSnapshot>)
    requires log.Valid() && log.records == [] && proxies.ranges == []
    requires PlainPage(host, seg1) && PlainPage(host, seg2) && parseAddress(ip1).Some? && parseAddress(ip2).Some?
    modifies log
    ensures var post1, post2 := "https://" + host + "/" + seg1, "https://" + host + "/" + seg2;
            && r1 == Ok(Counts([Record(post1, host, ip1)], post1, host))
            && r2 == Ok(Counts([Record(post1, host, ip1), Record(post1, host, ip2)], post1, host))
            && r3 == Ok(Counts(ExampleLog(host, post1, post2, ip1, ip2), post2, host))
  {
    var post1, post2 := "https://" + host + "/" + seg1, "https://" + host + "/" + seg2;
    r1 := ExampleRequest(log, proxies, host, seg1, ip1, parseAddress);
    assert log.records == [Record(post1, host, ip1)];
    r2 := ExampleRequest(log, proxies, host, seg1, ip2, parseAddress);
    assert log.records == [Record(post1, host, ip1), Record(post1, host, ip2)];
    r3 := ExampleRequest(log, proxies, host, seg2, ip1, parseAddress);
    assert log.records == ExampleLog(host, post1, post2, ip1, ip2);
  }

  /**
   * The worked example as three requests through `PageCount` on a new table,
   * from a connection outside every trusted range and with a URI normaliser
   * that changes nothing: `https://host/seg1` from ip1, the same page from ip2,
   * then `https://host/seg2` from ip1. Each answer counts the requested page
   * and its site.
   */
  method WorkedRequests(host: string, seg1: string, seg2: string, ip1: string, ip2: string,
                        parseAddress: string -> Option<Address>)
    returns (r1: Result<CountSnapshot>, r2: Result<CountSnapshot>, r3: Result<CountSnapshot>)
    requires PlainPage(host, seg1) && PlainPage(host, seg2)
    requires seg1 != seg2 && ip1 != ip2 && parseAddress(ip1).Some? && parseAddress(ip2).Some?
    ensures r1 == Ok(CountSnapshot(1, 1, 1, 1))
    ensures r2 == Ok(CountSnapshot(2, 2, 2, 2))
    ensures r3 == Ok(CountSnapshot(1, 1, 3, 2))
  {
    var log := new AccessLog();
    var proxies := new TrustedProxies([]);
    r1, r2, r3 := ExampleRequests(log, proxies, host, seg1, seg2, ip1, ip2, parseAddress);
    var post1, post2 := "https://" + host + "/" + seg1, "https://" + host + "/" + seg2;
    assert post1 != post2 by { assert post1[|post1| - |seg1|..] == seg1; }
    ExampleRequestCounts(host, post1, post2, ip1, ip2);
  }
}
