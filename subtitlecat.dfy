/** The subtitlecat.com client: resolving links against the site, picking one search
    result per table row, and reading the Chinese download buttons of a subtitle page.
    Pages arrive already parsed: a search page as its table rows, a subtitle page as its
    anchors. */
module Subtitlecat {
  import opened Strings
  import opened UrlQuote

  const Site: string := "https://www.subtitlecat.com"

  lemma SiteStartsWithHttps()
    ensures StartsWith(Site, "https://") && Site[0] == 'h'
  {
    assert Site[..8] == "https://";
  }

  // ---------------------------------------------------------------------------------------
  // Resolving links

  /** `format_subtitlecat_url`: a site-absolute path is put behind the domain, anything
      that is not already an http or https URL is put behind the domain and a slash. */
  function FormatUrl(url: string): (r: string)
    ensures StartsWith(r, "http://") || StartsWith(r, "https://")
    ensures EndsWith(r, url)
    ensures StartsWith(url, "http://") || StartsWith(url, "https://") ==> r == url
    ensures StartsWith(url, "/") ==> r == Site + url
    ensures !StartsWith(url, "/") && !StartsWith(url, "http://") && !StartsWith(url, "https://")
            ==> r == Site + "/" + url
  {
    if StartsWith(url, "/") then
      SiteStartsWithHttps();
      StartsWithAppend(Site, url, "https://");
      StartsWithFirst(url, "/");
      assert !StartsWith(url, "http://") by {
        if StartsWith(url, "http://") { StartsWithFirst(url, "http://"); }
      }
      assert !StartsWith(url, "https://") by {
        if StartsWith(url, "https://") { StartsWithFirst(url, "https://"); }
      }
      assert (Site + url)[|Site + url| - |url|..] == url;
      Site + url
    else if !StartsWith(url, "http://") && !StartsWith(url, "https://") then
      SiteStartsWithHttps();
      StartsWithAppend(Site, "/", "https://");
      StartsWithAppend(Site + "/", url, "https://");
      assert (Site + "/" + url)[|Site + "/" + url| - |url|..] == url;
      Site + "/" + url
    else
      assert url[|url| - |url|..] == url;
      url
  }

  /** A URL that is already absolute is left alone, so formatting twice changes nothing. */
  lemma FormatUrlIdempotent(url: string)
    ensures FormatUrl(FormatUrl(url)) == FormatUrl(url)
  {
    var r := FormatUrl(url);
    if StartsWith(r, "http://") {
      StartsWithFirst(r, "http://");
    } else {
      StartsWithFirst(r, "https://");
    }
    assert !StartsWith(r, "/") by {
      if StartsWith(r, "/") { StartsWithFirst(r, "/"); }
    }
  }

  /** Formatting only puts text in front: what comes back is the domain, the domain and a
      slash, or nothing, followed by the given URL. */
  lemma FormatUrlPrefixes(url: string)
    ensures FormatUrl(url) == Site + url
         || FormatUrl(url) == Site + "/" + url
         || FormatUrl(url) == url
    ensures StartsWith(url, "/") ==> FormatUrl(url) == Site + url
  {
  }

  /** The resolver written inline in `search_subtitlecat`: any href starting with `http`
      counts as absolute. */
  function InlineResolve(href: string): (r: string)
    ensures EndsWith(r, href)
    ensures StartsWith(href, "/") ==> r == Site + href
    ensures StartsWith(href, "http") ==> r == href
    ensures !StartsWith(href, "/") && !StartsWith(href, "http") ==> r == Site + "/" + href
  {
    if StartsWith(href, "/") then
      assert !StartsWith(href, "http") by {
        if StartsWith(href, "http") { StartsWithFirst(href, "http"); StartsWithFirst(href, "/"); }
      }
      assert (Site + href)[|Site + href| - |href|..] == href;
      Site + href
    else if StartsWith(href, "http") then
      assert href[|href| - |href|..] == href;
      href
    else
      assert (Site + "/" + href)[|Site + "/" + href| - |href|..] == href;
      Site + "/" + href
  }

  /** The two resolvers differ exactly on hrefs that start with `http` without being
      http or https URLs, such as `httpdocs/x`: the inline one keeps them as they are. */
  lemma ResolversDisagree(href: string)
    ensures InlineResolve(href) != FormatUrl(href)
        <==> StartsWith(href, "http") && !StartsWith(href, "http://") && !StartsWith(href, "https://")
  {
    if StartsWith(href, "http://") {
      assert href[..4] == href[..7][..4];
    } else if StartsWith(href, "https://") {
      assert href[..4] == href[..8][..4];
    }
    if StartsWith(href, "http") {
      assert href[0] == 'h';
      assert !StartsWith(href, "/") by { assert href[..1][0] == 'h'; }
      if !StartsWith(href, "http://") && !StartsWith(href, "https://") {
        assert |Site + "/" + href| > |href|;
      }
    }
  }

  lemma HttpdocsExample()
    ensures InlineResolve("httpdocs/x") == "httpdocs/x"
    ensures FormatUrl("httpdocs/x") == Site + "/" + "httpdocs/x"
  {
    var h := "httpdocs/x";
    assert !StartsWith(h, "/") by { assert h[..1][0] == 'h'; }
    assert StartsWith(h, "http") by { assert h[..4] == "http"; }
    assert !StartsWith(h, "http://") by { assert h[..7][4] == 'd'; }
    assert !StartsWith(h, "https://") by { assert h[..8][4] == 'd'; }
  }

  // ---------------------------------------------------------------------------------------
  // Search results

  /** An `<a>` element: its class list, and its `id`, `href` and text when present. */
  datatype Anchor = Anchor(classes: seq<string>, id: Option<string>, href: Option<string>,
                           text: string)

  /** A table row: the texts of its `<td>` cells and its anchors, in document order. */
  datatype Row = Row(cells: seq<string>, anchors: seq<Anchor>)

  datatype SearchResult = SearchResult(title: string, url: string, language: string)

  /** An anchor with an href is relevant when its stripped, lower-cased text contains the
      lower-cased keyword, or its href contains `/view.php?` or `/subs/`. */
  predicate Relevant(keywordLower: string, a: Anchor) {
    a.href.Some?
    && (Contains(Lower(Strip(a.text)), keywordLower)
        || Contains(a.href.value, "/view.php?") || Contains(a.href.value, "/subs/"))
  }

  /** The index of the first element `p` holds for, or None when it holds for none. */
  function FirstWhere<T>(s: seq<T>, p: T -> bool): (r: Option<nat>)
    ensures r.None? <==> forall i | 0 <= i < |s| :: !p(s[i])
    ensures r.Some? ==> r.value < |s| && p(s[r.value]) && forall i | 0 <= i < r.value :: !p(s[i])
    decreases |s|
  {
    if s == [] then None
    else if p(s[0]) then Some(0)
    else
      match FirstWhere(s[1..], p)
      case None => None
      case Some(i) => Some(i + 1)
  }

  /** An element `p` holds for, preceded only by elements it fails for, is the one found. */
  lemma FirstWhereAt<T>(s: seq<T>, p: T -> bool, j: nat)
    requires j < |s| && p(s[j])
    requires forall t | 0 <= t < j :: !p(s[t])
    ensures FirstWhere(s, p) == Some(j)
  {
  }

  function AsSeq<T>(o: Option<T>): seq<T> {
    match o
    case None => []
    case Some(v) => [v]
  }

  /** The values `f` gives for the elements of `s`, in order, leaving out the Nones. */
  function Collect<T, U>(s: seq<T>, f: T -> Option<U>): seq<U>
    decreases |s|
  {
    if s == [] then [] else Collect(s[..|s| - 1], f) + AsSeq(f(s[|s| - 1]))
  }

  lemma {:induction false} CollectAppend<T, U>(s1: seq<T>, s2: seq<T>, f: T -> Option<U>)
    ensures Collect(s1 + s2, f) == Collect(s1, f) + Collect(s2, f)
    decreases |s2|
  {
    if s2 == [] {
      assert s1 + s2 == s1;
    } else {
      var init := s2[..|s2| - 1];
      var last := AsSeq(f(s2[|s2| - 1]));
      var s := s1 + s2;
      assert s[..|s| - 1] == s1 + init;
      assert s[|s| - 1] == s2[|s2| - 1];
      calc {
        Collect(s, f);
        Collect(s1 + init, f) + last;
        { CollectAppend(s1, init, f); }
        Collect(s1, f) + Collect(init, f) + last;
      }
    }
  }

  /** How many elements `f` gives a value for. */
  function CountSome<T, U>(s: seq<T>, f: T -> Option<U>): nat
    decreases |s|
  {
    if s == [] then 0
    else CountSome(s[..|s| - 1], f) + (if f(s[|s| - 1]).Some? then 1 else 0)
  }

  lemma {:induction false} CollectPerElement<T, U>(s: seq<T>, f: T -> Option<U>)
    ensures |Collect(s, f)| == CountSome(s, f) <= |s|
    ensures forall k | 0 <= k < |Collect(s, f)| :: exists i | 0 <= i < |s| :: f(s[i]) == Some(Collect(s, f)[k])
    decreases |s|
  {
    if s != [] {
      var init := s[..|s| - 1];
      CollectPerElement(init, f);
      var prev := Collect(init, f);
      var all := Collect(s, f);
      forall k | 0 <= k < |all|
        ensures exists i | 0 <= i < |s| :: f(s[i]) == Some(all[k])
      {
        if k < |prev| {
          assert all[k] == prev[k];
          var i :| 0 <= i < |init| && f(init[i]) == Some(prev[k]);
          assert s[i] == init[i];
        } else {
          assert f(s[|s| - 1]) == Some(all[k]);
        }
      }
    }
  }

  function RelevantTo(keywordLower: string): Anchor -> bool {
    a => Relevant(keywordLower, a)
  }

  /** The language column: the stripped text of the second cell, or empty. */
  function RowLanguage(cells: seq<string>): string {
    if |cells| > 1 then Strip(cells[1]) else ""
  }

  /** What one row contributes: its first relevant anchor, if any, as a result. */
  function RowResult(keywordLower: string, row: Row): Option<SearchResult> {
    match FirstWhere(row.anchors, RelevantTo(keywordLower))
    case None => None
    case Some(i) =>
      var a := row.anchors[i];
      Some(SearchResult(Strip(a.text), InlineResolve(a.href.value), RowLanguage(row.cells)))
  }

  /** A row yields nothing exactly when none of its anchors is relevant, and otherwise the
      title, resolved link and language of its first relevant anchor. */
  lemma RowResultIsFirstRelevant(keywordLower: string, row: Row)
    ensures RowResult(keywordLower, row).None?
            <==> forall i | 0 <= i < |row.anchors| :: !Relevant(keywordLower, row.anchors[i])
    ensures RowResult(keywordLower, row).Some? ==> exists i | 0 <= i < |row.anchors| ::
      Relevant(keywordLower, row.anchors[i])
      && (forall j | 0 <= j < i :: !Relevant(keywordLower, row.anchors[j]))
      && RowResult(keywordLower, row).value
         == SearchResult(Strip(row.anchors[i].text), InlineResolve(row.anchors[i].href.value),
                         RowLanguage(row.cells))
  {
    var p := RelevantTo(keywordLower);
    var f := FirstWhere(row.anchors, p);
    if f.Some? {
      var i := f.value;
      assert p(row.anchors[i]);
      forall j | 0 <= j < i ensures !Relevant(keywordLower, row.anchors[j]) {
        assert !p(row.anchors[j]);
      }
    } else {
      forall j | 0 <= j < |row.anchors| ensures !Relevant(keywordLower, row.anchors[j]) {
        assert !p(row.anchors[j]);
      }
    }
  }

  function ResultOf(keywordLower: string): Row -> Option<SearchResult> {
    row => RowResult(keywordLower, row)
  }

  /** The results of a page: one per row that has a relevant anchor, in row order. */
  function Results(keywordLower: string, rows: seq<Row>): seq<SearchResult> {
    Collect(rows, ResultOf(keywordLower))
  }

  /** The anchor loop of one row: the anchors with an href are tried in order and the first
      relevant one is taken, after which the row is left. */
  method RowMatch(keywordLower: string, row: Row) returns (r: Option<SearchResult>)
    ensures r == RowResult(keywordLower, row)
  {
    var links := row.anchors;
    ghost var p := RelevantTo(keywordLower);
    var j := 0;
    while j < |links|
      invariant 0 <= j <= |links|
      invariant forall t | 0 <= t < j :: !p(links[t])
    {
      var link := links[j];
      if Relevant(keywordLower, link) {
        assert p(link);
        FirstWhereAt(links, p, j);
        var title := Strip(link.text);
        return Some(SearchResult(title, InlineResolve(link.href.value), RowLanguage(row.cells)));
      }
      assert !p(link);
      j := j + 1;
    }
    return None;
  }

  /** The row loop of `search_subtitlecat`. */
  method SearchRows(keyword: string, rows: seq<Row>) returns (results: seq<SearchResult>)
    ensures results == Results(Lower(keyword), rows)
  {
    var keywordLower := Lower(keyword);
    results := [];
    for i := 0 to |rows|
      invariant results == Collect(rows[..i], ResultOf(keywordLower))
    {
      assert rows[..i + 1][..i] == rows[..i];
      var found := RowMatch(keywordLower, rows[i]);
      results := results + AsSeq(found);
    }
    assert rows[..|rows|] == rows;
  }

  /** Results of consecutive row lists are concatenated, so the result order follows the
      row order. */
  lemma ResultsAppend(keywordLower: string, rows1: seq<Row>, rows2: seq<Row>)
    ensures Results(keywordLower, rows1 + rows2)
            == Results(keywordLower, rows1) + Results(keywordLower, rows2)
  {
    CollectAppend(rows1, rows2, ResultOf(keywordLower));
  }

  /** One result per matching row and none for the others: never more results than rows,
      and every result is what some row yields. */
  lemma ResultsPerRow(keywordLower: string, rows: seq<Row>)
    ensures |Results(keywordLower, rows)| == CountSome(rows, ResultOf(keywordLower)) <= |rows|
    ensures forall k | 0 <= k < |Results(keywordLower, rows)| ::
      exists i | 0 <= i < |rows| :: RowResult(keywordLower, rows[i]) == Some(Results(keywordLower, rows)[k])
  {
    var f := ResultOf(keywordLower);
    CollectPerElement(rows, f);
    forall k | 0 <= k < |Results(keywordLower, rows)|
      ensures exists i | 0 <= i < |rows| :: RowResult(keywordLower, rows[i]) == Some(Results(keywordLower, rows)[k])
    {
      var i :| 0 <= i < |rows| && f(rows[i]) == Some(Collect(rows, f)[k]);
    }
  }

  // ---------------------------------------------------------------------------------------
  // The search request

  const SearchPrefix: string := "https://www.subtitlecat.com/index.php?search="

  function SearchUrl(keyword: string): string {
    SearchPrefix + Quote(keyword)
  }

  /** The page's `<title>` element: absent, or present with its `.string`, which is None
      when the element is empty or holds more than one child. */
  datatype TitleTag = NoTitle | Title(str: Option<string>)

  /** What the HTTP request and the HTML parser give back: a failure (a request error, a
      bad status or a parser error), or the status, the title element and the table rows. */
  datatype Fetch = Failed | Fetched(statusCode: int, title: TitleTag, rows: seq<Row>)

  /** The returned dictionary; a `page_title` of None is Python's None. */
  datatype SearchPage = SearchPage(pageTitle: Option<string>, results: seq<SearchResult>,
                                   url: string, statusCode: int)

  /** `search_subtitlecat`: an empty keyword or a failed fetch gives None; otherwise the
      title element's string (a placeholder when there is no title element, None when the
      element has no single string), the results of the row loop, the request URL and the
      status. */
  method SearchSubtitlecat(keyword: string, fetch: string -> Fetch) returns (r: Option<SearchPage>)
    ensures r.None? <==> keyword == [] || fetch(SearchUrl(keyword)).Failed?
    ensures r.Some? ==>
      var page := fetch(SearchUrl(keyword));
      r.value == SearchPage(if page.title.NoTitle? then Some("No title found") else page.title.str,
                            Results(Lower(keyword), page.rows), SearchUrl(keyword), page.statusCode)
  {
    if keyword == [] {
      return None;
    }
    var url := SearchPrefix + Quote(keyword);
    var response := fetch(url);
    if response.Failed? {
      return None;
    }
    var pageTitle := match response.title
      case Title(str) => str
      case NoTitle => Some("No title found");
    var results := SearchRows(keyword, response.rows);
    return Some(SearchPage(pageTitle, results, url, response.statusCode));
  }

  /** An identifier goes into the search URL unchanged. */
  lemma IdentifierSearchUrl(keyword: string)
    requires forall i | 0 <= i < |keyword| ::
      IsAsciiLetter(keyword[i]) || IsAsciiDigit(keyword[i]) || keyword[i] == '-'
    ensures SearchUrl(keyword) == SearchPrefix + keyword
  {
    forall i | 0 <= i < |keyword| ensures IsSafe(keyword[i]) {
      assert IsAsciiLetter(keyword[i]) || IsAsciiDigit(keyword[i]) || keyword[i] == '-';
    }
    QuoteSafe(keyword);
  }

  // ---------------------------------------------------------------------------------------
  // Chinese download buttons

  datatype ChineseInfo = ChineseInfo(simplified: bool, traditional: bool,
                                     links: map<string, string>)

  /** A `green-link` anchor whose lower-cased id or lower-cased text contains `download`. */
  predicate IsDownloadButton(a: Anchor) {
    "green-link" in a.classes
    && (Contains(Lower(a.id.GetOr("")), "download") || Contains(Lower(a.text), "download"))
  }

  /** The case-sensitive variant test on the id or the href. */
  predicate Mentions(a: Anchor, tag: string) {
    Contains(a.id.GetOr(""), tag) || Contains(a.href.GetOr(""), tag)
  }

  /** A download button for the variant `tag`. */
  predicate Offers(a: Anchor, tag: string) {
    IsDownloadButton(a) && Mentions(a, tag)
  }

  function Link(a: Anchor): string {
    FormatUrl(a.href.GetOr(""))
  }

  /** What one anchor contributes to the check: whether it is a download button for each
      variant, and its formatted link. */
  datatype Button = Button(simplified: bool, traditional: bool, link: string)

  function ButtonOf(a: Anchor): Button {
    Button(Offers(a, "zh-CN"), Offers(a, "zh-TW"), Link(a))
  }

  function Buttons(anchors: seq<Anchor>): (bs: seq<Button>)
    ensures |bs| == |anchors|
  {
    seq(|anchors|, i requires 0 <= i < |anchors| => ButtonOf(anchors[i]))
  }

  /** Whether a button offers the variant `tag`. */
  predicate Offered(b: Button, tag: string) {
    if tag == "zh-CN" then b.simplified else b.traditional
  }

  /** One anchor of the loop: the two tests are independent, and a later button for the same
      variant overwrites the link of an earlier one. */
  function ButtonStep(info: ChineseInfo, b: Button): ChineseInfo {
    var afterCN := if b.simplified
      then info.(simplified := true, links := info.links["zh-CN" := b.link]) else info;
    if b.traditional
    then afterCN.(traditional := true, links := afterCN.links["zh-TW" := b.link]) else afterCN
  }

  /** The buttons in document order, folded from the empty result. */
  function ScanButtons(bs: seq<Button>): ChineseInfo
    decreases |bs|
  {
    if bs == [] then ChineseInfo(false, false, map[])
    else ButtonStep(ScanButtons(bs[..|bs| - 1]), bs[|bs| - 1])
  }

  /** The body of the loop in `check_chinese_download_buttons`, for one anchor. */
  method VisitButton(simplified: bool, traditional: bool, links: map<string, string>, link: Anchor)
    returns (simplified': bool, traditional': bool, links': map<string, string>)
    ensures ChineseInfo(simplified', traditional', links')
            == ButtonStep(ChineseInfo(simplified, traditional, links), ButtonOf(link))
  {
    simplified', traditional', links' := simplified, traditional, links;
    var id := if link.id.Some? then link.id.value else "";
    var href := if link.href.Some? then link.href.value else "";
    if "green-link" in link.classes
       && (Contains(Lower(id), "download") || Contains(Lower(link.text), "download")) {
      if Contains(id, "zh-CN") || Contains(href, "zh-CN") {
        simplified' := true;
        links' := links'["zh-CN" := FormatUrl(href)];
      }
      if Contains(id, "zh-TW") || Contains(href, "zh-TW") {
        traditional' := true;
        links' := links'["zh-TW" := FormatUrl(href)];
      }
    }
  }

  /** `check_chinese_download_buttons` over the page's anchors. */
  method CheckChineseButtons(anchors: seq<Anchor>) returns (info: ChineseInfo)
    ensures info == ScanButtons(Buttons(anchors))
  {
    ghost var bs := Buttons(anchors);
    var simplified, traditional := false, false;
    var links: map<string, string> := map[];
    for i := 0 to |anchors|
      invariant ChineseInfo(simplified, traditional, links) == ScanButtons(bs[..i])
    {
      assert bs[..i + 1][..i] == bs[..i];
      assert bs[i] == ButtonOf(anchors[i]);
      simplified, traditional, links := VisitButton(simplified, traditional, links, anchors[i]);
    }
    assert bs[..|anchors|] == bs;
    info := ChineseInfo(simplified, traditional, links);
  }

  /** Each flag is set exactly when its key is present, and no other key ever is. */
  lemma {:induction false} ScanFlagsMatchKeys(bs: seq<Button>)
    ensures var info := ScanButtons(bs);
      (info.simplified <==> "zh-CN" in info.links)
      && (info.traditional <==> "zh-TW" in info.links)
      && info.links.Keys <= {"zh-CN", "zh-TW"}
    decreases |bs|
  {
    if bs != [] {
      ScanFlagsMatchKeys(bs[..|bs| - 1]);
    }
  }

  /** A variant is offered exactly when some button offers it, and its link is the link of
      the last such button. */
  lemma {:induction false} ScanLastOfferWins(bs: seq<Button>, tag: string)
    requires tag == "zh-CN" || tag == "zh-TW"
    ensures tag in ScanButtons(bs).links <==> exists i | 0 <= i < |bs| :: Offered(bs[i], tag)
    ensures tag in ScanButtons(bs).links ==> exists i | 0 <= i < |bs| ::
      Offered(bs[i], tag) && ScanButtons(bs).links[tag] == bs[i].link
      && forall j | i < j < |bs| :: !Offered(bs[j], tag)
    decreases |bs|
  {
    if bs != [] {
      var init := bs[..|bs| - 1];
      var last := bs[|bs| - 1];
      ScanLastOfferWins(init, tag);
      var before := ScanButtons(init);
      var after := ScanButtons(bs);
      assert forall i | 0 <= i < |init| :: init[i] == bs[i];
      if Offered(last, tag) {
        assert after.links[tag] == last.link;
      } else {
        assert (tag in after.links) == (tag in before.links);
        if tag in before.links {
          assert after.links[tag] == before.links[tag];
          var i :| 0 <= i < |init| && Offered(init[i], tag) && before.links[tag] == init[i].link
                   && forall j | i < j < |init| :: !Offered(init[j], tag);
          assert Offered(bs[i], tag);
        }
      }
    }
  }

  /** On a page: a variant gets a link exactly when some anchor is a download button for it,
      and the link is the formatted href of the last such anchor. */
  lemma ChineseLinkIsLastOffer(anchors: seq<Anchor>, tag: string)
    requires tag == "zh-CN" || tag == "zh-TW"
    ensures tag in ScanButtons(Buttons(anchors)).links
            <==> exists i | 0 <= i < |anchors| :: Offers(anchors[i], tag)
    ensures tag in ScanButtons(Buttons(anchors)).links ==> exists i | 0 <= i < |anchors| ::
      Offers(anchors[i], tag) && ScanButtons(Buttons(anchors)).links[tag] == Link(anchors[i])
      && forall j | i < j < |anchors| :: !Offers(anchors[j], tag)
  {
    var bs := Buttons(anchors);
    forall i | 0 <= i < |anchors| ensures Offered(bs[i], tag) == Offers(anchors[i], tag) {
      assert bs[i] == ButtonOf(anchors[i]);
    }
    ScanLastOfferWins(bs, tag);
  }

  /** Without any download button for a Chinese variant the result is empty. */
  lemma {:induction false} ScanWithoutOffers(bs: seq<Button>)
    requires forall i | 0 <= i < |bs| :: !bs[i].simplified && !bs[i].traditional
    ensures ScanButtons(bs) == ChineseInfo(false, false, map[])
    decreases |bs|
  {
    if bs != [] {
      var init := bs[..|bs| - 1];
      assert forall i | 0 <= i < |init| :: init[i] == bs[i];
      ScanWithoutOffers(init);
    }
  }
}
