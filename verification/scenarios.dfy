/** Concrete cases from the repository's test suite, plus edge cases of
    the same rules, stated on the model. */
module Scenarios {
  import opened Wrappers
  import Text
  import Xml
  import Uri
  import opened Entries
  import Format
  import opened Pagination
  import opened Sitemap

  const NoDefaults := Defaults(None, None, None)

  function WithBase(base: string): Options {
    Options(NoDefaults, Some(base), None, None)
  }

  function WithSlash(policy: bool): Options {
    Options(NoDefaults, None, Some(policy), None)
  }

  /** Relative locations under a base without a trailing slash: `''` gives
      the bare base and `'about'` gives `base/about`. */
  lemma BaseUrlJoins()
    ensures Location("", WithBase("https://example.com")) == "https://example.com"
    ensures Location("about", WithBase("https://example.com")) == "https://example.com/about"
  {
  }

  /** A location's own trailing slash is kept, and so is the base's port. */
  lemma BaseUrlKeepsPortAndSlash()
    ensures Location("/about", WithBase("https://example.com:7000")) == "https://example.com:7000/about"
    ensures Location("/about/", WithBase("https://example.com")) == "https://example.com/about/"
  {
    BaseUrlKeepsPort();
  }

  /** The first case of BaseUrlKeepsPortAndSlash on its own: splitting the two
      cases keeps each proof small for the solver. */
  lemma BaseUrlKeepsPort()
    ensures Location("/about", WithBase("https://example.com:7000")) == "https://example.com:7000/about"
  {
  }

  /** A base with a trailing slash: `'/'` gives the bare base and `'/about'`
      gives `base/about`, with no doubled slash. */
  lemma SlashedBaseUrlJoins(base: string)
    requires base == "https://example.com/"
    ensures Location("/", WithBase(base)) == "https://example.com"
    ensures Location("/about", WithBase(base)) == "https://example.com/about"
  {
    SlashedBase(base);
  }

  /** A base with one trailing slash loses it. */
  lemma SlashedBase(base: string)
    requires base == "https://example.com/"
    ensures BaseUrl(WithBase(base)) == "https://example.com"
  {
    var trimmed := base[..|base| - 1];
    assert trimmed == "https://example.com";
    assert Text.TrimTrailingSlashes(trimmed) == trimmed;
  }

  /** The trailing-slash policies on absolute locations. */
  lemma TrailingSlashPolicies()
    ensures Location("https://example.com", WithSlash(true)) == "https://example.com/"
    ensures Location("https://example.com/about/", WithSlash(true)) == "https://example.com/about/"
    ensures Location("https://example.com/about/", WithSlash(false)) == "https://example.com/about"
    ensures Location("https://example.com/page", WithSlash(false)) == "https://example.com/page"
    ensures Location("https://example.com/about/", Options(NoDefaults, None, None, None)) == "https://example.com/about/"
  {
  }

  /** `"` is percent-encoded by `encodeURI`; `&` is left by it and then
      written as an entity reference. */
  lemma EncodesQuoteAndAmpersand(quote: string, amp: string)
    requires quote == "\"" && amp == "&"
    ensures Format.FormatUrlLoc(quote + amp) == "%22" + "&amp;"
  {
    Uri.EncodeURIConcat(quote, amp);
    EncodeOne(quote);
    EncodeOne(amp);
    QuoteEncoded();
    var percent := Uri.EncodeURI(quote);
    assert percent == "%22";
    assert Uri.EncodeURI(amp) == amp;
    assert Uri.EncodeURI(quote + amp) == percent + amp;
    Xml.EscapeConcat(percent, amp);
    EscapePercent(percent);
    EscapeOne(amp);
    Xml.EscapeCharEntities();
    assert Xml.Escape(percent + amp) == percent + "&amp;";
  }

  lemma QuoteEncoded()
    ensures Uri.EncodeChar('"') == "%22"
  {
    assert !Uri.IsUnescaped('"');
    assert Uri.Utf8('"') == [0x22];
    assert Uri.PercentEncode([0x22]) == Uri.PercentByte(0x22) + Uri.PercentEncode([]);
  }

  lemma EscapePercent(s: string)
    requires s == "%22"
    ensures Xml.Escape(s) == s
  {
    assert forall i :: 0 <= i < |s| ==> s[i] in "%2";
    Xml.EscapePlainText(s);
  }

  lemma EncodeOne(s: string)
    requires |s| == 1
    ensures Uri.EncodeURI(s) == Uri.EncodeChar(s[0])
  {
    assert Uri.EncodeURI(s[1..]) == "";
  }

  lemma EscapeOne(s: string)
    requires |s| == 1
    ensures Xml.Escape(s) == Xml.EscapeChar(s[0])
  {
    assert Xml.Escape(s[1..]) == "";
  }

  /** `é` (U+00E9) is written as its two UTF-8 octets. */
  lemma EncodesNonAscii()
    ensures Uri.EncodeURI("é") == "%C3%A9"
  {
    assert Uri.Utf8('é') == [0xC3, 0xA9];
    assert !Uri.IsUnescaped('é');
    assert Uri.PercentByte(0xC3) == "%C3" && Uri.PercentByte(0xA9) == "%A9";
    assert Uri.EncodeChar('é') == "%C3" + "%A9";
    assert Uri.EncodeURI("é") == Uri.EncodeChar('é') + Uri.EncodeURI("");
  }

  /** Whole-number priorities get a decimal, a numeric string does not. */
  lemma PriorityText(host: Host)
    ensures Format.FormatPriority(PriorityNumber(1.0), host) == "1.0"
    ensures Format.FormatPriority(PriorityNumber(0.0), host) == "0.0"
    ensures Format.FormatPriority(PriorityString("0"), host) == "0"
  {
  }

  /** An entry's own priority 0 is written as `0.0` although the default is
      0.8; a priority key present with `undefined` writes no `priority` at
      all; a bare location takes the default. */
  lemma ExplicitPriorityBeatsDefault(host: Host)
    ensures var options := Options(Defaults(None, Some(PriorityNumber(0.8)), None), None, None, None);
      && TextOf(UrlChildren(ResolveEntry(Full("/old", Absent, Present(Some(PriorityNumber(0.0))), Absent), options), host), "priority") == Some("0.0")
      && TextOf(UrlChildren(ResolveEntry(Full("/old", Absent, Present(None), Absent), options), host), "priority") == None
      && TextOf(UrlChildren(ResolveEntry(Bare("/old"), options), host), "priority")
         == Some(Format.FormatPriority(PriorityNumber(0.8), host))
  {
  }

  /** 100,001 entries make three pages of 50,000, 50,000 and 1 entries, the
      last one holding the last entry. */
  lemma HundredThousandAndOne<T>(xs: seq<T>)
    requires |xs| == 100_001
    ensures PageCount(|xs|) == 3
    ensures |Page(xs, 0)| == 50_000 && |Page(xs, 1)| == 50_000 && Page(xs, 2) == [xs[100_000]]
    ensures Page(xs, 1)[0] == xs[50_000]
  {
  }

  /** No index for zero or one sitemap; one for two. */
  lemma IndexNeedsTwoFiles(options: Options, lastmod: Lastmod, host: Host)
    ensures GenerateSitemapsIndex([], options, lastmod, host) == None
    ensures GenerateSitemapsIndex(["sitemap.xml"], options, lastmod, host) == None
    ensures GenerateSitemapsIndex(["sitemap-01.xml", "sitemap-02.xml"], options, lastmod, host).Some?
  {
  }

  /** The names of two pages. */
  lemma TwoPageFilenames()
    ensures SitemapFilenames(2) == ["sitemap-part-01.xml", "sitemap-part-02.xml"]
    ensures SitemapFilenames(1) == ["sitemap.xml"]
    ensures SitemapFilenames(0) == []
  {
    assert PartFilename(0) == "sitemap-part-01.xml";
    assert PartFilename(1) == "sitemap-part-02.xml";
  }

  /** Index locations are not escaped: a file name holding `&` keeps a raw
      `&` that opens no entity reference, while a `url` location never does. */
  lemma IndexLocationsAreNotEscaped(lastmodText: string)
    ensures var loc := SitemapChildren("a&b.xml", Options(NoDefaults, None, None, None), lastmodText)[0].text;
      loc == "a&b.xml" && !Xml.AmpersandsOpenReferences(loc)
    ensures Xml.AmpersandsOpenReferences(Format.FormatUrlLoc("a&b.xml"))
  {
    var loc := "a&b.xml";
    assert loc[1] == '&';
    assert loc[1..] == "&b.xml";
    Xml.NoReferenceAt("&b.xml");
    Format.FormatUrlLocReadsBack("a&b.xml");
  }

  /** Characters that neither `encodeURI` nor the entity table touch. */
  predicate Plain(loc: string) {
    forall i :: 0 <= i < |loc| ==> Uri.IsUnescaped(loc[i]) && loc[i] !in "&'\"<>"
  }

  /** A location made of characters that neither `encodeURI` nor the entity
      table touch is written as it is. */
  lemma PlainLoc(loc: string)
    requires Plain(loc)
    ensures Format.FormatUrlLoc(loc) == loc
  {
    Xml.EscapePlainText(loc);
  }

  /** A bare absolute location resolves to itself, with no fields. */
  lemma BareResolved(loc: string)
    requires |loc| > 0 && loc[0] != '/'
    ensures ResolveEntry(Bare(loc), Options(NoDefaults, None, None, None)) == Resolved(loc, None, None, None)
  {
    assert Location(loc, Options(NoDefaults, None, None, None)) == loc;
  }

  /** A bare plain location has its `loc` child only, holding the
      location as it is. */
  lemma BareUrlChildren(loc: string, host: Host)
    requires Plain(loc)
    ensures UrlChildren(Resolved(loc, None, None, None), host) == [Child("loc", loc)]
  {
    PlainLoc(loc);
    UrlChildrenLocOnly(Resolved(loc, None, None, None), host);
  }

  /** The tags of a `url` element with its `loc` child, as literals: a
      separate step so that FlatUrlLoc stays small for the solver. */
  lemma UrlLocTags()
    ensures "<" + "url" + ">" == "<url>" && "</" + "url" + ">" == "</url>"
    ensures "<" + "loc" + ">" == "<loc>" && "</" + "loc" + ">" == "</loc>"
  {
  }

  /** A flat `url` element with a `loc` child only. */
  lemma FlatUrlLoc(loc: string)
    ensures RenderElement("url", [Child("loc", loc)], false) == "<url><loc>" + loc + "</loc></url>"
  {
    var children := [Child("loc", loc)];
    var tag := Xml.XmlTag("loc", loc);
    FlatElement("url", children);
    assert ChildElements(children) == [tag];
    assert Text.Concat([tag]) == tag + Text.Concat([]);
    UrlLocTags();
    assert tag == "<loc>" + loc + "</loc>";
    assert "<url>" + tag + "</url>" == "<url><loc>" + loc + "</loc></url>";
  }

  /** The `url` element of a bare absolute location, with no options. */
  lemma BareUrlElement(loc: string, host: Host)
    requires Plain(loc)
    requires |loc| > 0 && loc[0] != '/'
    ensures UrlElement(Bare(loc), Options(NoDefaults, None, None, None), host) == "<url><loc>" + loc + "</loc></url>"
  {
    BareUrlChildren(loc, host);
    BareResolved(loc);
    FlatUrlLoc(loc);
  }

  /** The two locations of the example are plain. */
  lemma ExampleLocationsArePlain()
    ensures Plain("https://example.com") && Plain("https://example.com/about")
  {
  }

  /** The `url` elements of two plain absolute locations. */
  lemma PlainElements(a: string, b: string, host: Host)
    requires Plain(a) && |a| > 0 && a[0] != '/'
    requires Plain(b) && |b| > 0 && b[0] != '/'
    ensures UrlElements([Bare(a), Bare(b)], Options(NoDefaults, None, None, None), host) ==
      ["<url><loc>" + a + "</loc></url>", "<url><loc>" + b + "</loc></url>"]
  {
    BareUrlElement(a, host);
    BareUrlElement(b, host);
  }

  /** The flat `urlset` document of two plain absolute locations. */
  lemma PlainDocument(a: string, b: string, host: Host)
    requires Plain(a) && |a| > 0 && a[0] != '/'
    requires Plain(b) && |b| > 0 && b[0] != '/'
    ensures UrlsetDocument([Bare(a), Bare(b)], Options(NoDefaults, None, None, None), host) ==
      XmlDoctype + UrlsetOpen + ("<url><loc>" + a + "</loc></url>") + ("<url><loc>" + b + "</loc></url>") + UrlsetClose
  {
    var x, y := "<url><loc>" + a + "</loc></url>", "<url><loc>" + b + "</loc></url>";
    PlainElements(a, b, host);
    FlatUrlset([Bare(a), Bare(b)], host, [x, y]);
    FlatPair(UrlsetOpen, UrlsetClose, x, y);
  }

  /** Without options, the `urlset` document is the flat document of the
      entries' elements. */
  lemma FlatUrlset(urls: seq<Entry>, host: Host, elements: seq<string>)
    requires UrlElements(urls, Options(NoDefaults, None, None, None), host) == elements
    ensures UrlsetDocument(urls, Options(NoDefaults, None, None, None), host) ==
      RenderDocument(UrlsetOpen, UrlsetClose, elements, false)
  {
  }

  /** The flat document of two elements. */
  lemma FlatPair(open: string, close: string, x: string, y: string)
    ensures RenderDocument(open, close, [x, y], false) == XmlDoctype + open + x + y + close
  {
    FlatDocument(open, close, [x, y]);
    Text.ConcatPair(x, y);
  }

  /** The first case of the test suite: two bare absolute locations and no
      options give one page, whose document is the declaration, the
      `urlset` and the two `url` elements with nothing in between. */
  lemma SimpleSitemap(a: string, b: string, host: Host)
    requires a == "https://example.com" && b == "https://example.com/about"
    ensures PageCount(|[Bare(a), Bare(b)]|) == 1 && Page([Bare(a), Bare(b)], 0) == [Bare(a), Bare(b)]
    ensures UrlsetDocument([Bare(a), Bare(b)], Options(NoDefaults, None, None, None), host) ==
      XmlDoctype + UrlsetOpen + ("<url><loc>" + a + "</loc></url>") + ("<url><loc>" + b + "</loc></url>") + UrlsetClose
  {
    ExampleLocationsArePlain();
    PlainDocument(a, b, host);
    SinglePage([Bare(a), Bare(b)]);
  }

  // ---- pretty printing ------------------------------------------------------

  /** The options of the pretty-printing case: a base URL, a default
      priority of 0.7 and `pretty: true`. */
  function PrettyOptions(base: string): Options {
    Options(Defaults(None, Some(PriorityNumber(0.7)), None), Some(base), None, Some(true))
  }

  /** Under the base `https://example.com`, `/` and `/about` resolve to the
      bare base and `base/about`, taking the default priority. */
  lemma PrettyResolved(base: string, path: string, loc: string)
    requires base == "https://example.com"
    requires (path == "/" && loc == base) || (path == "/about" && loc == "https://example.com/about")
    ensures ResolveEntry(Bare(path), PrettyOptions(base)) == Resolved(loc, None, Some(PriorityNumber(0.7)), None)
  {
    assert Text.TrimTrailingSlashes(base) == base;
    assert BaseUrl(PrettyOptions(base)) == base;
    assert Text.StripLeadingSlash(path) == path[1..];
  }

  /** An entry with a priority and no other field has a `loc` and a
      `priority` child. */
  lemma LocPriorityChildren(u: Resolved, host: Host)
    requires u.lastmod.None? && u.priority.Some? && u.changefreq.None?
    ensures UrlChildren(u, host) ==
      [Child("loc", Format.FormatUrlLoc(u.loc)), Child("priority", Format.FormatPriority(u.priority.value, host))]
  {
    var loc, p := Format.FormatUrlLoc(u.loc), Format.FormatPriority(u.priority.value, host);
    var slots: seq<Slot> := [("loc", Some(loc)), ("lastmod", None), ("priority", Some(p)), ("changefreq", None)];
    assert UrlChildren(u, host) == Collect(slots);
    assert Collect(slots[3..]) == [] + Collect([]);
    assert Collect(slots[2..]) == [Child("priority", p)] + Collect(slots[3..]);
    assert Collect(slots[1..]) == [] + Collect(slots[2..]);
    assert Collect(slots) == [Child("loc", loc)] + Collect(slots[1..]);
  }

  /** The tags of a `priority` child, as literals: a separate step so that
      PrettyUrlElement stays small for the solver. */
  lemma PriorityTags()
    ensures "<" + "priority" + ">" == "<priority>" && "</" + "priority" + ">" == "</priority>"
  {
  }

  /** Two children in pretty mode: one line each. */
  lemma PrettyTwoChildren(first: Child, second: Child)
    ensures RenderChildren([first, second], true) ==
      ("\t\t" + Xml.XmlTag(first.tag, first.text) + "\n") + ("\t\t" + Xml.XmlTag(second.tag, second.text) + "\n")
  {
    var children := [first, second];
    PrettyChildrenForm(children);
    assert PrettyLines(children) ==
      ["\t\t" + Xml.XmlTag(first.tag, first.text) + "\n", "\t\t" + Xml.XmlTag(second.tag, second.text) + "\n"];
    Text.ConcatPair("\t\t" + Xml.XmlTag(first.tag, first.text) + "\n", "\t\t" + Xml.XmlTag(second.tag, second.text) + "\n");
  }

  /** A pretty `url` element around its children's lines. */
  lemma PrettyUrlWrap(inner: string)
    ensures "\t" + Xml.XmlTag("url", "\n" + inner + "\t") == "\t<url>\n" + inner + "\t</url>"
  {
    UrlLocTags();
  }

  /** A pretty `url` element with a `loc` and a `priority` child: each tag on
      a line of its own, the children indented one tab further than the
      element. */
  lemma PrettyUrlElement(loc: string, p: string)
    ensures RenderElement("url", [Child("loc", loc), Child("priority", p)], true) ==
      "\t<url>\n" + ("\t\t<loc>" + loc + "</loc>\n") + ("\t\t<priority>" + p + "</priority>\n") + "\t</url>"
  {
    var x, y := "\t\t<loc>" + loc + "</loc>\n", "\t\t<priority>" + p + "</priority>\n";
    PrettyTwoChildren(Child("loc", loc), Child("priority", p));
    LocLine(loc);
    PriorityLine(p);
    PrettyUrlWrap(x + y);
  }

  /** The pretty document of two elements: every part on a line of its
      own. */
  lemma PrettyPair(open: string, close: string, x: string, y: string)
    ensures RenderDocument(open, close, [x, y], true) ==
      XmlDoctype + "\n" + open + "\n" + x + "\n" + y + "\n" + close
  {
    PrettyDocumentForm(open, close, [x, y]);
    assert Text.Join([x, y], "\n") == x + "\n" + Text.Join([y], "\n");
  }

  /** The pretty `url` element of the pretty-printing case's entries. */
  function PrettyExample(loc: string): string {
    "\t<url>\n" + ("\t\t<loc>" + loc + "</loc>\n") + ("\t\t<priority>" + "0.7" + "</priority>\n") + "\t</url>"
  }

  /** The pretty `url` element of one entry of the pretty-printing case. */
  lemma PrettyEntry(base: string, path: string, loc: string, host: Host)
    requires ResolveEntry(Bare(path), PrettyOptions(base)) == Resolved(loc, None, Some(PriorityNumber(0.7)), None)
    requires Plain(loc) && host.numberToString(0.7) == "0.7"
    ensures UrlElement(Bare(path), PrettyOptions(base), host) == PrettyExample(loc)
  {
    PriorityChildren(Resolved(loc, None, Some(PriorityNumber(0.7)), None), host);
    assert IsPretty(PrettyOptions(base));
    PrettyUrlElement(loc, "0.7");
  }

  /** A plain location with the priority 0.7 only has its location as it
      is and the priority's text. */
  lemma PriorityChildren(u: Resolved, host: Host)
    requires u.lastmod.None? && u.priority == Some(PriorityNumber(0.7)) && u.changefreq.None?
    requires Plain(u.loc) && host.numberToString(0.7) == "0.7"
    ensures UrlChildren(u, host) == [Child("loc", u.loc), Child("priority", "0.7")]
  {
    PlainLoc(u.loc);
    LocPriorityChildren(u, host);
    assert Format.FormatPriority(PriorityNumber(0.7), host) == "0.7";
  }

  /** The elements of two entries, one per entry. */
  lemma TwoElements(first: Entry, second: Entry, options: Options, host: Host, x: string, y: string)
    requires UrlElement(first, options, host) == x && UrlElement(second, options, host) == y
    ensures UrlElements([first, second], options, host) == [x, y]
  {
  }

  /** The elements of the pretty-printing case, one per entry. */
  lemma PrettyElements(base: string, about: string, host: Host)
    requires base == "https://example.com" && about == "https://example.com/about"
    requires host.numberToString(0.7) == "0.7"
    ensures UrlElements([Bare("/"), Bare("/about")], PrettyOptions(base), host) ==
      [PrettyExample(base), PrettyExample(about)]
  {
    PrettyResolved(base, "/", base);
    PrettyResolved(base, "/about", about);
    ExampleLocationsArePlain();
    PrettyEntry(base, "/", base, host);
    PrettyEntry(base, "/about", about, host);
    TwoElements(Bare("/"), Bare("/about"), PrettyOptions(base), host, PrettyExample(base), PrettyExample(about));
  }

  /** With pretty printing on, the `urlset` document is the pretty document
      of the entries' elements. */
  lemma PrettyUrlset(urls: seq<Entry>, options: Options, host: Host, elements: seq<string>)
    requires options.pretty == Some(true)
    requires UrlElements(urls, options, host) == elements
    ensures UrlsetDocument(urls, options, host) == RenderDocument(UrlsetOpen, UrlsetClose, elements, true)
  {
  }

  /** The pretty-printing case of the test suite: `/` and `/about` under
      `https://example.com` with a default priority of 0.7 give one page
      whose document has the declaration, the `urlset` tags and every `url`
      element on lines of their own, the children indented by two tabs. */
  lemma PrettySitemap(base: string, about: string, host: Host)
    requires base == "https://example.com" && about == "https://example.com/about"
    requires host.numberToString(0.7) == "0.7"
    ensures PageCount(|[Bare("/"), Bare("/about")]|) == 1
    ensures UrlsetDocument([Bare("/"), Bare("/about")], PrettyOptions(base), host) ==
      XmlDoctype + "\n" + UrlsetOpen + "\n"
      + ("\t<url>\n" + ("\t\t<loc>" + base + "</loc>\n") + ("\t\t<priority>" + "0.7" + "</priority>\n") + "\t</url>") + "\n"
      + ("\t<url>\n" + ("\t\t<loc>" + about + "</loc>\n") + ("\t\t<priority>" + "0.7" + "</priority>\n") + "\t</url>") + "\n"
      + UrlsetClose
  {
    var urls := [Bare("/"), Bare("/about")];
    var x, y := PrettyExample(base), PrettyExample(about);
    PrettyElements(base, about, host);
    PrettyUrlset(urls, PrettyOptions(base), host, [x, y]);
    PrettyPair(UrlsetOpen, UrlsetClose, x, y);
  }

  /** The tags of a `sitemap` element and its `lastmod` child, as literals. */
  lemma SitemapTags()
    ensures "<" + "sitemap" + ">" == "<sitemap>" && "</" + "sitemap" + ">" == "</sitemap>"
    ensures "<" + "lastmod" + ">" == "<lastmod>" && "</" + "lastmod" + ">" == "</lastmod>"
  {
  }

  /** With pretty printing on, the `sitemap` element of every file of an
      index has its `loc` and its `lastmod` on lines of their own, indented
      by two tabs, between the indented opening and closing tags. */
  lemma PrettyIndexElement(filename: string, options: Options, lastmodText: string)
    requires options.pretty == Some(true)
    ensures var loc := JoinPath(BaseUrl(options), filename);
      SitemapElement(filename, options, lastmodText) ==
      "\t<sitemap>\n" + ("\t\t<loc>" + loc + "</loc>\n") + ("\t\t<lastmod>" + lastmodText + "</lastmod>\n") + "\t</sitemap>"
  {
    var loc := JoinPath(BaseUrl(options), filename);
    assert IsPretty(options);
    IndexChildLines(loc, lastmodText);
    PrettySitemapWrap(("\t\t<loc>" + loc + "</loc>\n") + ("\t\t<lastmod>" + lastmodText + "</lastmod>\n"));
  }

  /** The lines of the `loc` and `lastmod` children of a pretty `sitemap`
      element. */
  lemma IndexChildLines(loc: string, lastmodText: string)
    ensures RenderChildren([Child("loc", loc), Child("lastmod", lastmodText)], true) ==
      ("\t\t<loc>" + loc + "</loc>\n") + ("\t\t<lastmod>" + lastmodText + "</lastmod>\n")
  {
    PrettyTwoChildren(Child("loc", loc), Child("lastmod", lastmodText));
    LocLine(loc);
    LastmodLine(lastmodText);
  }

  /** The pretty line of a `loc` child. */
  lemma LocLine(loc: string)
    ensures "\t\t" + Xml.XmlTag("loc", loc) + "\n" == "\t\t<loc>" + loc + "</loc>\n"
  {
    UrlLocTags();
  }

  /** The pretty line of a `lastmod` child. */
  lemma LastmodLine(text: string)
    ensures "\t\t" + Xml.XmlTag("lastmod", text) + "\n" == "\t\t<lastmod>" + text + "</lastmod>\n"
  {
    SitemapTags();
  }

  /** The pretty line of a `priority` child. */
  lemma PriorityLine(text: string)
    ensures "\t\t" + Xml.XmlTag("priority", text) + "\n" == "\t\t<priority>" + text + "</priority>\n"
  {
    PriorityTags();
  }

  /** A pretty `sitemap` element around its children's lines. */
  lemma PrettySitemapWrap(inner: string)
    ensures "\t" + Xml.XmlTag("sitemap", "\n" + inner + "\t") == "\t<sitemap>\n" + inner + "\t</sitemap>"
  {
    SitemapTags();
  }
}
