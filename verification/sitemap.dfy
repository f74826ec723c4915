/** `generateSitemaps`, `generateSitemapsIndex` and the page file names of
    `writeSitemaps`: entries become `url` elements, the elements are split
    into `urlset` documents of at most 50,000 URLs, and the documents are
    listed in a `sitemapindex` when there is more than one. */
module Sitemap {
  import opened Wrappers
  import Text
  import Xml
  import Decimal
  import opened Entries
  import Format
  import opened Pagination

  /** `XML_DOCTYPE`. */
  const XmlDoctype := "<?xml version=\"1.0\" encoding=\"UTF-8\"?>"
  const UrlsetOpen := "<urlset xmlns=\"http://www.sitemaps.org/schemas/sitemap/0.9\">"
  const UrlsetClose := "</urlset>"
  const SitemapIndexOpen := "<sitemapindex xmlns=\"http://www.sitemaps.org/schemas/sitemap/0.9\">"
  const SitemapIndexClose := "</sitemapindex>"

  // ---- layout -------------------------------------------------------------

  /** `options.pretty ?? false`: only an explicit `true` turns pretty
      printing on. */
  function IsPretty(options: Options): (r: bool)
    ensures r <==> options.pretty == Some(true)
  {
    options.pretty.GetOr(false)
  }

  /** `NL`: the only place where `pretty` matters, with `Tab`. */
  function Newline(pretty: bool): string {
    if pretty then "\n" else ""
  }

  /** `TAB` */
  function Tab(pretty: bool): string {
    if pretty then "\t" else ""
  }

  // ---- locations ----------------------------------------------------------

  /** `options.baseUrl ? options.baseUrl.replace(/\/+$/u, '') : ''`: the base
      without its trailing run of slashes; no base, or an empty one, is `""`. */
  function BaseUrl(options: Options): (r: string)
    ensures !Text.EndsWith(r, '/')
    ensures options.baseUrl.None? ==> r == ""
    ensures options.baseUrl.Some? ==>
      Text.StartsWith(options.baseUrl.value, r) && Text.AllSlashes(options.baseUrl.value[|r|..])
  {
    match options.baseUrl
    case Some(b) => if b != "" then Text.TrimTrailingSlashes(b) else ""
    case None => ""
  }

  /** `[base, path].filter(Boolean).join('/')`: the empty parts are dropped and
      the rest joined with one `/`. */
  function JoinPath(base: string, path: string): (r: string)
    ensures r == if base == "" then path else if path == "" then base else base + "/" + path
  {
    Text.JoinNonEmptyPair(base, path, "/");
    Text.Join(Text.NonEmpty([base, path]), "/")
  }

  /** The policy of `options.trailingSlash`: `Some(true)` adds a `/` when there
      is none, `Some(false)` removes one `/` when there is one, `None` leaves
      the location alone. */
  function ApplyTrailingSlash(loc: string, policy: Option<bool>): (r: string)
    ensures policy.None? ==> r == loc
    ensures policy == Some(true) ==>
      Text.EndsWith(r, '/') && (r == loc || r == loc + "/") && (Text.EndsWith(loc, '/') ==> r == loc)
    ensures policy == Some(false) ==>
      if Text.EndsWith(loc, '/') then r + "/" == loc else r == loc
  {
    match policy
    case Some(true) => if !Text.EndsWith(loc, '/') then loc + "/" else loc
    case Some(false) => if Text.EndsWith(loc, '/') then loc[..|loc| - 1] else loc
    case None => loc
  }

  /** Forcing the trailing slash a second time changes nothing. */
  lemma ForceTrailingSlashIdempotent(loc: string)
    ensures ApplyTrailingSlash(ApplyTrailingSlash(loc, Some(true)), Some(true)) == ApplyTrailingSlash(loc, Some(true))
  {
  }

  /** Removing the trailing slash undoes adding it, for a location that had
      none. */
  lemma TrailingSlashRoundTrip(loc: string)
    requires !Text.EndsWith(loc, '/')
    ensures ApplyTrailingSlash(ApplyTrailingSlash(loc, Some(true)), Some(false)) == loc
  {
  }

  /** The absolute location written for an entry: the entry's location loses
      at most one leading `/` and is joined to the trimmed base, then the
      trailing-slash policy applies. */
  function Location(loc: string, options: Options): (r: string)
    ensures var base := BaseUrl(options);
            var path := Text.StripLeadingSlash(loc);
            r == ApplyTrailingSlash(if base == "" then path else if path == "" then base else base + "/" + path,
                                    options.trailingSlash)
  {
    ApplyTrailingSlash(JoinPath(BaseUrl(options), Text.StripLeadingSlash(loc)), options.trailingSlash)
  }

  // ---- url elements -------------------------------------------------------

  /** A child element of `url` or `sitemap`: its tag and its (already
      formatted) text. */
  datatype Child = Child(tag: string, text: string)

  /** Position of each child tag in the order the source writes them. */
  function TagRank(tag: string): nat {
    if tag == "loc" then 0
    else if tag == "lastmod" then 1
    else if tag == "priority" then 2
    else if tag == "changefreq" then 3
    else 4
  }

  /** The text of the first child with the given tag, if any. */
  function TextOf(children: seq<Child>, tag: string): Option<string>
    decreases |children|
  {
    if |children| == 0 then None
    else if children[0].tag == tag then Some(children[0].text)
    else TextOf(children[1..], tag)
  }

  /** A tag with the value it resolved to, in the position the source
      writes it. */
  type Slot = (string, Option<string>)

  /** The children for the slots whose value is defined, in slot order: the
      `value === undefined ? '' : ...` pattern of the source. */
  function Collect(slots: seq<Slot>): seq<Child>
    decreases |slots|
  {
    if |slots| == 0 then []
    else
      (if slots[0].1.Some? then [Child(slots[0].0, slots[0].1.value)] else [])
      + Collect(slots[1..])
  }

  predicate RanksIncrease(tags: seq<string>) {
    forall i, j :: 0 <= i < j < |tags| ==> TagRank(tags[i]) < TagRank(tags[j])
  }

  function SlotTags(slots: seq<Slot>): seq<string> {
    seq(|slots|, i requires 0 <= i < |slots| => slots[i].0)
  }

  function ChildTags(children: seq<Child>): seq<string> {
    seq(|children|, i requires 0 <= i < |children| => children[i].tag)
  }

  /** Every collected child comes from a slot, so its rank lies within the
      bounds of the slots' ranks. */
  lemma {:induction false} CollectRankBound(slots: seq<Slot>, lo: nat, hi: nat)
    requires forall i :: 0 <= i < |slots| ==> lo <= TagRank(slots[i].0) < hi
    ensures forall k :: 0 <= k < |Collect(slots)| ==> lo <= TagRank(Collect(slots)[k].tag) < hi
    ensures |Collect(slots)| <= |slots|
    decreases |slots|
  {
    if |slots| > 0 {
      CollectRankBound(slots[1..], lo, hi);
    }
  }

  /** Collecting keeps the slots' order. */
  lemma {:induction false} CollectKeepsOrder(slots: seq<Slot>)
    requires RanksIncrease(SlotTags(slots))
    ensures RanksIncrease(ChildTags(Collect(slots)))
    decreases |slots|
  {
    if |slots| > 0 {
      var rest := slots[1..];
      assert SlotTags(rest) == SlotTags(slots)[1..];
      CollectKeepsOrder(rest);
      var first := TagRank(slots[0].0);
      assert forall i :: 0 <= i < |rest| ==> TagRank(rest[i].0) >= first + 1 by {
        forall i | 0 <= i < |rest| ensures TagRank(rest[i].0) >= first + 1 {
          assert SlotTags(slots)[0] == slots[0].0 && SlotTags(slots)[i + 1] == rest[i].0;
        }
      }
      CollectRankBound(rest, first + 1, 5);
      var c := Collect(slots);
      var tail := Collect(rest);
      if slots[0].1.Some? {
        assert c == [Child(slots[0].0, slots[0].1.value)] + tail;
        ConsKeepsOrder(Child(slots[0].0, slots[0].1.value), tail);
      } else {
        assert c == tail;
      }
    }
  }

  /** A child ranked below every child of an ordered list can go in front
      of it. */
  lemma ConsKeepsOrder(first: Child, tail: seq<Child>)
    requires RanksIncrease(ChildTags(tail))
    requires forall k :: 0 <= k < |tail| ==> TagRank(first.tag) < TagRank(tail[k].tag)
    ensures RanksIncrease(ChildTags([first] + tail))
  {
    var c := [first] + tail;
    forall i, j | 0 <= i < j < |c|
      ensures TagRank(ChildTags(c)[i]) < TagRank(ChildTags(c)[j])
    {
      assert ChildTags(c)[j] == tail[j - 1].tag;
      if i > 0 {
        assert ChildTags(c)[i] == ChildTags(tail)[i - 1];
        assert ChildTags(c)[j] == ChildTags(tail)[j - 1];
      }
    }
  }

  /** A tag that no slot carries has no text. */
  lemma {:induction false} CollectMissingTag(slots: seq<Slot>, tag: string)
    requires forall i :: 0 <= i < |slots| ==> slots[i].0 != tag
    ensures TextOf(Collect(slots), tag) == None
    decreases |slots|
  {
    if |slots| > 0 {
      var c := Collect(slots);
      CollectMissingTag(slots[1..], tag);
      if slots[0].1.Some? {
        assert c[0].tag == slots[0].0;
        assert c[1..] == Collect(slots[1..]);
      } else {
        assert c == Collect(slots[1..]);
      }
    }
  }

  /** With distinct tags, the text found under a slot's tag is that slot's
      value: present when defined, absent when not. */
  lemma {:induction false} CollectText(slots: seq<Slot>, i: nat)
    requires i < |slots|
    requires forall a, b :: 0 <= a < b < |slots| ==> slots[a].0 != slots[b].0
    ensures TextOf(Collect(slots), slots[i].0) == slots[i].1
    decreases |slots|
  {
    var tag := slots[i].0;
    var rest := slots[1..];
    var c := Collect(slots);
    if slots[0].1.Some? {
      assert c[0] == Child(slots[0].0, slots[0].1.value);
      assert c[1..] == Collect(rest);
    } else {
      assert c == Collect(rest);
    }
    if i == 0 {
      if slots[0].1.None? {
        CollectMissingTag(rest, tag);
      }
    } else {
      CollectText(rest, i - 1);
    }
  }

  /** The children of the `url` element of a resolved entry: `loc` always
      and first, then `lastmod`, `priority` and `changefreq` in that order,
      each present exactly when its value resolved to something, and each
      holding its formatted value. */
  function UrlChildren(u: Resolved, host: Host): (r: seq<Child>)
    ensures 1 <= |r| <= 4 && r[0].tag == "loc"
    ensures RanksIncrease(ChildTags(r))
    ensures forall i :: 0 <= i < |r| ==> TagRank(r[i].tag) < 4
    ensures TextOf(r, "loc") == Some(Format.FormatUrlLoc(u.loc))
    ensures TextOf(r, "lastmod") == if u.lastmod.Some? then Some(host.toISOString(u.lastmod.value)) else None
    ensures TextOf(r, "priority") == if u.priority.Some? then Some(Format.FormatPriority(u.priority.value, host)) else None
    ensures TextOf(r, "changefreq") == if u.changefreq.Some? then Some(Format.ChangefreqText(u.changefreq.value)) else None
  {
    var slots: seq<Slot> := [
      ("loc", Some(Format.FormatUrlLoc(u.loc))),
      ("lastmod", if u.lastmod.Some? then Some(host.toISOString(u.lastmod.value)) else None),
      ("priority", if u.priority.Some? then Some(Format.FormatPriority(u.priority.value, host)) else None),
      ("changefreq", if u.changefreq.Some? then Some(Format.ChangefreqText(u.changefreq.value)) else None)
    ];
    UrlChildrenFacts(slots);
    Collect(slots)
  }

  /** An entry with no `lastmod`, `priority` or `changefreq` has only its
      `loc` child. */
  lemma UrlChildrenLocOnly(u: Resolved, host: Host)
    requires u.lastmod.None? && u.priority.None? && u.changefreq.None?
    ensures UrlChildren(u, host) == [Child("loc", Format.FormatUrlLoc(u.loc))]
  {
    var r := UrlChildren(u, host);
    if |r| > 1 {
      var tag := r[1].tag;
      assert ChildTags(r)[0] == "loc" && ChildTags(r)[1] == tag;
      assert 0 < TagRank(tag) < 4;
      // The second child's tag is lastmod, priority or changefreq, so it has
      // a text, against the None that UrlChildren promises for each of them.
      // Naming TextOf(r[1..], tag) lets the solver unfold that text; stating
      // it as an assert would be checked under the clash.
      var text := TextOf(r[1..], tag);
      assert false;
    }
    assert TextOf(r, "loc") == Some(r[0].text);
  }

  lemma UrlChildrenFacts(slots: seq<Slot>)
    requires |slots| == 4 && slots[0].1.Some?
    requires slots[0].0 == "loc" && slots[1].0 == "lastmod" && slots[2].0 == "priority" && slots[3].0 == "changefreq"
    ensures var r := Collect(slots);
      && 1 <= |r| <= 4 && r[0] == Child("loc", slots[0].1.value)
      && RanksIncrease(ChildTags(r))
      && (forall i :: 0 <= i < |r| ==> TagRank(r[i].tag) < 4)
      && TextOf(r, "loc") == slots[0].1
      && TextOf(r, "lastmod") == slots[1].1
      && TextOf(r, "priority") == slots[2].1
      && TextOf(r, "changefreq") == slots[3].1
  {
    assert SlotTags(slots) == ["loc", "lastmod", "priority", "changefreq"];
    CollectKeepsOrder(slots);
    CollectRankBound(slots, 0, 4);
    var r := Collect(slots);
    assert r[0] == Child("loc", slots[0].1.value);
    CollectText(slots, 0);
    CollectText(slots, 1);
    CollectText(slots, 2);
    CollectText(slots, 3);
  }

  /** One child per line at two levels of indentation in pretty mode. */
  function RenderChildren(children: seq<Child>, pretty: bool): string
    decreases |children|
  {
    if |children| == 0 then ""
    else
      Tab(pretty) + Tab(pretty) + Xml.XmlTag(children[0].tag, children[0].text) + Newline(pretty)
      + RenderChildren(children[1..], pretty)
  }

  /** `TAB + xmlTag(name, NL + children + TAB)` */
  function RenderElement(name: string, children: seq<Child>, pretty: bool): string {
    Tab(pretty) + Xml.XmlTag(name, Newline(pretty) + RenderChildren(children, pretty) + Tab(pretty))
  }

  /** The declaration, the root element and its elements joined by `NL`. */
  function RenderDocument(open: string, close: string, elements: seq<string>, pretty: bool): string {
    XmlDoctype + Newline(pretty) + open + Newline(pretty) + Text.Join(elements, Newline(pretty)) + Newline(pretty) + close
  }

  // ---- layout -------------------------------------------------------------

  /** The `<tag>text</tag>` of each child, in order. */
  function ChildElements(children: seq<Child>): seq<string> {
    seq(|children|, i requires 0 <= i < |children| => Xml.XmlTag(children[i].tag, children[i].text))
  }

  /** Without pretty printing the children are their elements, one after
      the other. */
  lemma {:induction false} FlatChildren(children: seq<Child>)
    ensures RenderChildren(children, false) == Text.Concat(ChildElements(children))
    decreases |children|
  {
    if |children| > 0 {
      FlatChildren(children[1..]);
      FlatLine(Xml.XmlTag(children[0].tag, children[0].text), RenderChildren(children[1..], false));
      assert ChildElements(children[1..]) == ChildElements(children)[1..];
    }
  }

  /** Without pretty printing a child line is the child's element alone. */
  lemma FlatLine(head: string, rest: string)
    ensures Tab(false) + Tab(false) + head + Newline(false) + rest == head + rest
  {
    assert Tab(false) == "" && Newline(false) == "";
    assert "" + "" + head == head;
    assert head + "" == head;
  }

  /** Without pretty printing an element is `<name>`, then each child's
      `<tag>text</tag>` in order, then `</name>`. */
  lemma FlatElement(name: string, children: seq<Child>)
    ensures RenderElement(name, children, false) ==
      "<" + name + ">" + Text.Concat(ChildElements(children)) + "</" + name + ">"
  {
    var inner := RenderChildren(children, false);
    FlatChildren(children);
    assert Tab(false) == "" && Newline(false) == "";
    assert "" + inner + "" == inner;
    assert RenderElement(name, children, false) == "" + Xml.XmlTag(name, inner);
  }

  /** Without pretty printing a document is the declaration, the opening
      tag, the elements one after the other, and the closing tag. */
  lemma FlatDocument(open: string, close: string, elements: seq<string>)
    ensures RenderDocument(open, close, elements, false) == XmlDoctype + open + Text.Concat(elements) + close
  {
    Text.JoinNoSeparator(elements);
  }

  /** The lines of the children in pretty mode: each child's
      `<tag>text</tag>` after two tabs and before a line feed. */
  function PrettyLines(children: seq<Child>): seq<string> {
    seq(|children|, i requires 0 <= i < |children| => "\t\t" + Xml.XmlTag(children[i].tag, children[i].text) + "\n")
  }

  /** In pretty mode the children are their lines, one after the other:
      every child sits on a line of its own, indented by two tabs. */
  lemma {:induction false} PrettyChildrenForm(children: seq<Child>)
    ensures RenderChildren(children, true) == Text.Concat(PrettyLines(children))
    decreases |children|
  {
    if |children| > 0 {
      PrettyChildrenForm(children[1..]);
      assert PrettyLines(children[1..]) == PrettyLines(children)[1..];
      assert Tab(true) + Tab(true) == "\t\t" && Newline(true) == "\n";
    }
  }

  /** In pretty mode an element is a tab, `<name>` and a line feed, the
      children's lines, then a tab and `</name>`. */
  lemma PrettyElementForm(name: string, children: seq<Child>)
    ensures RenderElement(name, children, true) ==
      "\t" + "<" + name + ">" + "\n" + Text.Concat(PrettyLines(children)) + "\t" + "</" + name + ">"
  {
    PrettyChildrenForm(children);
    TabbedTag(name, Text.Concat(PrettyLines(children)));
  }

  /** A tag around a line feed, some lines and a tab, after a tab. */
  lemma TabbedTag(name: string, lines: string)
    ensures "\t" + Xml.XmlTag(name, "\n" + lines + "\t") ==
      "\t" + "<" + name + ">" + "\n" + lines + "\t" + "</" + name + ">"
  {
    assert Xml.XmlTag(name, "\n" + lines + "\t") == "<" + name + ">" + ("\n" + lines + "\t") + "</" + name + ">";
  }

  /** In pretty mode a document puts the declaration, the opening tag, each
      element and the closing tag on lines of their own. */
  lemma PrettyDocumentForm(open: string, close: string, elements: seq<string>)
    ensures RenderDocument(open, close, elements, true) ==
      XmlDoctype + "\n" + open + "\n" + Text.Join(elements, "\n") + "\n" + close
  {
  }

  /** Removing the layout from a tagged element removes it from the
      contents only. */
  lemma TagStripLayout(tag: string, contents: string)
    requires Text.NoLayout(tag)
    ensures Text.StripLayout(Xml.XmlTag(tag, contents)) == Xml.XmlTag(tag, Text.StripLayout(contents))
  {
    Text.StripLayoutPlain(tag);
    assert Text.StripLayout("<") == "<" && Text.StripLayout(">") == ">" && Text.StripLayout("</") == "</";
    Text.StripLayoutConcat("<", tag);
    Text.StripLayoutConcat("<" + tag, ">");
    Text.StripLayoutConcat("<" + tag + ">", contents);
    Text.StripLayoutConcat("<" + tag + ">" + contents, "</");
    Text.StripLayoutConcat("<" + tag + ">" + contents + "</", tag);
    Text.StripLayoutConcat("<" + tag + ">" + contents + "</" + tag, ">");
  }

  /** Layout-only text around a string disappears with the layout. */
  lemma StripAround(pre: string, mid: string, post: string)
    requires Text.StripLayout(pre) == "" && Text.StripLayout(post) == ""
    ensures Text.StripLayout(pre + mid + post) == Text.StripLayout(mid)
  {
    Text.StripLayoutConcat(pre, mid);
    Text.StripLayoutConcat(pre + mid, post);
  }

  /** Children whose tags and texts hold no line feed or tab. */
  predicate ChildrenWithoutLayout(children: seq<Child>) {
    forall i :: 0 <= i < |children| ==> Text.NoLayout(children[i].tag) && Text.NoLayout(children[i].text)
  }

  /** Pretty printing only inserts line feeds and tabs between the
      children. */
  lemma {:induction false} PrettyChildren(children: seq<Child>)
    requires ChildrenWithoutLayout(children)
    ensures Text.StripLayout(RenderChildren(children, true)) == RenderChildren(children, false)
    decreases |children|
  {
    if |children| > 0 {
      var tail := children[1..];
      var head := Xml.XmlTag(children[0].tag, children[0].text);
      var line := "\t\t" + head + "\n";
      var rest := RenderChildren(tail, true);
      TailWithoutLayout(children);
      PrettyChildren(tail);
      PrettyLine(children[0]);
      Text.StripLayoutConcat(line, rest);
      assert RenderChildren(children, true) == line + rest;
      FlatLine(head, RenderChildren(tail, false));
    }
  }

  lemma TailWithoutLayout(children: seq<Child>)
    requires |children| > 0 && ChildrenWithoutLayout(children)
    ensures ChildrenWithoutLayout(children[1..])
  {
    var tail := children[1..];
    forall i | 0 <= i < |tail|
      ensures Text.NoLayout(tail[i].tag) && Text.NoLayout(tail[i].text)
    {
      assert tail[i] == children[i + 1];
    }
  }

  /** One pretty child line loses its indentation and line feed. */
  lemma PrettyLine(child: Child)
    requires Text.NoLayout(child.tag) && Text.NoLayout(child.text)
    ensures Text.StripLayout("\t\t" + Xml.XmlTag(child.tag, child.text) + "\n") == Xml.XmlTag(child.tag, child.text)
  {
    TagStripLayout(child.tag, child.text);
    Text.StripLayoutPlain(child.text);
    assert Text.StripLayout("\t\t") == "" && Text.StripLayout("\n") == "";
    StripAround("\t\t", Xml.XmlTag(child.tag, child.text), "\n");
  }

  /** Pretty printing only inserts line feeds and tabs into an element. */
  lemma PrettyElement(name: string, children: seq<Child>)
    requires Text.NoLayout(name) && ChildrenWithoutLayout(children)
    ensures Text.StripLayout(RenderElement(name, children, true)) == RenderElement(name, children, false)
  {
    var inner := RenderChildren(children, true);
    PrettyChildren(children);
    Text.StripLayoutConcat("\n", inner);
    Text.StripLayoutConcat("\n" + inner, "\t");
    assert Text.StripLayout("\t") == "" && Text.StripLayout("\n") == "";
    TagStripLayout(name, "\n" + inner + "\t");
    Text.StripLayoutConcat("\t", Xml.XmlTag(name, "\n" + inner + "\t"));
  }

  /** Joining pretty elements with line feeds and removing the layout gives
      the flat elements joined with nothing. */
  lemma {:induction false} PrettyJoin(pretty: seq<string>, flat: seq<string>)
    requires |pretty| == |flat|
    requires forall i :: 0 <= i < |pretty| ==> Text.StripLayout(pretty[i]) == flat[i]
    ensures Text.StripLayout(Text.Join(pretty, "\n")) == Text.Join(flat, "")
    decreases |pretty|
  {
    if |pretty| > 1 {
      PrettyJoin(pretty[1..], flat[1..]);
      var rest := Text.Join(pretty[1..], "\n");
      Text.StripLayoutConcat(pretty[0], "\n");
      Text.StripLayoutConcat(pretty[0] + "\n", rest);
      assert Text.StripLayout("\n") == "";
    }
  }

  /** Pretty printing only inserts line feeds and tabs into a document:
      removing them from the pretty document of the pretty elements gives
      the flat document of the flat elements. */
  lemma PrettyDocument(open: string, close: string, pretty: seq<string>, flat: seq<string>)
    requires Text.NoLayout(open) && Text.NoLayout(close)
    requires |pretty| == |flat|
    requires forall i :: 0 <= i < |pretty| ==> Text.StripLayout(pretty[i]) == flat[i]
    ensures Text.StripLayout(RenderDocument(open, close, pretty, true)) == RenderDocument(open, close, flat, false)
  {
    var body := Text.Join(pretty, "\n");
    PrettyJoin(pretty, flat);
    Text.StripLayoutPlain(XmlDoctype);
    Text.StripLayoutPlain(open);
    Text.StripLayoutPlain(close);
    assert Text.StripLayout("\n") == "";
    Text.StripLayoutConcat(XmlDoctype, "\n");
    Text.StripLayoutConcat(XmlDoctype + "\n", open);
    Text.StripLayoutConcat(XmlDoctype + "\n" + open, "\n");
    Text.StripLayoutConcat(XmlDoctype + "\n" + open + "\n", body);
    Text.StripLayoutConcat(XmlDoctype + "\n" + open + "\n" + body, "\n");
    Text.StripLayoutConcat(XmlDoctype + "\n" + open + "\n" + body + "\n", close);
  }

  /** The entry as the generator resolves it: joined location, slash policy,
      fields resolved against the defaults. */
  function ResolveEntry(e: Entry, options: Options): (r: Resolved)
    ensures r.loc == Location(e.loc, options)
    ensures e.Full? && e.lastmod.Present? ==> r.lastmod == e.lastmod.value
    ensures e.Full? && e.priority.Present? ==> r.priority == e.priority.value
    ensures e.Full? && e.changefreq.Present? ==> r.changefreq == e.changefreq.value
    ensures (e.Bare? || e.lastmod.Absent?) ==> r.lastmod == options.defaults.lastmod
    ensures (e.Bare? || e.priority.Absent?) ==> r.priority == options.defaults.priority
    ensures (e.Bare? || e.changefreq.Absent?) ==> r.changefreq == options.defaults.changefreq
  {
    ResolveFields(e, options.defaults).(loc := Location(e.loc, options))
  }

  /** The `url` element of one entry. */
  function UrlElement(e: Entry, options: Options, host: Host): string {
    RenderElement("url", UrlChildren(ResolveEntry(e, options), host), IsPretty(options))
  }

  /** The per-entry rendering step of the generator's inner loop. */
  function UrlRenderer(options: Options, host: Host): Entry -> string {
    e => UrlElement(e, options, host)
  }

  /** The `url` elements of a list of entries, one per entry, in order. */
  function UrlElements(entries: seq<Entry>, options: Options, host: Host): (r: seq<string>)
    ensures |r| == |entries|
    ensures forall i :: 0 <= i < |entries| ==> r[i] == UrlElement(entries[i], options, host)
  {
    MapSeq(entries, UrlRenderer(options, host))
  }

  /** The document step after the inner loop: a `urlset` around the page's
      elements. */
  function UrlsetWrapper(pretty: bool): seq<string> -> string {
    elements => RenderDocument(UrlsetOpen, UrlsetClose, elements, pretty)
  }

  /** The `urlset` document of one page of entries. */
  function UrlsetDocument(entries: seq<Entry>, options: Options, host: Host): string {
    UrlsetWrapper(IsPretty(options))(UrlElements(entries, options, host))
  }

  // ---- generateSitemaps ---------------------------------------------------

  /** `generateSitemaps(urls, options)`: one `urlset` document per page, as
      many documents as `ceil(|urls| / 50000)` (none for no entries), and
      document `k` holding the `url` elements of exactly the entries of page
      `k`, in input order. */
  method GenerateSitemaps(urls: seq<Entry>, options: Options, host: Host) returns (sitemaps: seq<string>)
    ensures |urls| == 0 ==> sitemaps == []
    ensures |sitemaps| == PageCount(|urls|) &&
      forall k :: 0 <= k < |sitemaps| ==> sitemaps[k] == UrlsetDocument(Page(urls, k), options, host)
  {
    sitemaps := RenderPages(urls, UrlRenderer(options, host), UrlsetWrapper(IsPretty(options)));
  }

  // ---- generateSitemapsIndex ----------------------------------------------

  /** The children of the `sitemap` element of one file: its location under
      the trimmed base and the shared modification time. The location is
      joined as given: no leading slash is dropped and, unlike a `url`
      location, it is not passed through `formatUrlLoc`. */
  function SitemapChildren(filename: string, options: Options, lastmodText: string): (r: seq<Child>)
    ensures |r| == 2 && RanksIncrease(ChildTags(r))
    ensures TextOf(r, "loc") == Some(JoinPath(BaseUrl(options), filename))
    ensures TextOf(r, "lastmod") == Some(lastmodText)
  {
    [Child("loc", JoinPath(BaseUrl(options), filename)), Child("lastmod", lastmodText)]
  }

  function SitemapElement(filename: string, options: Options, lastmodText: string): string {
    RenderElement("sitemap", SitemapChildren(filename, options, lastmodText), IsPretty(options))
  }

  /** One `sitemap` element per file name, in order, all with the same
      `lastmod` text. */
  function IndexElements(filenames: seq<string>, options: Options, lastmodText: string): (r: seq<string>)
    ensures |r| == |filenames|
    ensures forall i :: 0 <= i < |r| ==> r[i] == SitemapElement(filenames[i], options, lastmodText)
  {
    seq(|filenames|, i requires 0 <= i < |filenames| => SitemapElement(filenames[i], options, lastmodText))
  }

  /** `generateSitemapsIndex(filenames, options, lastmod)`: nothing for zero
      or one file; otherwise a `sitemapindex` document of the elements of
      the files, each with the file's location and the same `lastmod` text.
      The clock read that defaults `lastmod` in the source is a parameter
      here. */
  function GenerateSitemapsIndex(filenames: seq<string>, options: Options, lastmod: Lastmod, host: Host): (r: Option<string>)
    ensures r.None? <==> |filenames| <= 1
    ensures r.Some? ==>
      var elements := IndexElements(filenames, options, host.toISOString(lastmod));
      r.value == RenderDocument(SitemapIndexOpen, SitemapIndexClose, elements, IsPretty(options))
  {
    if |filenames| <= 1 then None
    else
      var elements := IndexElements(filenames, options, host.toISOString(lastmod));
      Some(RenderDocument(SitemapIndexOpen, SitemapIndexClose, elements, IsPretty(options)))
  }

  // ---- file names ---------------------------------------------------------

  /** `sitemap-part-NN.xml` for the page at `index` (counted from 0). */
  function PartFilename(index: nat): string {
    "sitemap-part-" + Decimal.PadStart(Decimal.ToDecimal(index + 1), 2, '0') + ".xml"
  }

  /** A part name is `sitemap-part-`, then at least two digits that read
      as the page number counted from 1, then `.xml`. */
  lemma PartFilenameShape(index: nat)
    ensures var name := PartFilename(index);
      && |name| >= 19
      && name[..13] == "sitemap-part-"
      && name[|name| - 4..] == ".xml"
      && Decimal.AllDigits(name[13..|name| - 4])
      && Decimal.ParseDecimal(name[13..|name| - 4]) == index + 1
  {
    var digits := Decimal.PadStart(Decimal.ToDecimal(index + 1), 2, '0');
    var name := PartFilename(index);
    Decimal.PaddedDecimalValue(index + 1, 2);
    assert name == "sitemap-part-" + digits + ".xml";
    assert name[13..|name| - 4] == digits;
  }

  /** Two pages never share a part file name: the number in the name reads
      back as the page number. */
  lemma PartFilenameInjective(i: nat, j: nat)
    requires PartFilename(i) == PartFilename(j)
    ensures i == j
  {
    var a := Decimal.PadStart(Decimal.ToDecimal(i + 1), 2, '0');
    var b := Decimal.PadStart(Decimal.ToDecimal(j + 1), 2, '0');
    assert a == b by {
      Text.CancelPrefixSuffix("sitemap-part-", a, b, ".xml");
    }
    Decimal.PaddedDecimalInjective(i + 1, j + 1, 2);
  }

  /** The file names `writeSitemaps` gives to `count` pages: `sitemap.xml`
      for a single page, `sitemap-part-NN.xml` otherwise. */
  function SitemapFilenames(count: nat): (r: seq<string>)
    ensures |r| == count
    ensures count == 1 ==> r == ["sitemap.xml"]
    ensures count != 1 ==> forall i :: 0 <= i < count ==> r[i] == PartFilename(i)
  {
    if count == 1 then ["sitemap.xml"]
    else seq(count, i requires 0 <= i < count => PartFilename(i))
  }

  /** A part file name is never the index's `sitemap-index.xml`. */
  lemma PartFilenameNotIndex(i: nat)
    ensures PartFilename(i) != "sitemap-index.xml"
  {
    var name := PartFilename(i);
    assert name[8] == 'p';
  }

  /** The file names are pairwise distinct and never the index's
      `sitemap-index.xml`, so no write overwrites another. */
  lemma SitemapFilenamesDistinct(count: nat)
    ensures forall i, j :: 0 <= i < j < count ==> SitemapFilenames(count)[i] != SitemapFilenames(count)[j]
    ensures forall i :: 0 <= i < count ==> SitemapFilenames(count)[i] != "sitemap-index.xml"
  {
    var r := SitemapFilenames(count);
    if count != 1 {
      forall i, j | 0 <= i < j < count
        ensures r[i] != r[j]
      {
        if r[i] == r[j] {
          PartFilenameInjective(i, j);
        }
      }
      forall i | 0 <= i < count
        ensures r[i] != "sitemap-index.xml"
      {
        PartFilenameNotIndex(i);
      }
    }
  }

  /** An index is written exactly when the entries need more than one
      sitemap, that is when there are more than 50,000 of them. */
  lemma IndexWrittenIffSeveralPages(urls: seq<Entry>, options: Options, lastmod: Lastmod, host: Host)
    ensures GenerateSitemapsIndex(SitemapFilenames(PageCount(|urls|)), options, lastmod, host).Some?
            <==> |urls| > MaxUrlsInSitemap
  {
  }
}
