# planisphere sitemap serializer, in Dafny

A model of the serializer at the heart of planisphere, a sitemap generator.

- `generateSitemaps` turns a list of URL entries into `urlset` XML documents of at most 50,000 URLs each. An entry is a bare location string or a record with optional `lastmod`, `priority` and `changefreq`.
- `generateSitemapsIndex` lists several such documents in a `sitemapindex`.
- `writeSitemaps` names the page files.

The model covers:

- the location rules: joining to a trimmed base URL, dropping one leading slash, and the tri-state trailing-slash option;
- how each optional field is chosen from the entry or from the defaults, by key presence;
- the fixed order of the child elements;
- the leaf formatters: `encodeURI` followed by the XML entity table, the priority text, and `<tag>…</tag>`;
- pretty printing;
- the pagination into pages of 50,000;
- the index and its "two files or more" rule;
- the page file names.

Modules, in dependency order:

| module | file | contents |
|---|---|---|
| `Wrappers` | wrappers.dfy | `Option` |
| `Text` | text.dfy | `join`, `filter(Boolean)`, slash trimming |
| `Decimal` | decimal.dfy | `String(n)` for naturals, `padStart`, a decimal parser |
| `Uri` | uri.dfy | `encodeURI` (the ECMA-262 clause "encodeURI ( uri )", with UTF-8 octets) and a percent-decoder that undoes it |
| `Xml` | xml.dfy | the five predefined entities of XML 1.0, the replacement step and an un-escaper |
| `Entries` | entries.dfy | entries, options and defaults, and field resolution |
| `Format` | format.dfy | `formatUrlLoc`, `formatUrPriority` and the change frequency text |
| `Pagination` | pagination.dfy | page count, pages, and the two nested loops as a method |
| `Sitemap` | sitemap.dfy | locations, `url` children, documents, `generateSitemaps`, `generateSitemapsIndex`, file names |
| `Scenarios` | scenarios.dfy | cases of the repository's test suite, stated on the model |

Host behaviour is not modelled; it becomes a `Host` parameter. This covers `Date.prototype.toISOString` after `new Date(lastmod)`, and `Number::toString` for priorities other than 0 and 1. The clock read that defaults the index's `lastmod` becomes a parameter too.

## Model

| member | source | states |
|---|---|---|
| Sitemap.GenerateSitemaps | src/index.ts:82-124 | one document per page, `ceil(n / 50000)` of them and none for no entries; document `k` is the `urlset` of exactly the entries of page `k`, in order |
| Pagination.RenderPages | src/index.ts:90-121 | the nested loops: the outer one runs once per page, the inner one renders the items of that page in order, and each page's items are wrapped into one document |
| Pagination.PageCount | src/index.ts:91 | the number of pages is the ceiling of `n / 50000`: it covers all `n` entries and leaves no page empty; zero exactly for no entries |
| Pagination.Page | src/index.ts:93 | a page holds between 1 and 50,000 entries, and every page but the last is full |
| Pagination.SinglePage | src/index.ts:91-93 | up to 50,000 entries make exactly one page, holding all of them |
| Pagination.PageShift | src/index.ts:91-93 | page `k` of a list longer than a page is page `k-1` of what follows its first page |
| Pagination.CeilingUnique | src/index.ts:91 | only one count covers `n` entries with no empty page, so the page count is well defined |
| Pagination.PagesPartitionInput | src/index.ts:91-93 | the pages, concatenated, are the input: every entry is on exactly one page, in its original position |
| Pagination.ChunksArePages | src/index.ts:91-93 | taking full pages off the front gives the same pages as the index arithmetic of the loops |
| Pagination.FlattenChunks | src/index.ts:91-93 | the pages taken off the front, concatenated, are the input |
| Sitemap.BaseUrl | src/index.ts:83 | the base loses its whole trailing run of slashes and nothing else; no base, or an empty one, gives the empty string |
| Text.TrimTrailingSlashes | src/index.ts:83 | the result is a prefix of the input that does not end in `/`, and only slashes were removed |
| Text.StripLeadingSlash | src/index.ts:96 | at most one leading `/` is removed, and one is removed exactly when the location starts with `/` |
| Text.NonEmpty | src/index.ts:96 | `filter(Boolean)` keeps exactly the non-empty strings of the input and drops every empty one; an input without empty strings comes back unchanged |
| Text.NonEmptySingle | src/index.ts:96 | `filter(Boolean)` on one string drops it when it is empty and keeps it otherwise |
| Text.NonEmptyConcat | src/index.ts:96 | `filter(Boolean)` works part by part: filtering a concatenation is the concatenation of the filtered halves, so the kept strings keep their order and multiplicity |
| Text.JoinNonEmptyPair | src/index.ts:96 | joining the non-empty parts of `[a, b]` with a separator gives `b` when `a` is empty, `a` when `b` is empty, and `a + sep + b` otherwise |
| Sitemap.JoinPath | src/index.ts:96 | an empty base or path is dropped; otherwise the two are joined with exactly one `/` |
| Sitemap.ApplyTrailingSlash | src/index.ts:97-101 | `true` makes the location end in `/`, adding one only when needed; `false` removes exactly one trailing `/` when there is one; no option leaves the location alone |
| Sitemap.ForceTrailingSlashIdempotent | src/index.ts:97-98 | forcing the trailing slash twice is the same as once |
| Sitemap.TrailingSlashRoundTrip | src/index.ts:97-101 | removing the slash that `true` added gives the location back |
| Sitemap.Location | src/index.ts:96-101 | the written location is the stripped path joined to the trimmed base, then the slash policy |
| Entries.AsRecord | src/index.ts:94 | a bare string becomes a record with its location and no optional key; a record is kept |
| Entries.ResolveField | src/index.ts:103-105 | a present key wins whatever its value, even `undefined`; only an absent key takes the default |
| Entries.ResolveFields | src/index.ts:94-105 | the three fields of an entry: its own value when the key is present, otherwise the default; a bare string takes all three defaults |
| Sitemap.ResolveEntry | src/index.ts:94-105 | the resolved entry has the written location; each of `lastmod`, `priority` and `changefreq` is the entry's own value when its key is present (even `undefined`), and the option's default when the key is absent or the entry is a bare string |
| Sitemap.UrlChildren | src/index.ts:107-112 | `loc` always comes first; the children follow the fixed order `loc`, `lastmod`, `priority`, `changefreq`; a child is present exactly when its value is defined, and holds its formatted text |
| Sitemap.UrlChildrenFacts | src/index.ts:107-112 | for the four slots in order, the children keep the slot order, start with `loc`, and give each tag the slot's value |
| Sitemap.CollectKeepsOrder | src/index.ts:108-111 | dropping the undefined children keeps the others in order |
| Sitemap.CollectText | src/index.ts:108-111 | with distinct tags, the text under a tag is that slot's value, or nothing when it is undefined |
| Sitemap.CollectMissingTag | src/index.ts:108-111 | a tag no slot carries has no child |
| Sitemap.UrlElements | src/index.ts:93-113 | one `url` element per entry of the page, in order |
| Sitemap.UrlChildrenLocOnly | src/index.ts:107-112 | an entry without `lastmod`, `priority` and `changefreq` has its formatted `loc` as its only child |
| Sitemap.IsPretty | src/index.ts:85 | pretty printing is on only when the option is explicitly `true` |
| Sitemap.FlatChildren | src/index.ts:107-112 | without pretty printing the children are their `<tag>text</tag>` elements one after the other |
| Sitemap.FlatElement | src/index.ts:107-112 | without pretty printing an element is `<name>`, each child's `<tag>text</tag>` in order, then `</name>` |
| Sitemap.FlatDocument | src/index.ts:115-120 | without pretty printing a document is the XML declaration, the opening tag, the elements with nothing in between, and the closing tag |
| Sitemap.PrettyChildren | src/index.ts:107-112 | pretty printing only adds tabs and line feeds around the children: removing them gives the flat rendering |
| Sitemap.PrettyElement | src/index.ts:107-112 | pretty printing only adds tabs and line feeds to an element: removing them gives the flat element |
| Sitemap.PrettyDocument | src/index.ts:115-120 | pretty printing only adds line feeds to a document: removing the layout from the pretty document of the pretty elements gives the flat document of the flat elements |
| Sitemap.PrettyChildrenForm | src/index.ts:107-112 | in pretty mode every child is a line of its own: two tabs, its `<tag>text</tag>`, a line feed, in order |
| Sitemap.PrettyElementForm | src/index.ts:107-112 | in pretty mode an element is a tab, `<name>` and a line feed, then the children's lines, then a tab and `</name>` |
| Sitemap.PrettyDocumentForm | src/index.ts:115-120 | in pretty mode the declaration, the opening tag, each element and the closing tag are separated by line feeds |
| Sitemap.SitemapChildren | src/index.ts:72-75 | a `sitemap` element has two children, `loc` then `lastmod`: the file name joined to the trimmed base, not escaped, and the shared `lastmod` text |
| Format.FormatUrlLocReadsBack | src/index.ts:134-136 | the `loc` text has no raw `' " < >`, and every `&` in it opens an entity reference; un-escaping gives `encodeURI(loc)` back exactly, and percent-decoding that gives `loc` |
| Format.FormatUrlLocInjective | src/index.ts:134-136 | two different locations never get the same `loc` text |
| Xml.Replacement | src/index.ts:126-132 | the table has an entity exactly for `& ' " < >` |
| Xml.EscapeCharEntities | src/index.ts:126-135 | `&`, `'`, `"`, `<` and `>` become `&amp;`, `&apos;`, `&quot;`, `&lt;` and `&gt;`, the predefined entities of section 4.6 of XML 1.0 |
| Xml.EscapePlainText | src/index.ts:135 | text without any of `& ' " < >` is left as it is |
| Xml.EscapeWellFormed | src/index.ts:135 | escaped text holds none of `' " < >`, and each of its `&` opens one of the five references |
| Xml.UnescapeEscape | src/index.ts:126-135 | un-escaping undoes the replacement for every string |
| Xml.EscapeConcat | src/index.ts:135 | the replacement works one character at a time: it distributes over concatenation |
| Xml.XmlTag | src/index.ts:153-155 | the result is the start tag, then the contents unchanged, then the end tag, and can be read back off it |
| Uri.EncodeURI | src/index.ts:135 | the result only holds characters of the unescaped set and `%`; all-unescaped text is unchanged; the result is never shorter |
| Uri.HexDigit | src/index.ts:135 | an escape's hexadecimal digits are upper case, as the clause "Encode ( string, extraUnescaped )" of ECMA-262 writes them, and read back as the octet's value |
| Uri.EncodeChar | src/index.ts:135 | a character is copied exactly when it is unescaped, otherwise it is written as `%` escapes |
| Uri.Utf8 | src/index.ts:135 | a character is written as the shortest UTF-8 form of RFC 3629 section 3: the number of octets is fixed by the code point (1 below 0x80, 2 below 0x800, 3 below 0x10000, else 4), an ASCII character is its own octet, the lead octet marks the length, continuation octets lie in 0x80-0xBF, and the 6-bit groups put together give back the code point |
| Uri.EncodeURIConcat | src/index.ts:135 | `encodeURI` works one character at a time: it distributes over concatenation |
| Uri.DecodeEncodeURI | src/index.ts:135 | percent-decoding gives back the input of `encodeURI`, for every string |
| Uri.DecodeEncodedChar | src/index.ts:135 | the UTF-8 escapes of one character decode back to that character and take up three characters per octet |
| Format.FormatPriority | src/index.ts:142-151 | 0 is written `0.0` and 1 is written `1.0`; other numbers go through the host's `Number::toString`; a string is written verbatim |
| Format.FormatPriorityNumbersInjective | src/index.ts:142-151 | when the number formatter tells the two numbers apart and writes neither as `0.0` or `1.0`, different numeric priorities are written differently: the special cases for 0 and 1 collide with no other number |
| Format.ChangefreqTextInjective | src/index.ts:31 | the seven change frequency keywords are distinct |
| Format.ChangefreqText | src/index.ts:111 | the change frequency is written as its keyword, a non-empty run of lower-case letters, so it needs no escaping |
| Sitemap.IndexElements | src/index.ts:72-77 | one `sitemap` element per file name, in order, all with the same `lastmod` text |
| Sitemap.GenerateSitemapsIndex | src/index.ts:62-80 | no index for zero or one file name; otherwise the `sitemapindex` document of the files' elements |
| Sitemap.IndexWrittenIffSeveralPages | src/index.ts:53-58 | an index is produced exactly when the entries need more than one page, that is more than 50,000 entries |
| Sitemap.SitemapFilenames | src/index.ts:53 | one name per page: `sitemap.xml` for a single page, `sitemap-part-NN.xml` otherwise |
| Sitemap.SitemapFilenamesDistinct | src/index.ts:53-58 | the page file names are pairwise distinct and never `sitemap-index.xml`, so no file overwrites another |
| Sitemap.PartFilenameInjective | src/index.ts:53 | two pages never share a part file name |
| Sitemap.PartFilenameNotIndex | src/index.ts:53-58 | a part file name is never the index's name |
| Sitemap.PartFilenameShape | src/index.ts:53 | a part name is `sitemap-part-`, at least two digits that read as the page number counted from 1, and `.xml` |
| Decimal.ToDecimal | src/index.ts:53 | `String(n)` is a non-empty string of digits with no leading zero |
| Decimal.PadStart | src/index.ts:53 | `padStart` gives the requested width, the original string at the end, and fill characters in front |
| Decimal.ParseToDecimal | src/index.ts:53 | the numeral reads back as the number |
| Decimal.PaddedDecimalValue | src/index.ts:53 | zero padding does not change the value the numeral reads back as |
| Decimal.PaddedDecimalInjective | src/index.ts:53 | different numbers have different zero-padded numerals |
| Scenarios.BaseUrlJoins | test/index.test.ts:20-23 | `''` and `'about'` under `https://example.com` give the bare base and `base/about` |
| Scenarios.SimpleSitemap | test/index.test.ts:10-13 | two bare absolute locations without options make one page whose document is the declaration, the `urlset` tag and `<url><loc>…</loc></url>` for each location with nothing in between |
| Scenarios.SlashedBaseUrlJoins | test/index.test.ts:28-29 | under a base with a trailing slash, `'/'` and `'/about'` give no doubled slash |
| Scenarios.BaseUrlKeepsPortAndSlash | test/index.test.ts:31-56 | the base's port is kept, and so is the location's own trailing slash when no policy is set |
| Scenarios.TrailingSlashPolicies | test/index.test.ts:42-94 | the three slash policies on absolute locations |
| Scenarios.PrettySitemap | test/index.test.ts:223-241 | `/` and `/about` under `https://example.com` with a default priority of 0.7 and pretty printing give one page: the declaration, the `urlset` tags and each `url` element on lines of their own, the `url` tags after one tab and the `loc` and `priority` children after two |
| Scenarios.PrettyUrlElement | test/index.test.ts:231-238 | a pretty `url` element with a `loc` and a `priority` child: `\t<url>`, `\t\t<loc>…</loc>`, `\t\t<priority>…</priority>`, `\t</url>`, separated by line feeds |
| Scenarios.PrettyIndexElement | test/index.test.ts:274-291 | with pretty printing, each `sitemap` element of an index is `\t<sitemap>`, `\t\t<loc>…</loc>`, `\t\t<lastmod>…</lastmod>`, `\t</sitemap>`, separated by line feeds, for every file name, base and time |
| Scenarios.LocPriorityChildren | src/index.ts:107-112 | an entry whose only optional value is a priority has exactly a `loc` child and then a `priority` child |
| Scenarios.EncodesQuoteAndAmpersand | test/index.test.ts:96-99 | `"` becomes `%22`, and `&` becomes `&amp;` |
| Scenarios.EncodesNonAscii | test/index.test.ts:101-102 | `é` becomes its two UTF-8 octets `%C3%A9` |
| Scenarios.PriorityText | test/index.test.ts:193-210 | whole-number priorities get a decimal |
| Scenarios.ExplicitPriorityBeatsDefault | test/index.test.ts:145-167 | an entry's own priority, even 0 or `undefined`, beats the default; a bare location takes the default |
| Scenarios.HundredThousandAndOne | test/index.test.ts:212-221 | 100,001 entries make pages of 50,000, 50,000 and 1 entries, the last holding the last entry |
| Scenarios.IndexNeedsTwoFiles | test/index.test.ts:247-262 | no index for zero or one file; an index for two |
| Scenarios.TwoPageFilenames | test/index.test.ts:333-343 | two pages are named `sitemap-part-01.xml` and `sitemap-part-02.xml` |
| Scenarios.IndexLocationsAreNotEscaped | src/index.ts:74 | an index location keeps a raw `&` that opens no reference, while a `url` location never does |

## Left out

- File writes, `path.resolve` and `Promise.all` in `writeSitemaps` are I/O and are not modelled. Only the file names and the "index when more than one page" decision are modelled.
- `formatUrlLastmod` is not modelled. It is `new Date(lastmod).toISOString()`, host date arithmetic, so it is the `Host.toISOString` parameter. Invalid dates, which throw in the host, are not modelled.
- The `new Date()` default of the index's `lastmod` reads the clock. It is a parameter.
- `String(priority)` for numbers other than 0 and 1 is not modelled. It is the host's `Number::toString`, the `Host.numberToString` parameter. Priorities are modelled as reals, so `NaN`, infinities and `-0` are not represented.
- The `URIError` that `encodeURI` throws on a lone surrogate is not modelled. A Dafny `char` is a Unicode scalar value, so such strings cannot be formed.
- `Math.ceil(urls.length / 50000)` is modelled as integer ceiling division. Floating-point division is not modelled; it gives the same value for every array length.
- `null` values in entries or options are not modelled, because the source's types exclude them. A key present with `undefined` is modelled as `Present(None)`.
- `defaults.loc` is not modelled; the source never reads it.
- The test suite's exact expected text for pretty printing is not reproduced. The two pretty-printing tests list the expected lines. test/helpers.ts defines a one-argument `wrapSitemap` that joins them with nothing, and no `wrapSitemapIndex`. The model follows src/index.ts, which puts a line feed between the lines; Scenarios.PrettySitemap and Scenarios.PrettyIndexElement state the code's output.
- Sitemap.GenerateSitemapsIndex: for the element of each file, the contract only names the document built from `IndexElements`. What each element holds is stated by Sitemap.IndexElements, Sitemap.SitemapChildren and the scenario lemmas.
- Decimal.ToDecimal: `String(n)` is modelled only for natural numbers. Page numbers are the only numbers the source writes this way.
