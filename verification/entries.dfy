/** The data model of the serializer: URL entries with their optional
    metadata, the generation options, and the host conversions the model
    takes as parameters. */
module Entries {
  import opened Wrappers

  /** `SitemapUrlChangefreq`. */
  datatype Changefreq = Always | Hourly | Daily | Weekly | Monthly | Yearly | Never

  /** `SitemapUrlLastmod`: a `Date` (its time value in milliseconds), a number
      of milliseconds, or a date string. */
  datatype Lastmod = LastmodDate(time: int) | LastmodNumber(ms: real) | LastmodString(text: string)

  /** `SitemapUrlPriority`: a number or a string. */
  datatype Priority = PriorityNumber(value: real) | PriorityString(text: string)

  /** An optional key of an entry record: the key is absent, or present with
      a value that may be `undefined` (`Present(None)`). */
  datatype Field<T> = Absent | Present(value: Option<T>)

  /** An element of the `urls` array: a bare location string, or a
      `SitemapUrl` record. */
  datatype Entry =
    | Bare(loc: string)
    | Full(loc: string, lastmod: Field<Lastmod>, priority: Field<Priority>, changefreq: Field<Changefreq>)

  /** `options.defaults`; a missing `defaults` object is the record of
      three `None`s. */
  datatype Defaults = Defaults(lastmod: Option<Lastmod>, priority: Option<Priority>, changefreq: Option<Changefreq>)

  /** `Partial<Options>`: every key may be missing (`None`). */
  datatype Options = Options(defaults: Defaults, baseUrl: Option<string>, trailingSlash: Option<bool>, pretty: Option<bool>)

  /** The conversions the serializer leaves to the JavaScript host:
      `Number::toString` for numeric priorities other than 0 and 1, and
      `Date.prototype.toISOString` after `new Date(lastmod)`. */
  datatype Host = Host(numberToString: real -> string, toISOString: Lastmod -> string)

  /** `typeof url === 'string' ? { loc: url } : url`: a bare location is a
      record with no optional key. */
  function AsRecord(e: Entry): (r: Entry)
    ensures r.Full? && r.loc == e.loc
    ensures e.Full? ==> r == e
    ensures e.Bare? ==> r.lastmod.Absent? && r.priority.Absent? && r.changefreq.Absent?
  {
    match e
    case Bare(loc) => Full(loc, Absent, Absent, Absent)
    case Full(_, _, _, _) => e
  }

  /** `'key' in url ? url.key : options.defaults?.key ?? undefined`: a present
      key wins, whatever its value; only an absent key falls back to the
      default. */
  function ResolveField<T>(field: Field<T>, default: Option<T>): (r: Option<T>)
    ensures field.Present? ==> r == field.value
    ensures field.Absent? ==> r == default
  {
    match field
    case Present(v) => v
    case Absent => default
  }

  /** An entry with its location and its three optional fields resolved. */
  datatype Resolved = Resolved(loc: string, lastmod: Option<Lastmod>, priority: Option<Priority>, changefreq: Option<Changefreq>)

  /** Field resolution of one entry against the defaults (the location is
      taken as it is; joining and the slash policy come later). Presence, not
      truthiness, decides: an entry's own value is kept even when it is 0 or
      `undefined`, and only a missing key, or a bare string, takes the
      default. */
  function ResolveFields(e: Entry, defaults: Defaults): (r: Resolved)
    ensures r.loc == e.loc
    ensures e.Full? && e.lastmod.Present? ==> r.lastmod == e.lastmod.value
    ensures e.Full? && e.priority.Present? ==> r.priority == e.priority.value
    ensures e.Full? && e.changefreq.Present? ==> r.changefreq == e.changefreq.value
    ensures (e.Bare? || e.lastmod.Absent?) ==> r.lastmod == defaults.lastmod
    ensures (e.Bare? || e.priority.Absent?) ==> r.priority == defaults.priority
    ensures (e.Bare? || e.changefreq.Absent?) ==> r.changefreq == defaults.changefreq
  {
    var u := AsRecord(e);
    Resolved(u.loc,
             ResolveField(u.lastmod, defaults.lastmod),
             ResolveField(u.priority, defaults.priority),
             ResolveField(u.changefreq, defaults.changefreq))
  }
}
