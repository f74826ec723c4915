/** The leaf formatters of the serializer: location, priority and change
    frequency text. */
module Format {
  import opened Wrappers
  import Uri
  import Xml
  import opened Entries

  /** `formatUrlLoc`: `encodeURI`, then the entity replacement table applied
      to `& ' " < >`. */
  function FormatUrlLoc(loc: string): string {
    Xml.Escape(Uri.EncodeURI(loc))
  }

  /** The `loc` text is markup-safe: no raw `' " < >`, and every `&` opens an
      entity reference. Un-escaping the references gives back exactly
      `encodeURI(loc)`, and percent-decoding that gives back `loc`. */
  lemma FormatUrlLocReadsBack(loc: string)
    ensures Xml.NoMarkupCharacters(FormatUrlLoc(loc))
    ensures Xml.AmpersandsOpenReferences(FormatUrlLoc(loc))
    ensures Xml.Unescape(FormatUrlLoc(loc)) == Uri.EncodeURI(loc)
    ensures Uri.PercentDecode(Xml.Unescape(FormatUrlLoc(loc))) == Some(loc)
  {
    var encoded := Uri.EncodeURI(loc);
    Xml.EscapeWellFormed(encoded);
    Xml.UnescapeEscape(encoded);
    Uri.DecodeEncodeURI(loc);
  }

  /** Distinct locations always get distinct `loc` texts. */
  lemma FormatUrlLocInjective(a: string, b: string)
    requires FormatUrlLoc(a) == FormatUrlLoc(b)
    ensures a == b
  {
    FormatUrlLocReadsBack(a);
    FormatUrlLocReadsBack(b);
  }

  /** `formatUrPriority`: the numbers 0 and 1 are written with a decimal
      (`0.0`, `1.0`); any other number goes through the host's
      `Number::toString`, and a string is kept verbatim (so `"0"` stays `"0"`). */
  function FormatPriority(p: Priority, host: Host): (r: string)
    ensures p == PriorityNumber(0.0) ==> r == "0.0"
    ensures p == PriorityNumber(1.0) ==> r == "1.0"
    ensures p.PriorityNumber? && p.value != 0.0 && p.value != 1.0 ==> r == host.numberToString(p.value)
    ensures p.PriorityString? ==> r == p.text
  {
    match p
    case PriorityNumber(x) => if x == 0.0 then "0.0" else if x == 1.0 then "1.0" else host.numberToString(x)
    case PriorityString(s) => s
  }

  /** With a number formatter that tells `x` and `y` apart and writes
      neither as `0.0` or `1.0` (`Number::toString` never writes a trailing
      `.0`), two numeric priorities are written differently unless they are
      equal: the special cases for 0 and 1 collide with no other number. */
  lemma FormatPriorityNumbersInjective(x: real, y: real, host: Host)
    requires x != y ==> host.numberToString(x) != host.numberToString(y)
    requires host.numberToString(x) != "0.0" && host.numberToString(x) != "1.0"
    requires host.numberToString(y) != "0.0" && host.numberToString(y) != "1.0"
    requires FormatPriority(PriorityNumber(x), host) == FormatPriority(PriorityNumber(y), host)
    ensures x == y
  {
  }

  /** The change frequency keyword, written as given. */
  function ChangefreqText(c: Changefreq): (r: string)
    ensures |r| > 0
    ensures forall i :: 0 <= i < |r| ==> 'a' <= r[i] <= 'z'
  {
    match c
    case Always => "always"
    case Hourly => "hourly"
    case Daily => "daily"
    case Weekly => "weekly"
    case Monthly => "monthly"
    case Yearly => "yearly"
    case Never => "never"
  }

  /** The seven keywords are distinct, so the written text determines the
      frequency. */
  lemma ChangefreqTextInjective(a: Changefreq, b: Changefreq)
    requires ChangefreqText(a) == ChangefreqText(b)
    ensures a == b
  {
    var x, y := ChangefreqText(a), ChangefreqText(b);
    assert x[0] == y[0] && x[1] == y[1];
  }
}
