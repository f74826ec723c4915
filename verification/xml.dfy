/** The five predefined entities of XML 1.0 (section 4.6 of XML 1.0) as the
    serializer's replacement table uses them, the escaping that applies that
    table to every character, an un-escaper that reverses it, and element
    wrapping. */
module Xml {
  import opened Wrappers
  import Text

  /** The replacement table: character and entity name, in the order the
      source lists them. */
  const Replacements: seq<(char, string)> :=
    [('&', "amp"), ('\'', "apos"), ('"', "quot"), ('<', "lt"), ('>', "gt")]

  /** `&name;` */
  function Reference(name: string): string {
    "&" + name + ";"
  }

  function LookupChar(table: seq<(char, string)>, c: char): Option<string>
    decreases |table|
  {
    if |table| == 0 then None
    else if table[0].0 == c then Some(table[0].1)
    else LookupChar(table[1..], c)
  }

  /** The entity name the table gives for `c`, if any. */
  function Replacement(c: char): (r: Option<string>)
    ensures r.Some? <==> c in "&'\"<>"
  {
    LookupChar(Replacements, c)
  }

  function LookupReference(table: seq<(char, string)>, s: string): Option<(char, nat)>
    decreases |table|
  {
    if |table| == 0 then None
    else if Text.StartsWith(s, Reference(table[0].1)) then Some((table[0].0, |Reference(table[0].1)|))
    else LookupReference(table[1..], s)
  }

  /** The character whose entity reference opens `s`, with the reference's
      length. */
  function ReferenceAt(s: string): (r: Option<(char, nat)>)
    ensures r.Some? ==> r.value.1 <= |s| && r.value.1 > 0
  {
    LookupReference(Replacements, s)
  }

  /** The replacement callback of the source's regular-expression replace: a
      character of the table becomes its reference, any other stays. */
  function EscapeChar(c: char): string {
    match Replacement(c)
    case Some(name) => Reference(name)
    case None => [c]
  }

  /** The table writes each of the five characters as the predefined
      entity XML 1.0 gives it (section 4.6): `&amp;`, `&apos;`, `&quot;`,
      `&lt;` and `&gt;`. */
  lemma EscapeCharEntities()
    ensures EscapeChar('&') == "&amp;"
    ensures EscapeChar('\'') == "&apos;"
    ensures EscapeChar('"') == "&quot;"
    ensures EscapeChar('<') == "&lt;"
    ensures EscapeChar('>') == "&gt;"
  {
    assert Replacement('&') == Some("amp");
    assert Replacement('\'') == Some("apos");
    assert Replacement('"') == Some("quot");
    assert Replacement('<') == Some("lt");
    assert Replacement('>') == Some("gt");
  }

  predicate NoMarkupCharacters(s: string) {
    forall i :: 0 <= i < |s| ==> s[i] !in "'\"<>"
  }

  /** Every `&` of `s` opens one of the five entity references. */
  predicate AmpersandsOpenReferences(s: string) {
    forall i :: 0 <= i < |s| && s[i] == '&' ==> ReferenceAt(s[i..]).Some?
  }

  /** Replaces each of `& ' " < >` by its entity reference, one character
      at a time. */
  function Escape(s: string): string
    decreases |s|
  {
    if |s| == 0 then "" else EscapeChar(s[0]) + Escape(s[1..])
  }

  /** Text free of `& ' " < >` is left as it is. */
  lemma {:induction false} EscapePlainText(s: string)
    requires forall i :: 0 <= i < |s| ==> s[i] !in "&'\"<>"
    ensures Escape(s) == s
    decreases |s|
  {
    if |s| > 0 {
      EscapePlainText(s[1..]);
      assert Replacement(s[0]).None?;
    }
  }

  /** The escaped text holds none of `' " < >`, and each of its `&` opens a
      reference. */
  lemma {:induction false} EscapeWellFormed(s: string)
    ensures NoMarkupCharacters(Escape(s))
    ensures AmpersandsOpenReferences(Escape(s))
    decreases |s|
  {
    if |s| > 0 {
      var head := EscapeChar(s[0]);
      var tail := Escape(s[1..]);
      EscapeWellFormed(s[1..]);
      EscapeCharShape(s[0], tail);
      ShiftedTail(head, tail);
      assert Escape(s) == head + tail;
    }
  }

  /** Replaces every entity reference of the table by its character. */
  function Unescape(s: string): string
    decreases |s|
  {
    if |s| == 0 then ""
    else
      match ReferenceAt(s)
      case Some((c, used)) => [c] + Unescape(s[used..])
      case None => [s[0]] + Unescape(s[1..])
  }

  /** The escape of one character, followed by anything, reads back as that
      character. */
  lemma EscapeCharShape(c: char, rest: string)
    ensures var e := EscapeChar(c);
      && |e| > 0
      && NoMarkupCharacters(e)
      && (e[0] == '&' ==> ReferenceAt(e + rest) == Some((c, |e|)))
      && (forall i :: 0 < i < |e| ==> e[i] != '&')
      && (e[0] != '&' ==> e == [c] && ReferenceAt(e + rest) == None)
  {
    if c in "&'\"<>" {
      ReferenceText(c);
      ReferenceShape(c, rest);
    } else {
      assert EscapeChar(c) == [c];
      assert (EscapeChar(c) + rest)[0] == c;
    }
  }

  /** The reference of a character of the table is `&`, a name of letters
      and `;`. */
  lemma ReferenceText(c: char)
    requires c in "&'\"<>"
    ensures var e := EscapeChar(c);
      && |e| > 0
      && e[0] == '&'
      && NoMarkupCharacters(e)
      && (forall i :: 0 < i < |e| ==> e[i] != '&')
  {
    EscapeCharEntities();
    if c == '&' {
      assert EscapeChar(c) == "&amp;";
    } else if c == '\'' {
      assert EscapeChar(c) == "&apos;";
    } else if c == '"' {
      assert EscapeChar(c) == "&quot;";
    } else if c == '<' {
      assert EscapeChar(c) == "&lt;";
    } else {
      assert EscapeChar(c) == "&gt;";
    }
  }

  /** The reference of a character of the table, followed by anything, is
      found again at the start. */
  lemma ReferenceShape(c: char, rest: string)
    requires c in "&'\"<>"
    ensures ReferenceAt(EscapeChar(c) + rest) == Some((c, |EscapeChar(c)|))
  {
    var e := EscapeChar(c);
    var s := e + rest;
    if c == '&' {
      assert s[..5] == "&amp;";
    } else if c == '\'' {
      assert s[..6] == "&apos;" && s[1] == 'a' && s[2] == 'p';
    } else if c == '"' {
      assert s[..6] == "&quot;" && s[1] == 'q';
    } else if c == '<' {
      assert s[..4] == "&lt;" && s[1] == 'l';
    } else {
      assert s[..4] == "&gt;" && s[1] == 'g';
    }
  }

  lemma ShiftedTail(head: string, tail: string)
    ensures forall i :: |head| <= i <= |head + tail| ==> (head + tail)[i..] == tail[i - |head|..]
  {
  }

  /** Un-escaping reads the escape of one character back as that character
      and goes on after it. */
  lemma EscapeCharReadsBack(c: char, rest: string)
    ensures Unescape(EscapeChar(c) + rest) == [c] + Unescape(rest)
  {
    var e := EscapeChar(c);
    if c in "&'\"<>" {
      ReferenceShape(c, rest);
      assert (e + rest)[|e|..] == rest;
    } else {
      assert e == [c];
      assert ReferenceAt(e + rest) == None by {
        assert (e + rest)[0] == c;
      }
      assert (e + rest)[1..] == rest;
    }
  }

  /** Un-escaping undoes escaping, for every string. */
  lemma {:induction false} UnescapeEscape(s: string)
    ensures Unescape(Escape(s)) == s
    decreases |s|
  {
    if |s| > 0 {
      EscapeUnfold(s);
      EscapeCharReadsBack(s[0], Escape(s[1..]));
      UnescapeEscape(s[1..]);
      assert s == [s[0]] + s[1..];
    }
  }

  /** One step of the replacement: the first character, then the rest. */
  lemma EscapeUnfold(s: string)
    requires |s| > 0
    ensures Escape(s) == EscapeChar(s[0]) + Escape(s[1..])
  {
  }

  /** Escaping works character by character: it distributes over
      concatenation. */
  lemma {:induction false} EscapeConcat(a: string, b: string)
    ensures Escape(a + b) == Escape(a) + Escape(b)
    decreases |a|
  {
    if |a| > 0 {
      EscapeUnfold(a + b);
      assert (a + b)[0] == a[0] && (a + b)[1..] == a[1..] + b;
      EscapeConcat(a[1..], b);
    } else {
      assert a + b == b;
    }
  }

  /** An `&` followed by anything but the first letter of an entity name
      opens no reference. */
  lemma NoReferenceAt(s: string)
    requires |s| >= 2 && s[0] == '&' && s[1] !in "aqlg"
    ensures ReferenceAt(s) == None
  {
  }

  /** `<tag>contents</tag>`, with no escaping: the tag and the contents can
      be read back off the result. */
  function XmlTag(tag: string, contents: string): (r: string)
    ensures |r| == |contents| + 2 * |tag| + 5
    ensures Text.StartsWith(r, "<" + tag + ">")
    ensures r[|tag| + 2..|r| - |tag| - 3] == contents
    ensures r[|r| - |tag| - 3..] == "</" + tag + ">"
  {
    "<" + tag + ">" + contents + "</" + tag + ">"
  }
}
