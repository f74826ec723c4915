/** String helpers standing for the JavaScript string and array built-ins
    the sitemap serializer uses: `Array.prototype.join`, `filter(Boolean)`,
    `endsWith` and the two slash-trimming regular expressions. */
module Text {

  /** `parts.join(sep)`: the parts in order, separated by `sep`. */
  function Join(parts: seq<string>, sep: string): string
    decreases |parts|
  {
    if |parts| == 0 then ""
    else if |parts| == 1 then parts[0]
    else parts[0] + sep + Join(parts[1..], sep)
  }

  /** Plain concatenation of the parts. */
  function Concat(parts: seq<string>): string
    decreases |parts|
  {
    if |parts| == 0 then "" else parts[0] + Concat(parts[1..])
  }

  lemma ConcatPair(a: string, b: string)
    ensures Concat([a, b]) == a + b
  {
    assert [a, b][1..] == [b];
    assert Concat([b]) == b + Concat([]);
  }

  /** Joining with the empty separator is plain concatenation. */
  lemma {:induction false} JoinNoSeparator(parts: seq<string>)
    ensures Join(parts, "") == Concat(parts)
    decreases |parts|
  {
    if |parts| > 1 {
      JoinNoSeparator(parts[1..]);
    }
  }

  /** `parts.filter(Boolean)` on an array of strings: the empty string is the only
      falsy string, so this keeps the non-empty parts in their order. */
  function NonEmpty(parts: seq<string>): (r: seq<string>)
    ensures forall i :: 0 <= i < |r| ==> r[i] != ""
    ensures |r| <= |parts|
    ensures forall s :: s in r <==> s in parts && s != ""
    ensures (forall i :: 0 <= i < |parts| ==> parts[i] != "") ==> r == parts
    decreases |parts|
  {
    if |parts| == 0 then []
    else if parts[0] == "" then NonEmpty(parts[1..])
    else [parts[0]] + NonEmpty(parts[1..])
  }

  predicate EndsWith(s: string, c: char) {
    |s| > 0 && s[|s| - 1] == c
  }

  predicate StartsWith(s: string, prefix: string) {
    |prefix| <= |s| && s[..|prefix|] == prefix
  }

  predicate AllSlashes(s: string) {
    forall i :: 0 <= i < |s| ==> s[i] == '/'
  }

  /** `s.replace(/\/+$/u, '')`: removes the whole run of `/` at the end of `s`.
      The result is the longest prefix of `s` that does not end in `/` and
      that is followed only by slashes. */
  function TrimTrailingSlashes(s: string): (r: string)
    ensures StartsWith(s, r)
    ensures !EndsWith(r, '/')
    ensures AllSlashes(s[|r|..])
    decreases |s|
  {
    if EndsWith(s, '/') then TrimTrailingSlashes(s[..|s| - 1]) else s
  }

  /** `s.replace(/^\//u, '')`: removes at most one leading `/`. */
  function StripLeadingSlash(s: string): (r: string)
    ensures s == r || s == "/" + r
    ensures s != r <==> |s| > 0 && s[0] == '/'
  {
    if |s| > 0 && s[0] == '/' then s[1..] else s
  }

  /** `filter(Boolean)` on one part: an empty part goes, any other stays. */
  lemma NonEmptySingle(s: string)
    ensures NonEmpty([s]) == if s == "" then [] else [s]
  {
    assert [s][1..] == [];
  }

  /** `filter(Boolean)` works part by part: it distributes over
      concatenation, so it keeps the non-empty parts in their order and
      with their multiplicity. */
  lemma {:induction false} NonEmptyConcat(a: seq<string>, b: seq<string>)
    ensures NonEmpty(a + b) == NonEmpty(a) + NonEmpty(b)
    decreases |a|
  {
    if |a| > 0 {
      assert (a + b)[0] == a[0];
      assert (a + b)[1..] == a[1..] + b;
      NonEmptyConcat(a[1..], b);
    } else {
      assert a + b == b;
    }
  }

  /** Joining two parts with `filter(Boolean).join(sep)` drops the empty
      ones and puts `sep` between the two only when both are non-empty. */
  lemma {:induction false} JoinNonEmptyPair(a: string, b: string, sep: string)
    ensures Join(NonEmpty([a, b]), sep) ==
            if a == "" then b else if b == "" then a else a + sep + b
  {
    var rest := NonEmpty([a, b][1..]);
    assert [a, b][1..] == [b];
    assert NonEmpty([b][1..]) == [];
    if b == "" {
      assert rest == [];
    } else {
      assert rest == [b];
    }
    if a != "" {
      assert NonEmpty([a, b]) == [a] + rest;
      if b != "" {
        assert [a] + rest == [a, b];
        assert [a, b][1..] == [b];
      }
    }
  }

  /** Strings that agree around their middles agree in their middles. */
  lemma CancelPrefixSuffix(p: string, a: string, b: string, x: string)
    requires p + a + x == p + b + x
    ensures a == b
  {
    var s := p + a + x;
    assert |a| == |b|;
    assert a == s[|p|..|p| + |a|];
    assert b == (p + b + x)[|p|..|p| + |b|];
  }

  // ---- layout characters --------------------------------------------------

  /** `s` holds no line feed and no tab. */
  predicate NoLayout(s: string) {
    forall i :: 0 <= i < |s| ==> s[i] != '\n' && s[i] != '\t'
  }

  /** `s` with every line feed and tab removed. */
  function StripLayout(s: string): (r: string)
    ensures NoLayout(r)
    ensures |r| <= |s|
    decreases |s|
  {
    if |s| == 0 then ""
    else if s[0] == '\n' || s[0] == '\t' then StripLayout(s[1..])
    else [s[0]] + StripLayout(s[1..])
  }

  /** Removing the layout characters works one character at a time. */
  lemma {:induction false} StripLayoutConcat(a: string, b: string)
    ensures StripLayout(a + b) == StripLayout(a) + StripLayout(b)
    decreases |a|
  {
    if |a| > 0 {
      assert (a + b)[0] == a[0];
      assert (a + b)[1..] == a[1..] + b;
      StripLayoutConcat(a[1..], b);
    } else {
      assert a + b == b;
    }
  }

  /** Text without layout characters is left as it is. */
  lemma {:induction false} StripLayoutPlain(s: string)
    requires NoLayout(s)
    ensures StripLayout(s) == s
    decreases |s|
  {
    if |s| > 0 {
      StripLayoutPlain(s[1..]);
    }
  }
}
