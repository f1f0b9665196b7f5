/**
 * Tag-parameter tokenisation done when the tag is created:
 * `params.split(" ").map(&:strip)`, whose first token names the context
 * variable holding the scholar id and whose second names the one holding
 * the article id.
 *
 * `split(" ")` is Ruby's awk-style split: runs of ASCII whitespace
 * (space, tab, line feed, vertical tab, form feed, carriage return)
 * separate the fields, and leading and trailing whitespace produce no
 * empty field. `strip` removes whitespace and NUL from both ends.
 */
module Params {
  import opened Wrappers

  /** A separator for `split(" ")`. */
  predicate IsSpace(c: char) {
    c == ' ' || c == '\t' || c == '\n' || c == '\U{000B}' || c == '\U{000C}' || c == '\r'
  }

  /** A character `strip` removes from either end of a string. */
  predicate IsStripped(c: char) {
    IsSpace(c) || c == '\0'
  }

  predicate AllSpace(s: string) {
    forall k :: 0 <= k < |s| ==> IsSpace(s[k])
  }

  predicate NoSpace(t: string) {
    forall k :: 0 <= k < |t| ==> !IsSpace(t[k])
  }

  /** A field `split(" ")` can produce: non-empty, without whitespace. */
  predicate IsField(t: string) {
    t != [] && NoSpace(t)
  }

  /** A field that `strip` leaves as it is. */
  predicate IsName(t: string) {
    IsField(t) && t[0] != '\0' && t[|t| - 1] != '\0'
  }

  /** Length of the field that starts `s`: up to the first whitespace. */
  function FieldLength(s: string): (n: nat)
    ensures n <= |s|
    ensures forall k :: 0 <= k < n ==> !IsSpace(s[k])
    ensures n == |s| || IsSpace(s[n])
  {
    if s == [] || IsSpace(s[0]) then 0 else 1 + FieldLength(s[1..])
  }

  /** `s.split(" ")`. */
  function Fields(s: string): (ts: seq<string>)
    ensures forall k :: 0 <= k < |ts| ==> IsField(ts[k])
    decreases |s|
  {
    if s == [] then []
    else if IsSpace(s[0]) then Fields(s[1..])
    else
      var n := FieldLength(s);
      [s[..n]] + Fields(s[n..])
  }

  /** The fields joined by single spaces: a parameter string as a page author writes it. */
  function Join(ts: seq<string>): string {
    if |ts| == 0 then []
    else if |ts| == 1 then ts[0]
    else ts[0] + (" " + Join(ts[1..]))
  }

  /** Number of strippable characters at the start of `t`. */
  function LeadingCount(t: string): (n: nat)
    ensures n <= |t|
    ensures forall k :: 0 <= k < n ==> IsStripped(t[k])
    ensures n == |t| || !IsStripped(t[n])
  {
    if t != [] && IsStripped(t[0]) then 1 + LeadingCount(t[1..]) else 0
  }

  /** Number of strippable characters at the end of `t`. */
  function TrailingCount(t: string): (n: nat)
    ensures n <= |t|
    ensures forall k :: |t| - n <= k < |t| ==> IsStripped(t[k])
    ensures n == |t| || !IsStripped(t[|t| - 1 - n])
  {
    if t != [] && IsStripped(t[|t| - 1]) then 1 + TrailingCount(t[..|t| - 1]) else 0
  }

  /**
   * `t.strip`: the slice of `t` that starts after its leading strippable
   * characters and is followed only by strippable characters; neither end
   * of the result is strippable.
   */
  function Strip(t: string): (r: string)
    ensures LeadingCount(t) + |r| <= |t|
    ensures r == t[LeadingCount(t)..LeadingCount(t) + |r|]
    ensures forall k :: LeadingCount(t) + |r| <= k < |t| ==> IsStripped(t[k])
    ensures r == [] || (!IsStripped(r[0]) && !IsStripped(r[|r| - 1]))
    ensures NoSpace(t) ==> NoSpace(r)
  {
    var lead := LeadingCount(t);
    if lead == |t| then []
    else
      var end := |t| - TrailingCount(t);
      assert lead < end;
      var r := t[lead..end];
      assert r[|r| - 1] == t[end - 1];
      r
  }

  /** The two variable names a tag carries; nil when too few tokens were given. */
  datatype TagParams = TagParams(scholarVar: Option<string>, articleVar: Option<string>)

  /**
   * `splitted = params.split(" ").map(&:strip)`, then `splitted[0]` and
   * `splitted[1]`: a name is present exactly when that many fields exist, it
   * is the stripped field, and it holds no whitespace.
   */
  function ParseParams(params: string): (p: TagParams)
    ensures p.scholarVar.Some? <==> |Fields(params)| >= 1
    ensures p.articleVar.Some? <==> |Fields(params)| >= 2
    ensures p.scholarVar.Some? ==> p.scholarVar.value == Strip(Fields(params)[0]) && NoSpace(p.scholarVar.value)
    ensures p.articleVar.Some? ==> p.articleVar.value == Strip(Fields(params)[1]) && NoSpace(p.articleVar.value)
  {
    var fs := Fields(params);
    var splitted := seq(|fs|, k requires 0 <= k < |fs| => Strip(fs[k]));
    TagParams(
      if |splitted| > 0 then Some(splitted[0]) else None,
      if |splitted| > 1 then Some(splitted[1]) else None)
  }

  /** Leading whitespace produces no field. */
  lemma {:induction false} FieldsAfterSpace(ws: string, s: string)
    requires AllSpace(ws)
    ensures Fields(ws + s) == Fields(s)
  {
    if ws != [] {
      assert (ws + s)[0] == ws[0];
      assert (ws + s)[1..] == ws[1..] + s;
      FieldsAfterSpace(ws[1..], s);
    } else {
      assert ws + s == s;
    }
  }

  /** A field followed by whitespace or the end of the string is split off whole. */
  lemma FieldsAfterField(t: string, s: string)
    requires IsField(t)
    requires s == [] || IsSpace(s[0])
    ensures Fields(t + s) == [t] + Fields(s)
  {
    FieldLengthOf(t, s);
    assert (t + s)[..|t|] == t;
    assert (t + s)[|t|..] == s;
  }

  lemma {:induction false} FieldLengthOf(t: string, s: string)
    requires forall k :: 0 <= k < |t| ==> !IsSpace(t[k])
    requires s == [] || IsSpace(s[0])
    ensures FieldLength(t + s) == |t|
  {
    if t != [] {
      assert (t + s)[1..] == t[1..] + s;
      FieldLengthOf(t[1..], s);
    } else {
      assert t + s == s;
    }
  }

  /** Splitting undoes joining: `split(" ")` recovers every field of a joined string. */
  lemma {:induction false} FieldsOfJoin(ts: seq<string>)
    requires forall k :: 0 <= k < |ts| ==> IsField(ts[k])
    ensures Fields(Join(ts)) == ts
  {
    if |ts| == 1 {
      FieldsAfterField(ts[0], []);
      assert ts[0] + [] == ts[0];
    } else if |ts| > 1 {
      FieldsAfterFieldAndSpace(ts[0], Join(ts[1..]));
      FieldsOfJoin(ts[1..]);
      assert ts == [ts[0]] + ts[1..];
    }
  }

  /** One step of `FieldsOfJoin`: a field, a space, then the rest. */
  lemma FieldsAfterFieldAndSpace(t: string, rest: string)
    requires IsField(t)
    ensures Fields(t + (" " + rest)) == [t] + Fields(rest)
  {
    FieldsAfterField(t, " " + rest);
    FieldsAfterSpace(" ", rest);
  }

  /** `strip` leaves a string whose ends are not strippable unchanged. */
  lemma StripClean(t: string)
    requires t == [] || (!IsStripped(t[0]) && !IsStripped(t[|t| - 1]))
    ensures Strip(t) == t
  {
  }

  /** `strip` is idempotent, so stripping a variable name again at render time changes nothing. */
  lemma StripIdempotent(t: string)
    ensures Strip(Strip(t)) == Strip(t)
  {
  }

  /** Splitting two whitespace-separated names, possibly followed by more fields. */
  lemma FieldsOfTwoNames(lead: string, a: string, sep: string, b: string, rest: string)
    requires AllSpace(lead) && sep != [] && AllSpace(sep)
    requires IsField(a) && IsField(b)
    requires rest == [] || IsSpace(rest[0])
    ensures Fields(lead + a + sep + b + rest) == [a, b] + Fields(rest)
  {
    var tail := sep + (b + rest);
    assert lead + a + sep + b + rest == lead + (a + tail);
    FieldsAfterSpace(lead, a + tail);
    assert tail[0] == sep[0];
    FieldsAfterField(a, tail);
    FieldsAfterSpace(sep, b + rest);
    FieldsAfterField(b, rest);
  }

  /**
   * With two names written between whitespace, possibly followed by more
   * tokens, the first names the scholar variable and the second the article
   * variable.
   */
  lemma ParseTwoNames(lead: string, a: string, sep: string, b: string, rest: string)
    requires AllSpace(lead) && sep != [] && AllSpace(sep)
    requires IsName(a) && IsName(b)
    requires rest == [] || IsSpace(rest[0])
    ensures ParseParams(lead + a + sep + b + rest) == TagParams(Some(a), Some(b))
  {
    FieldsOfTwoNames(lead, a, sep, b, rest);
    StripClean(a);
    StripClean(b);
  }

  /** A single name leaves the article variable nil. */
  lemma ParseOneName(lead: string, a: string, trail: string)
    requires AllSpace(lead) && AllSpace(trail)
    requires IsName(a)
    ensures ParseParams(lead + a + trail) == TagParams(Some(a), None)
  {
    assert lead + a + trail == lead + (a + trail);
    FieldsAfterSpace(lead, a + trail);
    FieldsAfterField(a, trail);
    FieldsAfterSpace(trail, []);
    assert trail + [] == trail;
    StripClean(a);
  }

  /** Blank parameters name no variable at all. */
  lemma ParseBlank(ws: string)
    requires AllSpace(ws)
    ensures ParseParams(ws) == TagParams(None, None)
  {
    FieldsAfterSpace(ws, []);
    assert ws + [] == ws;
  }
}
