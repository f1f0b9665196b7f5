/**
 * The "Cited by" extraction of the citations tag: the body text of the
 * article page is searched with the regular expression `/Cited by (\d+)/`
 * and the captured digits are converted with `to_i`.
 *
 * Ruby's regular-expression engine reports the leftmost position at which
 * the pattern matches; `\d` is an ASCII digit and `\d+` is greedy, so the
 * captured group is the maximal run of digits after the literal. A digit
 * grouping comma ends the run.
 */
module CitedBy {
  import opened Wrappers

  /** The literal part of the pattern, trailing space included. */
  const Prefix: string := "Cited by "

  /** `\d`: an ASCII decimal digit. */
  predicate IsDigit(c: char) {
    '0' <= c <= '9'
  }

  predicate AllDigits(s: string) {
    forall k :: 0 <= k < |s| ==> IsDigit(s[k])
  }

  /** The pattern matches at `i`: the literal, then at least one digit. */
  predicate MatchesAt(text: string, i: int) {
    0 <= i && i + |Prefix| < |text| && text[i..i + |Prefix|] == Prefix && IsDigit(text[i + |Prefix|])
  }

  /** `i` is the position the regular-expression engine reports: the first match. */
  predicate LeftmostMatch(text: string, i: int) {
    MatchesAt(text, i) && forall j :: 0 <= j < i ==> !MatchesAt(text, j)
  }

  /** End of the maximal run of digits starting at `i` (greedy `\d+`). */
  function DigitRunEnd(text: string, i: nat): (j: nat)
    requires i <= |text|
    ensures i <= j <= |text|
    ensures AllDigits(text[i..j])
    ensures j == |text| || !IsDigit(text[j])
    decreases |text| - i
  {
    if i < |text| && IsDigit(text[i]) then
      var j := DigitRunEnd(text, i + 1);
      assert text[i..j] == [text[i]] + text[i + 1..j];
      j
    else
      i
  }

  /** The capture group `(\d+)` of a match at `i`. */
  function Group(text: string, i: int): string
    requires MatchesAt(text, i)
  {
    text[i + |Prefix|..DigitRunEnd(text, i + |Prefix|)]
  }

  function Pow10(k: nat): (p: nat)
    ensures p >= 1
  {
    if k == 0 then 1 else 10 * Pow10(k - 1)
  }

  /**
   * `to_i` on a string of decimal digits: the number they spell, so below
   * 10 to the number of digits (leading zeros are allowed).
   */
  function DigitsValue(ds: string): (n: nat)
    requires AllDigits(ds)
    ensures n < Pow10(|ds|)
  {
    if ds == [] then 0 else 10 * DigitsValue(ds[..|ds| - 1]) + (ds[|ds| - 1] - '0') as nat
  }

  /** `to_i` ignores leading zeros: "007" reads as 7. */
  lemma {:induction false} LeadingZeroIgnored(ds: string)
    requires AllDigits(ds)
    ensures AllDigits("0" + ds) && DigitsValue("0" + ds) == DigitsValue(ds)
  {
    var zs := "0" + ds;
    assert AllDigits(zs);
    if ds != [] {
      assert zs[..|zs| - 1] == "0" + ds[..|ds| - 1];
      LeadingZeroIgnored(ds[..|ds| - 1]);
    }
  }

  /** Scans from `from` for the first position where the pattern matches. */
  function FindMatch(text: string, from: nat): (r: Option<nat>)
    requires from <= |text|
    ensures r.Some? ==> from <= r.value && MatchesAt(text, r.value)
    ensures forall i :: from <= i && (r.None? || i < r.value) ==> !MatchesAt(text, i)
    decreases |text| - from
  {
    if from == |text| then None
    else if MatchesAt(text, from) then Some(from)
    else FindMatch(text, from + 1)
  }

  /** `text.match(/Cited by (\d+)/)`, giving the captured digits or nil. */
  function Capture(text: string): (m: Option<string>)
    ensures m.None? <==> forall i :: !MatchesAt(text, i)
    ensures forall i :: LeftmostMatch(text, i) ==> m == Some(Group(text, i))
    ensures m.Some? ==> m.value != [] && AllDigits(m.value)
  {
    match FindMatch(text, 0)
    case None => None
    case Some(i) =>
      assert forall j :: LeftmostMatch(text, j) ==> j == i;
      Some(Group(text, i))
  }

  /**
   * The citation count the page shows: the value of the digits captured at
   * the leftmost match, or 0 when the pattern does not match at all.
   */
  function CitedByCount(text: string): (n: nat)
    ensures (forall i :: !MatchesAt(text, i)) ==> n == 0
    ensures forall i :: LeftmostMatch(text, i) ==> n == DigitsValue(Group(text, i))
  {
    match Capture(text)
    case None => 0
    case Some(ds) => DigitsValue(ds)
  }

  /** The decimal digits a page uses to print `n`, without grouping. */
  function Decimal(n: nat): (s: string)
    ensures s != [] && AllDigits(s)
    ensures DigitsValue(s) == n
  {
    var d := [('0' as int + n % 10) as char];
    if n < 10 then d
    else
      var s := Decimal(n / 10) + d;
      assert s[..|s| - 1] == Decimal(n / 10);
      s
  }

  /** Over a run of digits followed by a non-digit, `DigitRunEnd` stops exactly there. */
  lemma RunEndsAt(text: string, i: nat, j: nat)
    requires i <= j <= |text|
    requires AllDigits(text[i..j])
    requires j == |text| || !IsDigit(text[j])
    ensures DigitRunEnd(text, i) == j
  {
  }

  /**
   * A page whose text, before the first "Cited by ", contains no digit and
   * then shows the count `n` ended by a non-digit yields exactly `n`.
   */
  lemma CountOfShownNumber(pre: string, n: nat, post: string)
    requires forall k :: 0 <= k < |pre| ==> !IsDigit(pre[k])
    requires post == [] || !IsDigit(post[0])
    ensures CitedByCount(pre + Prefix + Decimal(n) + post) == n
  {
    var ds := Decimal(n);
    var text := pre + Prefix + ds + post;
    var i := |pre|;
    var g := i + |Prefix|;
    assert text[i..g] == Prefix;
    assert text[g] == ds[0];
    assert MatchesAt(text, i);
    forall j | 0 <= j < i ensures !MatchesAt(text, j) {
      if j + |Prefix| < i {
        assert text[j + |Prefix|] == pre[j + |Prefix|];
      } else {
        assert text[j + |Prefix|] == Prefix[j + |Prefix| - i];
      }
    }
    assert LeftmostMatch(text, i);
    assert text[g..g + |ds|] == ds;
    if post != [] {
      assert text[g + |ds|] == post[0];
    }
    RunEndsAt(text, g, g + |ds|);
    assert Group(text, i) == ds;
  }

  /**
   * A digit-grouping comma ends the capture: "Cited by n,ddd" counts n, so
   * "Cited by 1,234" counts 1 and "Cited by 3,400,000 times" counts 3.
   */
  lemma CommaEndsCount(n: nat, rest: string)
    ensures CitedByCount(Prefix + Decimal(n) + ("," + rest)) == n
  {
    CountOfShownNumber([], n, "," + rest);
    assert [] + Prefix == Prefix;
  }
}
