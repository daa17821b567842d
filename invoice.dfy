/**
 * The invoice side: find the leftmost place in the document text where the pattern
 * `Total Liquido:\s*([\d.]+,\d{2})` matches, and parse the captured amount.
 *
 * The three parts after the label use disjoint character classes (whitespace, `[\d.]`,
 * `,`), so the greedy regular-expression match is the only possible one: the scanner
 * takes the whole whitespace run, then the whole `[\d.]` run, then requires `,dd`.
 * PatternAt below states the regular expression directly, with any split point allowed,
 * and MatchAtIsPattern proves the scanner agrees with it.
 */
module Invoice {
  import opened Wrappers
  import opened Money

  const TotalLabel: string := "Total Liquido:"

  /** Python's `\s` on text: the characters for which `str.isspace()` holds. */
  predicate IsSpace(c: char)
  {
    '\U{9}' <= c <= '\U{d}' || '\U{1c}' <= c <= '\U{20}' || c == '\U{85}' || c == '\U{a0}' ||
    c == '\U{1680}' || '\U{2000}' <= c <= '\U{200a}' || c == '\U{2028}' || c == '\U{2029}' ||
    c == '\U{202f}' || c == '\U{205f}' || c == '\U{3000}'
  }

  /** The end of the whitespace run that starts at i. */
  function SpaceEnd(text: string, i: nat): (e: nat)
    requires i <= |text|
    ensures i <= e <= |text|
    ensures forall k :: i <= k < e ==> IsSpace(text[k])
    ensures e == |text| || !IsSpace(text[e])
    decreases |text| - i
  {
    if i < |text| && IsSpace(text[i]) then SpaceEnd(text, i + 1) else i
  }

  /** The end of the `[\d.]` run that starts at i. */
  function AmountEnd(text: string, i: nat): (e: nat)
    requires i <= |text|
    ensures i <= e <= |text|
    ensures forall k :: i <= k < e ==> IsAmountChar(text[k])
    ensures e == |text| || !IsAmountChar(text[e])
    decreases |text| - i
  {
    if i < |text| && IsAmountChar(text[i]) then AmountEnd(text, i + 1) else i
  }

  predicate LabelAt(text: string, p: nat)
  {
    p + |TotalLabel| <= |text| && text[p..p + |TotalLabel|] == TotalLabel
  }

  /** The text captured by the pattern when it matches starting at p, else None. */
  function MatchAt(text: string, p: nat): (g: Option<string>)
    requires p <= |text|
    ensures g.Some? ==> IsLocaleAmount(g.value)
  {
    if LabelAt(text, p) then
      var q := SpaceEnd(text, p + |TotalLabel|);
      var e := AmountEnd(text, q);
      if q < e && e + 3 <= |text| && text[e] == ',' && IsDigit(text[e + 1]) && IsDigit(text[e + 2])
      then Some(text[q..e + 3])
      else None
    else None
  }

  /**
   * The regular expression, matching at p: the label, whitespace up to q, a non-empty
   * `[\d.]` run up to e, then a comma and two digits; the capture is text[q..e + 3].
   */
  predicate PatternAt(text: string, p: nat, q: nat, e: nat)
  {
    LabelAt(text, p) && p + |TotalLabel| <= q < e && e + 3 <= |text| &&
    (forall k :: p + |TotalLabel| <= k < q ==> IsSpace(text[k])) &&
    (forall k :: q <= k < e ==> IsAmountChar(text[k])) &&
    text[e] == ',' && IsDigit(text[e + 1]) && IsDigit(text[e + 2])
  }

  /** The scanner matches exactly where the regular expression does, with the same capture. */
  lemma MatchAtIsPattern(text: string, p: nat)
    requires p <= |text|
    ensures MatchAt(text, p).Some? <==> exists q: nat, e: nat :: PatternAt(text, p, q, e)
    ensures forall q: nat, e: nat :: PatternAt(text, p, q, e) ==> MatchAt(text, p) == Some(text[q..e + 3])
  {
    if LabelAt(text, p) {
      var q0 := SpaceEnd(text, p + |TotalLabel|);
      var e0 := AmountEnd(text, q0);
      if MatchAt(text, p).Some? {
        assert PatternAt(text, p, q0, e0);
      }
      forall q: nat, e: nat | PatternAt(text, p, q, e) ensures MatchAt(text, p) == Some(text[q..e + 3]) {
        assert IsAmountChar(text[q]) && !IsSpace(text[q]);
        assert q0 < |text| ==> !IsSpace(text[q0]);
        assert q == q0;
        assert text[e] == ',' && !IsAmountChar(text[e]);
        assert e0 < |text| ==> !IsAmountChar(text[e0]);
        assert e == e0;
      }
    }
  }

  /** The leftmost position at or after `from` where the pattern matches (`re.search`). */
  function FirstMatch(text: string, from: nat): (r: Option<nat>)
    requires from <= |text|
    ensures r.Some? ==> from <= r.value <= |text| && MatchAt(text, r.value).Some?
    ensures r.Some? ==> forall q :: from <= q < r.value ==> MatchAt(text, q).None?
    ensures r.None? <==> forall q :: from <= q <= |text| ==> MatchAt(text, q).None?
    decreases |text| - from
  {
    if MatchAt(text, from).Some? then Some(from)
    else if from == |text| then None
    else FirstMatch(text, from + 1)
  }

  /**
   * The invoice total in cents: the amount captured at the leftmost match, parsed; None
   * when the pattern matches nowhere.
   */
  function ExtractTotal(text: string): (r: Option<nat>)
    ensures r.None? <==> forall p :: 0 <= p <= |text| ==> MatchAt(text, p).None?
    ensures r.Some? ==>
      exists p :: 0 <= p <= |text| && MatchAt(text, p).Some? &&
        (forall q :: 0 <= q < p ==> MatchAt(text, q).None?) &&
        r.value == ParseLocale(MatchAt(text, p).value)
  {
    match FirstMatch(text, 0)
    case None => None
    case Some(p) => Some(ParseLocale(MatchAt(text, p).value))
  }

  /** Where the pattern first matches decides the result: later matches never matter. */
  lemma ExtractAtFirstMatch(text: string, p: nat)
    requires p <= |text| && MatchAt(text, p).Some?
    requires forall q :: 0 <= q < p ==> MatchAt(text, q).None?
    ensures ExtractTotal(text) == Some(ParseLocale(MatchAt(text, p).value))
  {
    var r := FirstMatch(text, 0);
    assert r.Some?;
    assert !(r.value < p);
    assert !(r.value > p);
  }

  /** At p stand the label, one space and the amount `cents` in the invoice's notation. */
  predicate FormattedAt(text: string, p: nat, cents: nat)
  {
    var f := FormatLocale(cents);
    LabelAt(text, p) && p + |TotalLabel| + 1 + |f| <= |text| && text[p + |TotalLabel|] == ' ' &&
    text[p + |TotalLabel| + 1..p + |TotalLabel| + 1 + |f|] == f
  }

  /** Where a captured-amount shape follows the label and one space, the pattern matches and captures it. */
  lemma MatchAmountAt(text: string, p: nat, f: string)
    requires IsLocaleAmount(f) && LabelAt(text, p)
    requires p + |TotalLabel| + 1 + |f| <= |text| && text[p + |TotalLabel|] == ' '
    requires text[p + |TotalLabel| + 1..p + |TotalLabel| + 1 + |f|] == f
    ensures MatchAt(text, p) == Some(f)
  {
    var q := p + |TotalLabel| + 1;
    var e := q + |f| - 3;
    forall k | q <= k < e ensures IsAmountChar(text[k]) {
      assert text[k] == text[q..q + |f|][k - q];
    }
    assert text[e] == f[|f| - 3] && text[e + 1] == f[|f| - 2] && text[e + 2] == f[|f| - 1];
    assert PatternAt(text, p, q, e);
    MatchAtIsPattern(text, p);
  }

  /** Where a formatted amount follows the label, the pattern matches and captures exactly it. */
  lemma MatchFormattedAt(text: string, p: nat, cents: nat)
    requires FormattedAt(text, p, cents)
    ensures MatchAt(text, p) == Some(FormatLocale(cents))
  {
    MatchAmountAt(text, p, FormatLocale(cents));
  }

  /** No match can start where the text does not hold the label's first letter. */
  lemma NoMatchWithoutLabel(text: string, p: nat)
    requires p < |text| && text[p] != TotalLabel[0]
    ensures MatchAt(text, p).None?
  {
  }

  /** A label whose whitespace run ends in a character that cannot start an amount does not match. */
  lemma NoMatchAfterBrokenLabel(text: string, p: nat, w: nat)
    requires LabelAt(text, p) && p + |TotalLabel| + w < |text|
    requires forall k :: p + |TotalLabel| <= k < p + |TotalLabel| + w ==> IsSpace(text[k])
    requires !IsSpace(text[p + |TotalLabel| + w]) && !IsAmountChar(text[p + |TotalLabel| + w])
    ensures MatchAt(text, p).None?
  {
    SpaceEndOfRun(text, p + |TotalLabel|, p + |TotalLabel| + w);
  }

  /**
   * The label, a space and a formatted amount, followed by anything at all, yield that
   * amount (the pattern is not anchored at its end).
   */
  lemma ExtractFormatted(text: string, cents: nat, rest: string)
    requires text == TotalLabel + " " + FormatLocale(cents) + rest
    ensures ExtractTotal(text) == Some(cents)
  {
    FormattedPrefix(text, TotalLabel + " " + FormatLocale(cents) + rest, [], cents, rest);
    MatchFormattedAt(text, 0, cents);
    ExtractAtFirstMatch(text, 0);
    FormatParseRoundTrip(cents);
  }

  lemma FormattedPrefix(text: string, tail: string, head: string, cents: nat, rest: string)
    requires tail == TotalLabel + " " + FormatLocale(cents) + rest
    requires text == head + tail
    ensures FormattedAt(text, |head|, cents)
  {
    var f := FormatLocale(cents);
    var L, h := |TotalLabel|, |head|;
    assert text[h..] == tail;
    assert tail[..L] == TotalLabel;
    assert text[h..h + L] == tail[..L];
    assert text[h + L] == tail[L] == ' ';
    assert tail[L + 1..L + 1 + |f|] == f;
    assert text[h + L + 1..h + L + 1 + |f|] == tail[L + 1..L + 1 + |f|];
  }

  /**
   * A label followed (after optional whitespace) by something that cannot start an amount
   * does not match; the next complete match further on gives the total.
   */
  lemma BrokenLabelSkipped(text: string, junk: string, w: nat, cents: nat, rest: string)
    requires text == (TotalLabel + junk) + (TotalLabel + " " + FormatLocale(cents) + rest)
    requires w < |junk| && (forall i :: 0 <= i < w ==> IsSpace(junk[i]))
    requires !IsSpace(junk[w]) && !IsAmountChar(junk[w])
    requires forall i :: 0 <= i < |junk| ==> junk[i] != 'T'
    ensures ExtractTotal(text) == Some(cents)
  {
    var head := TotalLabel + junk;
    assert text[..|head|] == head;
    NoMatchInBrokenHead(text, junk, w);
    FormattedPrefix(text, TotalLabel + " " + FormatLocale(cents) + rest, head, cents, rest);
    MatchFormattedAt(text, |head|, cents);
    ExtractAtFirstMatch(text, |head|);
    FormatParseRoundTrip(cents);
  }

  /** No match starts inside a broken label followed by text without a 'T'. */
  lemma NoMatchInBrokenHead(text: string, junk: string, w: nat)
    requires |TotalLabel| + |junk| <= |text| && text[..|TotalLabel| + |junk|] == TotalLabel + junk
    requires w < |junk| && (forall i :: 0 <= i < w ==> IsSpace(junk[i]))
    requires !IsSpace(junk[w]) && !IsAmountChar(junk[w])
    requires forall i :: 0 <= i < |junk| ==> junk[i] != 'T'
    ensures forall q :: 0 <= q < |TotalLabel| + |junk| ==> MatchAt(text, q).None?
  {
    var L := |TotalLabel|;
    var head := TotalLabel + junk;
    var p := |head|;
    assert forall i :: 0 <= i < L ==> text[i] == head[i] == TotalLabel[i];
    assert forall i :: L <= i < p ==> text[i] == head[i] == junk[i - L];
    assert text[..L] == TotalLabel;
    NoMatchAfterBrokenLabel(text, 0, w);
    assert forall i :: 1 <= i < L ==> TotalLabel[i] != 'T';
    forall q | 0 < q < p ensures MatchAt(text, q).None? {
      NoMatchWithoutLabel(text, q);
    }
  }

  lemma {:induction false} SpaceEndOfRun(text: string, i: nat, j: nat)
    requires i <= j < |text|
    requires forall k :: i <= k < j ==> IsSpace(text[k])
    requires !IsSpace(text[j])
    ensures SpaceEnd(text, i) == j
    decreases j - i
  {
    if i < j {
      SpaceEndOfRun(text, i + 1, j);
    }
  }
}
