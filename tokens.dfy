/** Token parsers of app.js: `parseNumber`, `parseStars`, `parseWorkshopId`
    and `parseSteamTotalFromMarkdown`, each regular expression written out as
    a scanner that makes the same choices the JavaScript engine makes. */
module Tokens {
  import opened Strings

  function DigitValue(c: char): nat
    requires IsDigit(c)
  {
    c as int - '0' as int
  }

  function DigitChar(d: nat): (c: char)
    requires d < 10
    ensures IsDigit(c) && DigitValue(c) == d
  {
    ('0' as int + d) as char
  }

  /** `value.replace(/[^\d]/g, '')`: the digits of `value`, in order. */
  function KeepDigits(value: string): (r: string)
    ensures AllDigits(r)
    ensures r == "" <==> forall k :: 0 <= k < |value| ==> !IsDigit(value[k])
  {
    if |value| == 0 then ""
    else
      var last := value[|value| - 1];
      var r := KeepDigits(value[..|value| - 1]) + (if IsDigit(last) then [last] else "");
      assert forall k :: 0 <= k < |value| - 1 ==> value[..|value| - 1][k] == value[k];
      r
  }

  /** Exact decimal value of a run of digits; `Number` gives the same
      value only while it stays below 2^53, and rounds it above. */
  function DigitsValue(ds: string): nat
    requires AllDigits(ds)
  {
    if |ds| == 0 then 0
    else DigitsValue(ds[..|ds| - 1]) * 10 + DigitValue(ds[|ds| - 1])
  }

  /** `parseNumber`: the decimal value of the digit characters of `value`
      taken in order, 0 when there are none. */
  function ParseNumber(value: string): (r: nat)
    ensures (forall k :: 0 <= k < |value| ==> !IsDigit(value[k])) ==> r == 0
  {
    DigitsValue(KeepDigits(value))
  }

  /** The decimal rendering of `n`, the partner of `ParseNumber`. */
  function Decimal(n: nat): (r: string)
    ensures |r| > 0 && AllDigits(r)
  {
    if n < 10 then [DigitChar(n)] else Decimal(n / 10) + [DigitChar(n % 10)]
  }

  lemma {:induction false} KeepDigitsConcat(a: string, b: string)
    ensures KeepDigits(a + b) == KeepDigits(a) + KeepDigits(b)
  {
    if |b| == 0 {
      assert a + b == a;
    } else {
      var b' := b[..|b| - 1];
      assert (a + b)[..|a + b| - 1] == a + b';
      KeepDigitsConcat(a, b');
    }
  }

  lemma {:induction false} KeepDigitsOfDigits(ds: string)
    requires AllDigits(ds)
    ensures KeepDigits(ds) == ds
  {
    if |ds| > 0 {
      var init := ds[..|ds| - 1];
      assert AllDigits(init) by {
        assert forall k :: 0 <= k < |init| ==> init[k] == ds[k];
      }
      KeepDigitsOfDigits(init);
      assert IsDigit(ds[|ds| - 1]);
      assert KeepDigits(ds) == init + [ds[|ds| - 1]];
      assert init + [ds[|ds| - 1]] == ds;
    }
  }

  lemma {:induction false} DigitsValueOfDecimal(n: nat)
    ensures DigitsValue(Decimal(n)) == n
  {
    if n >= 10 {
      var d := Decimal(n / 10) + [DigitChar(n % 10)];
      assert d[..|d| - 1] == Decimal(n / 10);
      DigitsValueOfDecimal(n / 10);
    }
  }

  /** Parsing the decimal rendering of a number gives the number back. */
  lemma ParseNumberOfDecimal(n: nat)
    ensures ParseNumber(Decimal(n)) == n
  {
    KeepDigitsOfDigits(Decimal(n));
    DigitsValueOfDecimal(n);
  }

  /** A non-digit character (a grouping comma, a space) does not change the
      parsed value wherever it stands. */
  lemma ParseNumberIgnoresSeparator(a: string, c: char, b: string)
    requires !IsDigit(c)
    ensures ParseNumber(a + [c] + b) == ParseNumber(a + b)
  {
    KeepDigitsConcat(a + [c], b);
    KeepDigitsConcat(a, [c]);
    KeepDigitsConcat(a, b);
    assert KeepDigits([c]) == "" by { assert [c][..0] == ""; }
    assert KeepDigits(a + [c]) == KeepDigits(a);
  }

  /** A trailing digit shifts the value one decimal place. */
  lemma ParseNumberAppendDigit(a: string, d: char)
    requires IsDigit(d)
    ensures ParseNumber(a + [d]) == ParseNumber(a) * 10 + DigitValue(d)
  {
    assert (a + [d])[..|a|] == a;
    var k := KeepDigits(a) + [d];
    assert k[..|k| - 1] == KeepDigits(a);
  }

  // ---------------------------------------------------------------------
  // parseStars: /\/(\d)-star\.png|not-yet\.png/

  /** `/N-star.png` at `i`. */
  predicate StarIconAt(s: string, i: nat) {
    i + 11 <= |s| && s[i] == '/' && IsDigit(s[i + 1]) && s[i + 2..i + 11] == "-star.png"
  }

  /** `not-yet.png` at `i`. */
  predicate NotYetAt(s: string, i: nat) {
    StartsAt(s, i, "not-yet.png")
  }

  /** The star value of the leftmost `/N-star.png` or `not-yet.png` at or
      after `from`: its digit, or 0 for `not-yet.png` or for no match. */
  function StarsFrom(s: string, from: nat): (r: nat)
    decreases |s| - from
    ensures r <= 9
    ensures r > 0 ==> exists i :: from <= i < |s| && StarIconAt(s, i) && r == DigitValue(s[i + 1])
    ensures (forall i :: from <= i < |s| ==> !StarIconAt(s, i)) ==> r == 0
    ensures forall i :: from <= i < |s| && StarIconAt(s, i)
              && (forall j :: from <= j < i ==> !StarIconAt(s, j) && !NotYetAt(s, j))
              ==> r == DigitValue(s[i + 1])
  {
    if from >= |s| then 0
    else if StarIconAt(s, from) then DigitValue(s[from + 1])
    else if NotYetAt(s, from) then 0
    else StarsFrom(s, from + 1)
  }

  /** `parseStars`: the digit of the leftmost `/N-star.png`, 0 when the
      leftmost match is `not-yet.png` or there is none (so 0 to 9). */
  function ParseStars(starUrl: string): (r: nat)
    ensures r <= 9
    ensures r > 0 ==> exists i :: 0 <= i < |starUrl| && StarIconAt(starUrl, i) && r == DigitValue(starUrl[i + 1])
    ensures (forall i :: 0 <= i < |starUrl| ==> !StarIconAt(starUrl, i)) ==> r == 0
  {
    StarsFrom(starUrl, 0)
  }

  /** No star icon and no `not-yet.png` in `[from, i)`. */
  ghost predicate NoStarMatchBetween(s: string, from: nat, i: nat) {
    forall j :: from <= j < i ==> !StarIconAt(s, j) && !NotYetAt(s, j)
  }

  /** When the leftmost match is `not-yet.png`, the scan gives 0. */
  lemma {:induction false} StarsFromNotYet(s: string, from: nat, i: nat)
    requires from <= i < |s| && NotYetAt(s, i) && NoStarMatchBetween(s, from, i)
    decreases i - from
    ensures StarsFrom(s, from) == 0
  {
    if from < i {
      StarsFromSkips(s, from, i);
      StarsFromNotYet(s, from + 1, i);
    } else {
      assert s[i..i + 11][0] == 'n';
    }
  }

  /** Before the leftmost match the scan moves on. */
  lemma StarsFromSkips(s: string, from: nat, i: nat)
    requires from < i && NoStarMatchBetween(s, from, i)
    ensures NoStarMatchBetween(s, from + 1, i)
    ensures StarsFrom(s, from) == StarsFrom(s, from + 1)
  {
    assert !StarIconAt(s, from) && !NotYetAt(s, from);
  }

  /** The stars are the digit of the leftmost `/N-star.png` when that is
      the leftmost match, and 0 when `not-yet.png` is. */
  lemma ParseStarsMeaning(starUrl: string)
    ensures forall i :: 0 <= i < |starUrl| && StarIconAt(starUrl, i)
              && (forall j :: 0 <= j < i ==> !StarIconAt(starUrl, j) && !NotYetAt(starUrl, j))
              ==> ParseStars(starUrl) == DigitValue(starUrl[i + 1])
    ensures forall i :: 0 <= i < |starUrl| && NotYetAt(starUrl, i)
              && (forall j :: 0 <= j < i ==> !StarIconAt(starUrl, j) && !NotYetAt(starUrl, j))
              ==> ParseStars(starUrl) == 0
  {
    forall i | 0 <= i < |starUrl| && NotYetAt(starUrl, i)
        && (forall j :: 0 <= j < i ==> !StarIconAt(starUrl, j) && !NotYetAt(starUrl, j))
      ensures ParseStars(starUrl) == 0
    {
      assert NoStarMatchBetween(starUrl, 0, i);
      StarsFromNotYet(starUrl, 0, i);
    }
  }

  // ---------------------------------------------------------------------
  // parseWorkshopId: /[?&]id=(\d+)/

  /** `?id=` or `&id=` followed by a digit, at `i`. */
  predicate IdParamAt(s: string, i: nat) {
    i + 5 <= |s| && (s[i] == '?' || s[i] == '&') && s[i + 1..i + 4] == "id=" && IsDigit(s[i + 4])
  }

  /** The leftmost `?id=` / `&id=` followed by a digit, at or after `from`. */
  function IdParamFrom(s: string, from: nat): (r: Option<nat>)
    decreases |s| - from
    ensures r.Some? ==> from <= r.value < |s| && IdParamAt(s, r.value)
    ensures r.Some? ==> forall j :: from <= j < r.value ==> !IdParamAt(s, j)
    ensures r.None? ==> forall j :: from <= j < |s| ==> !IdParamAt(s, j)
  {
    if from >= |s| then None
    else if IdParamAt(s, from) then Some(from)
    else IdParamFrom(s, from + 1)
  }

  /** `parseWorkshopId`: the digit run after the leftmost `?id=` / `&id=`
      that has one, `None` (the source's `null`) when there is none. */
  function ParseWorkshopId(url: string): (r: Option<string>)
    ensures r.None? <==> forall i :: 0 <= i < |url| ==> !IdParamAt(url, i)
    ensures r.Some? ==> |r.value| > 0 && AllDigits(r.value)
    ensures r.Some? ==> exists i :: (0 <= i < |url| && IdParamAt(url, i)
              && (forall j :: 0 <= j < i ==> !IdParamAt(url, j))
              && r.value == url[i + 4..RunEnd(url, i + 4, IsDigit)])
  {
    match IdParamFrom(url, 0)
    case None => None
    case Some(i) =>
      RunEndAll(url, i + 4, IsDigit);
      Some(url[i + 4..RunEnd(url, i + 4, IsDigit)])
  }

  // ---------------------------------------------------------------------
  // parseSteamTotalFromMarkdown:
  //   /Showing\s+\d+-\d+\s+of\s+([\d,\.\s]+)\s+entries/i

  /** `[\d,\.\s]`. */
  predicate IsNumberChar(c: char) { IsDigit(c) || c == ',' || c == '.' || IsSpace(c) }

  /** The captured count of a `Showing x-y of N entries` match at `i`.
      Every quantifier before `of` is followed by a character it cannot
      consume, so it takes its whole run. After `of`, the run of
      `[\d,\.\s]` characters must end in whitespace and be followed by
      `entries`; the greedy group then stops one character before that run
      ends, or, when the run is all whitespace, is the one character before
      that. */
  function TotalGroupAt(s: string, i: nat): Option<string> {
    if !CiStartsAt(s, i, "showing") then None
    else
      var b := RunEnd(s, i + 7, IsSpace);
      var c := RunEnd(s, b, IsDigit);
      if b == i + 7 || c == b || c >= |s| || s[c] != '-' then None
      else
        var d := RunEnd(s, c + 1, IsDigit);
        var e := RunEnd(s, d, IsSpace);
        if d == c + 1 || e == d || !CiStartsAt(s, e, "of") then None
        else
          var p := e + 2;
          var m := RunEnd(s, p, IsNumberChar);
          if m < p + 3 || !IsSpace(s[p]) || !IsSpace(s[m - 1]) || !CiStartsAt(s, m, "entries") then None
          else
            var w := RunEnd(s, p, IsSpace);
            Some(if w < m - 1 then s[w..m - 1] else s[m - 2..m - 1])
  }

  /** The group of the leftmost total line at or after `from`. */
  function TotalGroupFrom(s: string, from: nat): (r: Option<string>)
    decreases |s| + 1 - from
    ensures r.Some? ==> exists i :: (from <= i <= |s| && TotalGroupAt(s, i) == r
              && forall j :: from <= j < i ==> TotalGroupAt(s, j).None?)
    ensures r.None? ==> forall j :: from <= j <= |s| ==> TotalGroupAt(s, j).None?
    ensures forall i :: from <= i <= |s| && TotalGroupAt(s, i).Some?
              && (forall j :: from <= j < i ==> TotalGroupAt(s, j).None?)
              ==> r == TotalGroupAt(s, i)
  {
    if from > |s| then None
    else if TotalGroupAt(s, from).Some? then TotalGroupAt(s, from)
    else TotalGroupFrom(s, from + 1)
  }

  /** `parseSteamTotalFromMarkdown`: the parsed count of the leftmost
      `Showing x-y of N entries` line, 0 when there is none. */
  function ParseSteamTotal(text: string): nat {
    match TotalGroupFrom(text, 0)
    case None => 0
    case Some(g) => ParseNumber(g)
  }

  /** With no total line the total is 0; otherwise the total is the parsed
      count of the leftmost line. */
  lemma ParseSteamTotalMeaning(text: string)
    ensures (forall i :: 0 <= i <= |text| ==> TotalGroupAt(text, i).None?) ==> ParseSteamTotal(text) == 0
    ensures ParseSteamTotal(text) > 0 ==> exists i :: (0 <= i <= |text| && TotalGroupAt(text, i).Some?
              && (forall j :: 0 <= j < i ==> TotalGroupAt(text, j).None?)
              && ParseSteamTotal(text) == ParseNumber(TotalGroupAt(text, i).value))
    ensures forall i :: 0 <= i <= |text| && TotalGroupAt(text, i).Some?
              && (forall j :: 0 <= j < i ==> TotalGroupAt(text, j).None?)
              ==> ParseSteamTotal(text) == ParseNumber(TotalGroupAt(text, i).value)
  {
  }
}
