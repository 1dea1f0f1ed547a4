/** lib/vlang.js: the older runtime. Messages are an array of blocks
    `{locale, messages}`; the best block is chosen by scoring each block's
    locale against the instance's `locale` (2 = same language and country,
    1 = same language, 0 = no match); a missing key gives a diagnostic or
    the key itself depending on `debug`; ranges are inclusive only. */
module LegacyVlang {
  import opened Wrappers
  import opened JsText
  import opened Messages
  import Runtime

  // ---------------------------------------------------------------------
  // Locale matching
  // ---------------------------------------------------------------------

  predicate IsSeparator(c: char) {
    c == '-' || c == '_'
  }

  /** The first index of `-` or `_`. */
  function FirstSeparator(s: string, from: nat): (r: Option<nat>)
    ensures r.Some? ==> from <= r.value < |s| && IsSeparator(s[r.value])
    ensures r.Some? ==> forall j :: from <= j < r.value ==> !IsSeparator(s[j])
    ensures r.None? ==> forall j :: from <= j < |s| ==> !IsSeparator(s[j])
    decreases |s| - from
  {
    if from >= |s| then None
    else if IsSeparator(s[from]) then Some(from)
    else FirstSeparator(s, from + 1)
  }

  /** The language and country of a locale. */
  datatype LocaleParts = LocaleParts(lang: string, country: Option<string>)

  /** `splitLocale`: lower-cased, split at `-` or `_`, and only the first two
      pieces kept; the country is undefined when there is no separator. */
  function SplitLocale(locale: string): LocaleParts {
    var l := Lower(locale);
    match FirstSeparator(l, 0)
    case None => LocaleParts(l, None)
    case Some(i) =>
      var rest := l[i + 1..];
      var country := match FirstSeparator(rest, 0) case None => rest case Some(j) => rest[..j];
      LocaleParts(l[..i], Some(country))
  }

  /** The language is the lower-cased text up to the first separator, the
      country the text from there up to the next one, and neither holds a
      separator; with no separator the whole lower-cased locale is the
      language. */
  lemma SplitLocaleSpec(locale: string)
    ensures var r := SplitLocale(locale);
      && (forall i :: 0 <= i < |r.lang| ==> !IsSeparator(r.lang[i]))
      && (r.country.Some? ==> forall i :: 0 <= i < |r.country.value| ==> !IsSeparator(r.country.value[i]))
      && (r.country.None? <==> r.lang == Lower(locale))
  {
  }

  /** `compareLocales(a, b)`: with a falsy side, 2 when both are the same
      value and 0 otherwise; else 2 for the same language and country, 1 for
      the same language only, 0 for different languages. */
  function CompareLocales(a: Option<string>, b: Option<string>): (score: nat)
    ensures score <= 2
  {
    if !TruthyString(a) || !TruthyString(b) then (if a == b then 2 else 0)
    else
      var sa := SplitLocale(a.value);
      var sb := SplitLocale(b.value);
      if sa.lang == sb.lang && sa.country == sb.country then 2
      else if sa.lang == sb.lang then 1
      else 0
  }

  /** The score is symmetric. */
  lemma CompareSymmetric(a: Option<string>, b: Option<string>)
    ensures CompareLocales(a, b) == CompareLocales(b, a)
  {
  }

  /** The two cases of compareLocales, stated by what they compare. */
  lemma CompareCases(a: Option<string>, b: Option<string>)
    ensures !TruthyString(a) || !TruthyString(b) ==> (CompareLocales(a, b) == 2 <==> a == b) && (CompareLocales(a, b) == 1 ==> false)
    ensures TruthyString(a) && TruthyString(b) ==>
      && (CompareLocales(a, b) == 2 <==> SplitLocale(a.value) == SplitLocale(b.value))
      && (CompareLocales(a, b) >= 1 <==> SplitLocale(a.value).lang == SplitLocale(b.value).lang)
  {
  }

  lemma LowerEmpty(s: string)
    ensures Lower(s) == "" <==> s == ""
  {
  }

  /** Letter case plays no part in a comparison of non-empty locales. */
  lemma CompareCaseInsensitive(a: string, b: Option<string>)
    requires a != ""
    ensures CompareLocales(Some(Lower(a)), b) == CompareLocales(Some(a), b)
  {
    LowerIdempotent(a);
    LowerEmpty(a);
    assert SplitLocale(Lower(a)) == SplitLocale(a);
  }

  /** Pieces after the second are ignored: `en-US-x` and `en_us` match
      exactly. */
  lemma CompareSecondPieceOnly()
    ensures CompareLocales(Some("en-US-x"), Some("en_us")) == 2
  {
    assert Lower("en-US-x") == "en-us-x";
    assert Lower("en_us") == "en_us";
    assert FirstSeparator("en-us-x", 0) == Some(2) by {
      assert FirstSeparator("en-us-x", 2) == Some(2);
      assert FirstSeparator("en-us-x", 1) == Some(2);
    }
    assert "en-us-x"[3..] == "us-x";
    assert FirstSeparator("us-x", 0) == Some(2) by {
      assert FirstSeparator("us-x", 2) == Some(2);
      assert FirstSeparator("us-x", 1) == Some(2);
    }
    assert FirstSeparator("en_us", 0) == Some(2) by {
      assert FirstSeparator("en_us", 2) == Some(2);
      assert FirstSeparator("en_us", 1) == Some(2);
    }
    assert "en_us"[3..] == "us";
    assert FirstSeparator("us", 0) == None by {
      assert FirstSeparator("us", 2) == None;
      assert FirstSeparator("us", 1) == None;
    }
    assert "en-us-x"[..2] == "en" && "us-x"[..2] == "us" && "en_us"[..2] == "en";
    assert SplitLocale("en-US-x") == LocaleParts("en", Some("us"));
    assert SplitLocale("en_us") == LocaleParts("en", Some("us"));
  }

  function Score(locale: Option<string>, candidate: string): nat {
    CompareLocales(locale, Some(candidate))
  }

  /** The score of every listed locale. */
  function Scores(locale: Option<string>, ls: seq<string>): (sc: seq<nat>)
    ensures |sc| == |ls| && forall j :: 0 <= j < |ls| ==> sc[j] == Score(locale, ls[j])
  {
    seq(|ls|, j requires 0 <= j < |ls| => Score(locale, ls[j]))
  }

  /** Index `i` holds the highest score, and every earlier index a lower one. */
  predicate FirstMax(sc: seq<nat>, i: nat) {
    && i < |sc|
    && (forall j :: 0 <= j < |sc| ==> sc[j] <= sc[i])
    && (forall j :: 0 <= j < i ==> sc[j] < sc[i])
  }

  predicate FirstBest(locale: Option<string>, ls: seq<string>, i: nat) {
    FirstMax(Scores(locale, ls), i)
  }

  /** There is at most one first best index. */
  lemma FirstBestUnique(locale: Option<string>, ls: seq<string>, i: nat, k: nat)
    requires FirstBest(locale, ls, i) && FirstBest(locale, ls, k)
    ensures i == k
  {
    FirstMaxUnique(Scores(locale, ls), i, k);
  }

  lemma FirstMaxUnique(sc: seq<nat>, i: nat, k: nat)
    requires FirstMax(sc, i) && FirstMax(sc, k)
    ensures i == k
  {
    var a, b := sc[i], sc[k];
  }

  /** When nothing matches at all, the first locale is chosen: the first best
      index is 0. */
  lemma NoMatchChoosesFirst(locale: Option<string>, ls: seq<string>)
    requires |ls| > 0 && forall j :: 0 <= j < |ls| ==> Score(locale, ls[j]) == 0
    ensures FirstBest(locale, ls, 0)
  {
  }

  /** The scan of `chooseLocale` over the scores: `bestLevel` starts at 0
      with the first candidate and moves only on a strictly higher score. */
  method FirstMaxIndex(sc: seq<nat>) returns (bi: nat)
    requires |sc| > 0
    ensures FirstMax(sc, bi)
  {
    var bestLevel := 0;
    bi := 0;
    var i := 0;
    while i < |sc|
      invariant 0 <= i <= |sc| && bi < |sc|
      invariant i == 0 ==> bi == 0 && bestLevel == 0
      invariant i > 0 ==> bi < i && bestLevel == sc[bi]
      invariant forall j :: 0 <= j < i ==> sc[j] <= bestLevel
      invariant forall j :: 0 <= j < bi ==> sc[j] < bestLevel
    {
      if sc[i] > bestLevel {
        bestLevel := sc[i];
        bi := i;
      }
      i := i + 1;
    }
  }

  // ---------------------------------------------------------------------
  // Ranges (inclusive only)
  // ---------------------------------------------------------------------

  /** The `map` callback: an empty part is an infinity, any other part goes
      through `parseInt` as it is, so a `!` makes it NaN. */
  function PartValue(x: string, idx: nat): Option<Runtime.ExtInt> {
    if x == [] then Some(if idx == 0 then Runtime.NegInf else Runtime.PosInf)
    else
      match ParseInt(x)
      case None => None
      case Some(v) => Some(Runtime.Fin(v))
  }

  function MapParts(raw: seq<string>, k: nat): (parts: seq<Option<Runtime.ExtInt>>)
    requires k <= |raw|
    ensures |parts| == k
  {
    if k == 0 then [] else MapParts(raw, k - 1) + [PartValue(raw[k - 1], k - 1)]
  }

  /** The closed interval a list of parts denotes; None for NaN or more than
      two parts. */
  function PartsBounds(parts: seq<string>): Option<(Runtime.ExtInt, Runtime.ExtInt)>
    requires |parts| >= 1
  {
    if |parts| > 2 then None
    else
      var lo := PartValue(parts[0], 0);
      var hi := if |parts| == 2 then PartValue(parts[1], 1) else lo;
      if lo.None? || hi.None? then None else Some((lo.value, hi.value))
  }

  /** isInRange of lib/vlang.js. */
  predicate InRange(range: string, n: int) {
    match PartsBounds(Split(range, ','))
    case None => false
    case Some((lo, hi)) => Runtime.Le(lo, Runtime.Fin(n)) && Runtime.Le(Runtime.Fin(n), hi)
  }

  /** Without `!` the two runtimes agree on every range. */
  lemma AgreesWithRuntime(range: string, n: int)
    requires forall i :: 0 <= i < |Split(range, ',')| ==> !Runtime.Marked(Split(range, ',')[i])
    ensures InRange(range, n) == Runtime.InRange(range, n)
  {
    var raw := Split(range, ',');
    if |raw| == 1 {
      SameBoundOne(raw);
    } else if |raw| == 2 {
      SameBoundTwo(raw);
    }
  }

  lemma SameBoundOne(raw: seq<string>)
    requires |raw| == 1 && !Runtime.Marked(raw[0])
    ensures PartsBounds(raw).None? <==> Runtime.PartsBounds(raw).None?
    ensures PartsBounds(raw).Some? ==> Runtime.PartsBounds(raw) == Some((PartsBounds(raw).value.0, false, PartsBounds(raw).value.1, false))
  {
    assert PartValue(raw[0], 0) == Runtime.PartValue(raw[0], 0);
  }

  lemma SameBoundTwo(raw: seq<string>)
    requires |raw| == 2 && !Runtime.Marked(raw[0]) && !Runtime.Marked(raw[1])
    ensures PartsBounds(raw).None? <==> Runtime.PartsBounds(raw).None?
    ensures PartsBounds(raw).Some? ==> Runtime.PartsBounds(raw) == Some((PartsBounds(raw).value.0, false, PartsBounds(raw).value.1, false))
  {
    assert PartValue(raw[0], 0) == Runtime.PartValue(raw[0], 0);
    assert PartValue(raw[1], 1) == Runtime.PartValue(raw[1], 1);
  }

  /** `!` is not understood: a marked part is NaN, so a range with one never
      matches. */
  lemma MarkedIsNaN(x: string, y: string, n: int)
    requires ',' !in x && ',' !in y && Runtime.Marked(x)
    ensures PartValue(x, 0).None? && PartValue(x, 1).None?
    ensures !InRange(x, n) && !InRange(x + "," + y, n) && !InRange(y + "," + x, n)
  {
    assert SkipSpaces(x) == x;
    assert DigitPrefix(x) == [];
    assert ParseInt(x) == None;
    SplitNoSep(x, ',');
    Runtime.SplitTwo(x, y);
    Runtime.SplitTwo(y, x);
  }

  // ---------------------------------------------------------------------
  // Pluralization
  // ---------------------------------------------------------------------

  function FirstMatchFrom(ranges: seq<(string, string)>, n: int, from: nat): (r: Option<nat>)
    ensures r.Some? ==> from <= r.value < |ranges| && InRange(ranges[r.value].0, n)
    ensures r.Some? ==> forall j :: from <= j < r.value ==> !InRange(ranges[j].0, n)
    ensures r.None? ==> forall j :: from <= j < |ranges| ==> !InRange(ranges[j].0, n)
    decreases |ranges| - from
  {
    if from >= |ranges| then None
    else if InRange(ranges[from].0, n) then Some(from)
    else FirstMatchFrom(ranges, n, from + 1)
  }

  function Selected(ranges: seq<(string, string)>, n: int): string {
    match FirstMatchFrom(ranges, n, 0)
    case Some(i) => ranges[i].1
    case None => if ranges == [] then Runtime.NoOptions else ranges[|ranges| - 1].1
  }

  /** `pluralize(message, n)` with the inclusive ranges. */
  function Pluralized(ranges: seq<(string, string)>, n: int): string {
    ReplaceFirst(Selected(ranges, n), "{}", Decimal(n))
  }

  /** First match, last-text fallback, and the diagnostic only for an empty
      map, as in the current runtime. */
  lemma PluralizedFirst(ranges: seq<(string, string)>, n: int, i: nat)
    requires i < |ranges| && InRange(ranges[i].0, n)
    requires forall j :: 0 <= j < i ==> !InRange(ranges[j].0, n)
    ensures Selected(ranges, n) == ranges[i].1
  {
    var m := FirstMatchFrom(ranges, n, 0);
    assert m.Some? by {
      if m.None? {
        assert false;
      }
    }
    assert m.value == i by {
      if m.value < i {
        assert false;
      } else if i < m.value {
        assert false;
      }
    }
  }

  lemma PluralizedLast(ranges: seq<(string, string)>, n: int)
    requires ranges != [] && forall j :: 0 <= j < |ranges| ==> !InRange(ranges[j].0, n)
    ensures Selected(ranges, n) == ranges[|ranges| - 1].1
  {
    var m := FirstMatchFrom(ranges, n, 0);
    if m.Some? {
      assert false;
    }
  }

  lemma PluralizedEmpty(n: int)
    ensures Pluralized([], n) == Runtime.NoOptions
  {
    Runtime.NoPlaceholder(Runtime.NoOptions);
  }

  // ---------------------------------------------------------------------
  // Lookup and translation
  // ---------------------------------------------------------------------

  /** The block `findEntry`'s loop stops at: the first one of the chosen
      locale, else the last block; None for no blocks. */
  function BlockIndex(messages: seq<Block>, locale: Option<string>): (r: Option<nat>)
    ensures r.None? <==> messages == []
    ensures r.Some? ==> r.value < |messages|
  {
    match FindLocale(messages, locale, 0)
    case Some(i) => Some(i)
    case None => if messages == [] then None else Some(|messages| - 1)
  }

  function FindLocale(messages: seq<Block>, locale: Option<string>, from: nat): (r: Option<nat>)
    ensures r.Some? ==> from <= r.value < |messages| && Some(messages[r.value].locale) == locale
    ensures r.Some? ==> forall j :: from <= j < r.value ==> Some(messages[j].locale) != locale
    ensures r.None? ==> forall j :: from <= j < |messages| ==> Some(messages[j].locale) != locale
    decreases |messages| - from
  {
    if from >= |messages| then None
    else if Some(messages[from].locale) == locale then Some(from)
    else FindLocale(messages, locale, from + 1)
  }

  /** The missing-key result. */
  function Missing(key: string, debug: bool): Entry {
    Static(if debug then "!!! MISSING (" + key + ") !!!" else key)
  }

  /** What `findEntry` returns once the locale is chosen. */
  function EntryIn(messages: seq<Block>, chosen: Option<string>, key: string, debug: bool): Entry {
    match BlockIndex(messages, chosen)
    case None => Missing(key, debug)
    case Some(i) => if key in messages[i].messages then messages[i].messages[key] else Missing(key, debug)
  }

  /** The best locale `chooseLocale` returns: the first listed locale with
      the highest score; undefined with no blocks. */
  ghost predicate IsChoice(locale: Option<string>, messages: seq<Block>, r: Option<string>) {
    (r.None? <==> messages == [])
    && (r.Some? ==> exists i: nat :: FirstBest(locale, ListLocales(messages), i) && r.value == messages[i].locale)
  }

  /** The chosen locale is one of the blocks', so findEntry reads the first
      block of that locale, and a key is found exactly when that block has
      it, even with an empty-string value; otherwise the diagnostic in debug
      mode and the key itself outside it. */
  lemma EntryInSpec(messages: seq<Block>, chosen: Option<string>, key: string, debug: bool, i: nat)
    requires i < |messages| && chosen == Some(messages[i].locale)
    ensures exists b :: (0 <= b <= i && messages[b].locale == messages[i].locale
      && (forall j :: 0 <= j < b ==> messages[j].locale != messages[i].locale)
      && EntryIn(messages, chosen, key, debug) == (if key in messages[b].messages then messages[b].messages[key] else Missing(key, debug)))
  {
    var f := FindLocale(messages, chosen, 0);
    assert f.Some?;
    var b := f.value;
    assert b <= i;
    assert BlockIndex(messages, chosen) == Some(b);
    assert messages[b].locale == messages[i].locale;
    assert forall j :: 0 <= j < b ==> messages[j].locale != messages[i].locale;
  }

  /** The missing-key entry: the diagnostic in debug mode, the key itself
      otherwise. */
  lemma MissingTexts(key: string)
    ensures Missing(key, true) == Static("!!! MISSING (" + key + ") !!!") && Missing(key, false) == Static(key)
  {
  }

  /** The format diagnostic, naming the form the count asked for. */
  function WrongFormat(expectPlural: bool): string {
    "!!! WRONG MESSAGE FORMAT (expected " + (if expectPlural then "pluralized" else "static") + " form) !!!"
  }

  /** `translate(key, messages, n)` once the entry is found: pluralize for
      a number and a range map, the text for no number and a string, the
      format diagnostic otherwise. A string count is not a number here. */
  function Translation(entry: Entry, n: Count): (r: string)
    ensures n.Number? && entry.Ranges? ==> r == Pluralized(entry.ranges, n.n)
    ensures !n.Number? && entry.Static? ==> r == entry.text
    ensures n.Number? && entry.Static? ==> r == WrongFormat(true)
    ensures !n.Number? && entry.Ranges? ==> r == WrongFormat(false)
  {
    if n.Number? && entry.Ranges? then Pluralized(entry.ranges, n.n)
    else if !n.Number? && entry.Static? then entry.text
    else WrongFormat(n.Number?)
  }

  /** A missing key with a numeric count yields the format diagnostic, not
      the missing-key text. */
  lemma MissingWithCount(messages: seq<Block>, chosen: Option<string>, key: string, debug: bool, n: int)
    requires forall b :: 0 <= b < |messages| ==> key !in messages[b].messages
    ensures Translation(EntryIn(messages, chosen, key, debug), Number(n)) == WrongFormat(true)
  {
  }

  // ---------------------------------------------------------------------
  // The instance
  // ---------------------------------------------------------------------

  class Vlang {
    var locale: Option<string>
    var debug: bool

    /** The initial data: no locale, debug on. */
    constructor()
      ensures locale.None? && debug
    {
      locale := None;
      debug := true;
    }

    /** chooseLocale: scans the listed locales keeping the first one whose
        score beats the best so far, starting from locales[0] at level 0. */
    method ChooseLocale(messages: seq<Block>, wanted: Option<string>) returns (r: Option<string>)
      ensures IsChoice(wanted, messages, r)
    {
      var ls := ListLocales(messages);
      if |ls| == 0 {
        r := None;
      } else {
        var bi := FirstMaxIndex(Scores(wanted, ls));
        r := Some(ls[bi]);
      }
    }

    /** findEntry: chooses the locale, walks the blocks until one has that
        locale, and reads the key with `hasOwnProperty`. */
    method FindEntry(key: string, messages: seq<Block>) returns (e: Entry)
      ensures exists chosen :: IsChoice(locale, messages, chosen) && e == EntryIn(messages, chosen, key, debug)
    {
      var chosen := ChooseLocale(messages, locale);
      var lm: Option<Block> := None;
      var i := 0;
      while i < |messages|
        invariant 0 <= i <= |messages|
        invariant FindLocale(messages, chosen, 0) == FindLocale(messages, chosen, i)
        invariant lm == if i == 0 then None else Some(messages[i - 1])
      {
        lm := Some(messages[i]);
        if Some(messages[i].locale) == chosen {
          break;
        }
        i := i + 1;
      }
      var hasKey := lm.Some? && key in lm.value.messages;
      if !hasKey {
        e := Missing(key, debug);
      } else {
        e := lm.value.messages[key];
      }
    }

    /** isInRange: maps the parts, rejects NaN and more than two parts,
        repeats a single part and compares inclusively. */
    method IsInRange(range: string, n: int) returns (b: bool)
      ensures b == InRange(range, n)
    {
      var raw := Split(range, ',');
      var parts: seq<Option<Runtime.ExtInt>> := [];
      var idx := 0;
      while idx < |raw|
        invariant 0 <= idx <= |raw|
        invariant parts == MapParts(raw, idx)
      {
        var x := raw[idx];
        var value: Option<Runtime.ExtInt>;
        if x == [] {
          value := Some(if idx == 0 then Runtime.NegInf else Runtime.PosInf);
        } else {
          var p := ParseInt(x);
          value := if p.Some? then Some(Runtime.Fin(p.value)) else None;
        }
        parts := parts + [value];
        idx := idx + 1;
      }
      PartsBoundsOf(raw, parts);
      if (exists i :: 0 <= i < |parts| && parts[i].None?) || |parts| > 2 {
        return false;
      }
      if |parts| == 1 {
        parts := parts + [parts[0]];
      }
      b := Runtime.Le(parts[0].value, Runtime.Fin(n)) && Runtime.Le(Runtime.Fin(n), parts[1].value);
    }

    /** pluralize: the same walk as the current runtime's, with these
        ranges. */
    method Pluralize(message: seq<(string, string)>, n: int) returns (r: string)
      ensures r == Pluralized(message, n)
    {
      var selected := Runtime.NoOptions;
      var i := 0;
      while i < |message|
        invariant 0 <= i <= |message|
        invariant FirstMatchFrom(message, n, 0) == FirstMatchFrom(message, n, i)
        invariant selected == if i == 0 then Runtime.NoOptions else message[i - 1].1
      {
        selected := message[i].1;
        var hit := IsInRange(message[i].0, n);
        if hit {
          break;
        }
        i := i + 1;
      }
      r := ReplaceFirst(selected, "{}", Decimal(n));
    }

    /** translate: the entry's shape against the count's. */
    method Translate(key: string, messages: seq<Block>, n: Count) returns (r: string)
      ensures exists chosen :: IsChoice(locale, messages, chosen) && r == Translation(EntryIn(messages, chosen, key, debug), n)
    {
      var entry := FindEntry(key, messages);
      var expectPlural := n.Number?;
      var isPlural := entry.Ranges?;
      if expectPlural && isPlural {
        r := Pluralize(entry.ranges, n.n);
      } else if !expectPlural && !isPlural {
        r := entry.text;
      } else {
        r := WrongFormat(expectPlural);
      }
    }
  }

  lemma PartsBoundsOf(raw: seq<string>, parts: seq<Option<Runtime.ExtInt>>)
    requires |raw| >= 1 && parts == MapParts(raw, |raw|)
    ensures PartsBounds(raw) == PartsResult(parts)
  {
    if |raw| == 1 {
      assert MapParts(raw, 0) == [];
      OnePart(raw, parts[0]);
    } else if |raw| == 2 {
      assert MapParts(raw, 1) == [PartValue(raw[0], 0)] by {
        assert MapParts(raw, 0) == [];
      }
      TwoParts(raw, parts[0], parts[1]);
    }
  }

  function PartsResult(parts: seq<Option<Runtime.ExtInt>>): Option<(Runtime.ExtInt, Runtime.ExtInt)> {
    if |parts| == 0 || |parts| > 2 || parts[0].None? || parts[|parts| - 1].None? then None
    else Some((parts[0].value, parts[|parts| - 1].value))
  }

  lemma OnePart(raw: seq<string>, p0: Option<Runtime.ExtInt>)
    requires |raw| == 1 && p0 == PartValue(raw[0], 0)
    ensures PartsBounds(raw) == if p0.None? then None else Some((p0.value, p0.value))
  {
  }

  lemma TwoParts(raw: seq<string>, p0: Option<Runtime.ExtInt>, p1: Option<Runtime.ExtInt>)
    requires |raw| == 2 && p0 == PartValue(raw[0], 0) && p1 == PartValue(raw[1], 1)
    ensures PartsBounds(raw) == if p0.None? || p1.None? then None else Some((p0.value, p1.value))
  {
  }
}
