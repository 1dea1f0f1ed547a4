/** runtime/runtime.js: the current runtime. A `Vlang` instance holds the
    enabled locales and three locale suggestions, resolves the active
    locale, and translates keys against a table `{locale: {messages}}`,
    pluralizing through the range grammar `a,b` / `a,` / `,b` / `v` with an
    optional `!` making a bound strict. */
module Runtime {
  import opened Wrappers
  import opened JsText
  import opened Messages

  // ---------------------------------------------------------------------
  // Active locale (the computed properties of makeVm)
  // ---------------------------------------------------------------------

  /** `sanitizeLocale`: a suggestion survives only if it is one of the
      enabled locales; otherwise null. */
  function Sanitize(locales: seq<string>, suggestion: Option<string>): (r: Option<string>)
    ensures r.Some? <==> suggestion.Some? && suggestion.value in locales
    ensures r.Some? ==> r == suggestion
  {
    if suggestion.Some? && suggestion.value in locales then suggestion else None
  }

  /** JavaScript `a || b` on optional strings: `a` when truthy, else `b`. */
  function Or(a: Option<string>, b: Option<string>): Option<string> {
    if TruthyString(a) then a else b
  }

  /** `defaultLocale`: `locales[0]`, undefined for an empty list. */
  function DefaultLocale(locales: seq<string>): Option<string> {
    if |locales| > 0 then Some(locales[0]) else None
  }

  /** The computed `locale`: the sanitized chosen, server and cookie
      suggestions in that order of priority, then the default locale. */
  function ActiveLocale(locales: seq<string>, chosen: Option<string>, ssr: Option<string>, cookie: Option<string>): Option<string> {
    Or(Sanitize(locales, chosen), Or(Sanitize(locales, ssr), Or(Sanitize(locales, cookie), DefaultLocale(locales))))
  }

  /** The active locale is the first suggestion that is an enabled, non-empty
      locale, in the order chosen, server, cookie; failing that the first
      enabled locale. */
  lemma ActiveLocaleSpec(locales: seq<string>, chosen: Option<string>, ssr: Option<string>, cookie: Option<string>)
    ensures var r := ActiveLocale(locales, chosen, ssr, cookie);
      && (Usable(locales, chosen) ==> r == chosen)
      && (!Usable(locales, chosen) && Usable(locales, ssr) ==> r == ssr)
      && (!Usable(locales, chosen) && !Usable(locales, ssr) && Usable(locales, cookie) ==> r == cookie)
      && (!Usable(locales, chosen) && !Usable(locales, ssr) && !Usable(locales, cookie) ==> r == DefaultLocale(locales))
  {
  }

  /** A suggestion the computed locale can pick. */
  predicate Usable(locales: seq<string>, s: Option<string>) {
    s.Some? && s.value in locales && s.value != ""
  }

  /** Whatever the suggestions, the active locale is an enabled locale; it is
      undefined exactly when no locale is enabled. */
  lemma ActiveLocaleEnabled(locales: seq<string>, chosen: Option<string>, ssr: Option<string>, cookie: Option<string>)
    ensures var r := ActiveLocale(locales, chosen, ssr, cookie);
      (r.None? <==> locales == []) && (r.Some? ==> r.value in locales)
  {
  }

  /** A chosen locale that is not enabled plays no part. */
  lemma UnknownChoiceIgnored(locales: seq<string>, chosen: Option<string>, ssr: Option<string>, cookie: Option<string>)
    requires chosen.None? || chosen.value !in locales
    ensures ActiveLocale(locales, chosen, ssr, cookie) == ActiveLocale(locales, None, ssr, cookie)
  {
  }

  // ---------------------------------------------------------------------
  // Ranges (isInRange)
  // ---------------------------------------------------------------------

  /** A bound: a finite number or one of the infinities. */
  datatype ExtInt = NegInf | Fin(v: int) | PosInf

  predicate Le(a: ExtInt, b: ExtInt) {
    a.NegInf? || b.PosInf? || (a.Fin? && b.Fin? && a.v <= b.v)
  }

  predicate Lt(a: ExtInt, b: ExtInt) {
    (a.NegInf? && !b.NegInf?) || (!a.PosInf? && b.PosInf?) || (a.Fin? && b.Fin? && a.v < b.v)
  }

  /** `incl` (`a <= b`) or `excl` (`a < b`). */
  predicate Holds(strict: bool, a: ExtInt, b: ExtInt) {
    if strict then Lt(a, b) else Le(a, b)
  }

  /** Whether a part of a range carries the `!` marker. */
  predicate Marked(x: string) {
    x != [] && x[0] == '!'
  }

  /** The value the `map` callback gives part `x` at position `idx`: an empty
      part is -Infinity first and +Infinity after; otherwise `parseInt` of
      the part without its `!`. None stands for NaN. */
  function PartValue(x: string, idx: nat): Option<ExtInt> {
    if x == [] then Some(if idx == 0 then NegInf else PosInf)
    else
      match ParseInt(if x[0] == '!' then x[1..] else x)
      case None => None
      case Some(v) => Some(Fin(v))
  }

  /** The lower and upper bound a list of parts denotes, None when there
      are more than two parts or a part is not a number. The upper operator
      is strict only when a second part is marked: a single part `v` is
      [v, v], and `!v` is ]v, v]. */
  function PartsBounds(parts: seq<string>): Option<(ExtInt, bool, ExtInt, bool)>
    requires |parts| >= 1
  {
    if |parts| > 2 then None
    else
      var lo := PartValue(parts[0], 0);
      var hi := if |parts| == 2 then PartValue(parts[1], 1) else lo;
      if lo.None? || hi.None? then None
      else Some((lo.value, Marked(parts[0]), hi.value, |parts| == 2 && Marked(parts[1])))
  }

  /** The bounds of a range string, split at commas. */
  function RangeBounds(range: string): Option<(ExtInt, bool, ExtInt, bool)> {
    PartsBounds(Split(range, ','))
  }

  predicate BoundsHold(bounds: Option<(ExtInt, bool, ExtInt, bool)>, n: int) {
    match bounds
    case None => false
    case Some((lo, loStrict, hi, hiStrict)) => Holds(loStrict, lo, Fin(n)) && Holds(hiStrict, Fin(n), hi)
  }

  /** isInRange, read off the bounds. */
  predicate InRange(range: string, n: int) {
    BoundsHold(RangeBounds(range), n)
  }

  lemma SplitTwo(a: string, b: string)
    requires ',' !in a && ',' !in b
    ensures Split(a + "," + b, ',') == [a, b]
  {
    SplitAt(a, b, ',');
    SplitNoSep(a, ',');
    SplitNoSep(b, ',');
  }

  /** A part `parseInt` reads as `v` is the bound `v`, and so is the same
      part behind a `!`. */
  lemma NumberPart(d: string, v: int)
    requires ParseInt(d) == Some(v)
    ensures !Marked(d) && PartValue(d, 0) == Some(Fin(v)) && PartValue(d, 1) == Some(Fin(v))
    ensures Marked("!" + d) && PartValue("!" + d, 0) == Some(Fin(v)) && PartValue("!" + d, 1) == Some(Fin(v))
  {
    assert ("!" + d)[1..] == d;
  }

  /** A range of two parts holds when both are numbers and `n` lies
      between them. */
  lemma TwoParts(range: string, x: string, y: string, n: int)
    requires Split(range, ',') == [x, y]
    ensures InRange(range, n) <==> (PartValue(x, 0).Some? && PartValue(y, 1).Some?
      && Holds(Marked(x), PartValue(x, 0).value, Fin(n)) && Holds(Marked(y), Fin(n), PartValue(y, 1).value))
  {
  }

  /** `"a,b"` holds exactly for a <= n <= b, and a `!` in front of either
      number makes that comparison strict. */
  lemma TwoBounds(x: string, y: string, a: int, b: int, n: int)
    requires ',' !in x && ',' !in y
    requires PartValue(x, 0) == Some(Fin(a)) && PartValue(y, 1) == Some(Fin(b))
    ensures InRange(x + "," + y, n) <==> (if Marked(x) then a < n else a <= n) && (if Marked(y) then n < b else n <= b)
  {
    SplitTwo(x, y);
    TwoParts(x + "," + y, x, y, n);
  }

  /** An empty upper part is +Infinity: `"a,"` holds exactly for n >= a. */
  lemma OpenAbove(x: string, a: int, n: int)
    requires ',' !in x && PartValue(x, 0) == Some(Fin(a))
    ensures InRange(x + ",", n) <==> (if Marked(x) then a < n else a <= n)
  {
    SplitTwo(x, "");
    assert x + "," + "" == x + ",";
    TwoParts(x + ",", x, "", n);
  }

  /** An empty lower part is -Infinity: `",b"` holds exactly for n <= b. */
  lemma OpenBelow(y: string, b: int, n: int)
    requires ',' !in y && PartValue(y, 1) == Some(Fin(b))
    ensures InRange("," + y, n) <==> (if Marked(y) then n < b else n <= b)
  {
    SplitTwo("", y);
    assert "" + "," + y == "," + y;
    TwoParts("," + y, "", y, n);
  }

  /** A single number `v` denotes [v, v]; the single part `!v` matches
      nothing, since only the lower comparison becomes strict. */
  lemma SingleValue(x: string, v: int, n: int)
    requires ',' !in x && PartValue(x, 0) == Some(Fin(v))
    ensures !Marked(x) ==> (InRange(x, n) <==> n == v)
    ensures Marked(x) ==> !InRange(x, n)
  {
    SplitNoSep(x, ',');
  }

  /** More than two parts never match. */
  lemma TooManyParts(a: string, b: string, c: string, n: int)
    requires ',' !in a && ',' !in b
    ensures !InRange(a + "," + b + "," + c, n)
  {
    assert RangeBounds(a + "," + b + "," + c) == None by {
      SplitAt(a, b + "," + c, ',');
      SplitAt(b, c, ',');
      assert a + "," + b + "," + c == a + [','] + (b + [','] + c);
    }
  }

  /** A part that is not a number makes the range match nothing. */
  lemma NotANumber(x: string, y: string, n: int)
    requires ',' !in x && ',' !in y
    requires PartValue(x, 0).None? || PartValue(y, 1).None?
    ensures !InRange(x + "," + y, n)
    ensures PartValue(x, 0).None? ==> !InRange(x, n)
  {
    SplitTwo(x, y);
    SplitNoSep(x, ',');
  }

  /** The comma alone is -Infinity..+Infinity and holds for every count; the
      empty range is -Infinity..-Infinity and holds for none. */
  lemma EmptyParts(n: int)
    ensures InRange(",", n)
    ensures !InRange("", n)
  {
    assert Split(",", ',') == ["", ""] by {
      assert ","[1..] == "";
    }
    assert Split("", ',') == [""];
  }

  // ---------------------------------------------------------------------
  // Pluralization
  // ---------------------------------------------------------------------

  const NoOptions := "!!! MISSING (no pluralized options) !!!"

  /** The first range, from `from` on, that contains `n`. */
  function FirstMatchFrom(ranges: seq<(string, string)>, n: int, from: nat): (r: Option<nat>)
    ensures r.Some? ==> from <= r.value < |ranges| && InRange(ranges[r.value].0, n)
    ensures r.Some? ==> forall j :: from <= j < r.value ==> !InRange(ranges[j].0, n)
    ensures r.None? ==> forall j :: from <= j < |ranges| ==> !InRange(ranges[j].0, n)
  {
    FirstTrue(Hits(ranges, n), from)
  }

  /** Whether each range holds for `n`. */
  function Hits(ranges: seq<(string, string)>, n: int): (h: seq<bool>)
    ensures |h| == |ranges| && forall i :: 0 <= i < |ranges| ==> h[i] == InRange(ranges[i].0, n)
  {
    seq(|ranges|, i requires 0 <= i < |ranges| => InRange(ranges[i].0, n))
  }

  /** The first set flag at or after `from`. */
  function FirstTrue(flags: seq<bool>, from: nat): (r: Option<nat>)
    ensures r.Some? ==> from <= r.value < |flags| && flags[r.value]
    ensures r.Some? ==> forall j :: from <= j < r.value ==> !flags[j]
    ensures r.None? ==> forall j :: from <= j < |flags| ==> !flags[j]
    decreases |flags| - from
  {
    if from >= |flags| then None
    else if flags[from] then Some(from)
    else FirstTrue(flags, from + 1)
  }

  /** The text `some` leaves in `selected`: the first matching range's text;
      when nothing matches, the text of the last range it tried, and the
      diagnostic only when there is no range at all. */
  function Selected(ranges: seq<(string, string)>, n: int): string {
    match FirstMatchFrom(ranges, n, 0)
    case Some(i) => ranges[i].1
    case None => if ranges == [] then NoOptions else ranges[|ranges| - 1].1
  }

  /** `pluralize(message, n)` on a range map in enumeration order. */
  function Pluralized(ranges: seq<(string, string)>, n: int): string {
    ReplaceFirst(Selected(ranges, n), "{}", Decimal(n))
  }

  /** The three outcomes of pluralize. */
  lemma PluralizedFirst(ranges: seq<(string, string)>, n: int, i: nat)
    requires i < |ranges| && InRange(ranges[i].0, n)
    requires forall j :: 0 <= j < i ==> !InRange(ranges[j].0, n)
    ensures Selected(ranges, n) == ranges[i].1
  {
    var m := FirstMatchFrom(ranges, n, 0);
    assert m.Some? by {
      if m.None? {
        assert false;
      }
    }
    assert m.value == i by {
      if m.value < i {
        assert false;
      } else if i < m.value {
        assert false;
      }
    }
  }

  lemma PluralizedLast(ranges: seq<(string, string)>, n: int)
    requires ranges != [] && forall j :: 0 <= j < |ranges| ==> !InRange(ranges[j].0, n)
    ensures Selected(ranges, n) == ranges[|ranges| - 1].1
  {
    var m := FirstMatchFrom(ranges, n, 0);
    if m.Some? {
      assert false;
    }
  }

  lemma PluralizedEmpty(n: int)
    ensures Pluralized([], n) == NoOptions
  {
    NoPlaceholder(NoOptions);
  }

  /** A text without `{` has no placeholder to replace. */
  lemma NoPlaceholder(s: string)
    requires '{' !in s
    ensures ReplaceFirst(s, "{}", "") == s && forall rep :: ReplaceFirst(s, "{}", rep) == s
  {
    forall j | 0 <= j ensures !OccursAt(s, "{}", j) {
      if j + 2 <= |s| {
        assert s[j..j + 2][0] == s[j];
      }
    }
    forall rep ensures ReplaceFirst(s, "{}", rep) == s {
      ReplaceFirstSpec(s, "{}", rep);
    }
    ReplaceFirstSpec(s, "{}", "");
  }

  /** `message[key]` read off a bucket: None for an absent key. */
  function Lookup(bucket: map<string, Entry>, key: string): Option<Entry> {
    if key in bucket then Some(bucket[key]) else None
  }

  /** `messages[locale]` with an undefined locale reads the property
      "undefined". */
  function TableKey(locale: Option<string>): string {
    if locale.Some? then locale.value else "undefined"
  }

  /** The count after `translate`'s coercion: a string that parses as a
      number becomes that number; any other string stays a string. */
  function Coerce(n: Count): (c: Count)
    ensures n.Number? || n.NoCount? ==> c == n
    ensures n.Text? ==> (c.Number? <==> ParseInt(n.s).Some?)
    ensures n.Text? && ParseInt(n.s).Some? ==> c == Number(ParseInt(n.s).value)
  {
    if n.Text? && ParseInt(n.s).Some? then Number(ParseInt(n.s).value) else n
  }

  function MissingKey(key: string): string {
    "!!! MISSING KEY \"" + key + "\" !!!"
  }

  function NotPluralizable(key: string): string {
    "!!! USING \"" + key + "\" AS PLURALIZABLE STRING, BUT IT's NOT !!!"
  }

  function IsPluralizable(key: string): string {
    "!!! USING \"" + key + "\" AS REGULAR STRING, BUT IT'S PLURALIZABLE !!!"
  }

  /** `translate(key, n, messages)` once the locale is known. */
  function Translation(locale: Option<string>, table: map<string, map<string, Entry>>, key: string, n: Count): string {
    var bucket := if TableKey(locale) in table then table[TableKey(locale)] else map[];
    match Lookup(bucket, key)
    case None => MissingKey(key)
    case Some(e) =>
      if !Truthy(e) then MissingKey(key)
      else
        match Coerce(n)
        case Number(v) => if e.Static? then NotPluralizable(key) else Pluralized(e.ranges, v)
        case _ => if e.Ranges? then IsPluralizable(key) else e.text
  }

  /** The entry translate looks at. */
  function EntryOf(locale: Option<string>, table: map<string, map<string, Entry>>, key: string): Option<Entry> {
    if TableKey(locale) in table then Lookup(table[TableKey(locale)], key) else None
  }

  /** A missing bucket, a missing key and an empty-string entry all give the
      missing-key diagnostic, whatever the count. */
  lemma TranslateMissing(locale: Option<string>, table: map<string, map<string, Entry>>, key: string, n: Count)
    requires EntryOf(locale, table, key).None? || EntryOf(locale, table, key) == Some(Static(""))
    ensures Translation(locale, table, key, n) == MissingKey(key)
  {
  }

  /** The four combinations of count and entry shape. */
  lemma TranslateShapes(locale: Option<string>, table: map<string, map<string, Entry>>, key: string, n: Count)
    requires EntryOf(locale, table, key).Some? && Truthy(EntryOf(locale, table, key).value)
    ensures var e := EntryOf(locale, table, key).value;
      var r := Translation(locale, table, key, n);
      && (Coerce(n).Number? && e.Static? ==> r == NotPluralizable(key))
      && (Coerce(n).Number? && e.Ranges? ==> r == Pluralized(e.ranges, Coerce(n).n))
      && (!Coerce(n).Number? && e.Ranges? ==> r == IsPluralizable(key))
      && (!Coerce(n).Number? && e.Static? ==> r == e.text)
  {
  }

  /** A numeric string count acts as the number, and any other string count
      acts as no count at all. */
  lemma TranslateStringCount(locale: Option<string>, table: map<string, map<string, Entry>>, key: string, s: string)
    ensures ParseInt(s).Some? ==> Translation(locale, table, key, Text(s)) == Translation(locale, table, key, Number(ParseInt(s).value))
    ensures ParseInt(s).None? ==> Translation(locale, table, key, Text(s)) == Translation(locale, table, key, NoCount)
  {
  }

  // ---------------------------------------------------------------------
  // The Vlang instance
  // ---------------------------------------------------------------------

  class Vlang {
    var locales: seq<string>
    var chosenLocale: Option<string>
    var ssrLocale: Option<string>
    var cookieLocale: Option<string>

    /** `new Vlang({locales, cookieLocale, ssrLocale})`: no locale chosen
        yet. */
    constructor(locales: seq<string>, cookieLocale: Option<string>, ssrLocale: Option<string>)
      ensures this.locales == locales && this.cookieLocale == cookieLocale && this.ssrLocale == ssrLocale
      ensures chosenLocale.None?
    {
      this.locales := locales;
      this.cookieLocale := cookieLocale;
      this.ssrLocale := ssrLocale;
      chosenLocale := None;
    }

    function Locale(): Option<string>
      reads this
    {
      ActiveLocale(locales, chosenLocale, ssrLocale, cookieLocale)
    }

    /** `getLocale()`: the computed locale. */
    method GetLocale() returns (r: Option<string>)
      ensures r == ActiveLocale(locales, chosenLocale, ssrLocale, cookieLocale)
      ensures r.None? <==> locales == []
      ensures r.Some? ==> r.value in locales
    {
      ActiveLocaleEnabled(locales, chosenLocale, ssrLocale, cookieLocale);
      r := Locale();
    }

    /** `setLocale(locale)`: only the chosen suggestion changes. An enabled,
        non-empty locale becomes the active one; any other value leaves the
        active locale to the server, cookie and default suggestions. */
    method SetLocale(locale: Option<string>)
      modifies this
      ensures chosenLocale == locale
      ensures locales == old(locales) && ssrLocale == old(ssrLocale) && cookieLocale == old(cookieLocale)
      ensures Usable(locales, locale) ==> Locale() == locale
      ensures (locale.None? || locale.value !in locales) ==> Locale() == ActiveLocale(locales, None, ssrLocale, cookieLocale)
      ensures (locale.None? || locale.value !in locales) && !Usable(locales, old(chosenLocale)) ==> Locale() == old(Locale())
    {
      chosenLocale := locale;
    }

    /** isInRange: splits the range at commas, maps every part to a bound
        (an empty part is an infinity, `!` picks the strict operator for its
        side), rejects NaN and more than two parts, repeats a single part and
        compares. */
    method IsInRange(range: string, n: int) returns (b: bool)
      ensures b == InRange(range, n)
    {
      var raw := Split(range, ',');
      var parts, lowerStrict, upperStrict := MapAllParts(raw);
      PartsBoundsOf(raw, parts, lowerStrict, upperStrict);
      if (exists i :: 0 <= i < |parts| && parts[i].None?) || |parts| > 2 {
        return false;
      }
      if |parts| == 1 {
        parts := parts + [parts[0]];
      }
      b := Holds(lowerStrict, parts[0].value, Fin(n)) && Holds(upperStrict, Fin(n), parts[1].value);
    }

    /** `range.split(",").map(...)`: every part mapped, with the operators
        the callback selects for the two sides. */
    method MapAllParts(raw: seq<string>) returns (parts: seq<Option<ExtInt>>, lowerStrict: bool, upperStrict: bool)
      ensures parts == MapParts(raw, |raw|)
      ensures lowerStrict == (|raw| > 0 && Marked(raw[0]))
      ensures upperStrict == UpperStrict(raw, |raw|)
    {
      lowerStrict, upperStrict := false, false;
      parts := [];
      var idx := 0;
      while idx < |raw|
        invariant 0 <= idx <= |raw|
        invariant parts == MapParts(raw, idx)
        invariant lowerStrict == (idx > 0 && Marked(raw[0]))
        invariant upperStrict == UpperStrict(raw, idx)
      {
        var value, op := MapPart(raw[idx], idx);
        if op.Some? {
          if idx == 0 {
            lowerStrict := op.value;
          } else {
            upperStrict := op.value;
          }
        }
        parts := parts + [value];
        idx := idx + 1;
      }
    }

    /** The `map` callback of isInRange for part `x` at position `idx`: its
        bound, and the operator it selects for its side (none for an empty
        part). */
    method MapPart(x: string, idx: nat) returns (value: Option<ExtInt>, op: Option<bool>)
      ensures value == PartValue(x, idx)
      ensures op == if x == [] then None else Some(Marked(x))
    {
      if x == [] {
        return Some(if idx == 0 then NegInf else PosInf), None;
      }
      var y := x;
      var strict := false;
      if y[0] == '!' {
        y := y[1..];
        strict := true;
      }
      var p := ParseInt(y);
      value := if p.Some? then Some(Fin(p.value)) else None;
      op := Some(strict);
    }

    /** pluralize: walks the ranges in order, remembering each text, and
        stops at the first range containing `n`; then the first `{}` of the
        remembered text becomes `n`. */
    method Pluralize(message: seq<(string, string)>, n: int) returns (r: string)
      ensures r == Pluralized(message, n)
    {
      var selected := NoOptions;
      var i := 0;
      while i < |message|
        invariant 0 <= i <= |message|
        invariant FirstMatchFrom(message, n, 0) == FirstMatchFrom(message, n, i)
        invariant selected == if i == 0 then NoOptions else message[i - 1].1
      {
        selected := message[i].1;
        var hit := IsInRange(message[i].0, n);
        if hit {
          assert FirstMatchFrom(message, n, 0) == Some(i);
          break;
        }
        i := i + 1;
      }
      r := ReplaceFirst(selected, "{}", Decimal(n));
    }

    /** translate: the active locale's bucket, the count coercion, then the
        missing-key check and the shape checks. */
    method Translate(key: string, n: Count, messages: map<string, map<string, Entry>>) returns (r: string)
      ensures r == Translation(Locale(), messages, key, n)
    {
      var locale := GetLocale();
      var bucket := if TableKey(locale) in messages then messages[TableKey(locale)] else map[];
      var message := Lookup(bucket, key);
      var count := n;
      if n.Text? {
        var parsed := ParseInt(n.s);
        if parsed.Some? {
          count := Number(parsed.value);
        }
      }
      if message.None? || !Truthy(message.value) {
        r := MissingKey(key);
      } else if count.Number? {
        if message.value.Static? {
          r := NotPluralizable(key);
        } else {
          r := Pluralize(message.value.ranges, count.n);
        }
      } else if message.value.Ranges? {
        r := IsPluralizable(key);
      } else {
        r := message.value.text;
      }
    }
  }

  /** What the mapped parts and the two operators say about the bounds. */
  lemma PartsBoundsOf(raw: seq<string>, parts: seq<Option<ExtInt>>, lowerStrict: bool, upperStrict: bool)
    requires |raw| >= 1 && |parts| == |raw|
    requires parts == MapParts(raw, |raw|)
    requires lowerStrict == Marked(raw[0]) && upperStrict == UpperStrict(raw, |raw|)
    ensures PartsBounds(raw) == PartsResult(parts, lowerStrict, upperStrict)
  {
    if |raw| == 1 {
      assert MapParts(raw, 0) == [];
      OnePart(raw, parts[0]);
    } else if |raw| == 2 {
      assert MapParts(raw, 1) == [PartValue(raw[0], 0)] by {
        assert MapParts(raw, 0) == [];
      }
      TwoPartsBounds(raw, parts[0], parts[1]);
      assert UpperStrict(raw, 2) == Marked(raw[1]);
    }
  }

  /** `raw.map(callback)` on the first `k` parts. */
  function MapParts(raw: seq<string>, k: nat): (parts: seq<Option<ExtInt>>)
    requires k <= |raw|
    ensures |parts| == k
  {
    if k == 0 then [] else MapParts(raw, k - 1) + [PartValue(raw[k - 1], k - 1)]
  }

  /** The bounds as the method reads them off its mapped parts. */
  function PartsResult(parts: seq<Option<ExtInt>>, lowerStrict: bool, upperStrict: bool): Option<(ExtInt, bool, ExtInt, bool)> {
    if |parts| == 0 || |parts| > 2 || parts[0].None? || parts[|parts| - 1].None? then None
    else Some((parts[0].value, lowerStrict, parts[|parts| - 1].value, upperStrict))
  }

  lemma OnePart(raw: seq<string>, p0: Option<ExtInt>)
    requires |raw| == 1 && p0 == PartValue(raw[0], 0)
    ensures PartsBounds(raw) == if p0.None? then None else Some((p0.value, Marked(raw[0]), p0.value, false))
  {
  }

  lemma TwoPartsBounds(raw: seq<string>, p0: Option<ExtInt>, p1: Option<ExtInt>)
    requires |raw| == 2 && p0 == PartValue(raw[0], 0) && p1 == PartValue(raw[1], 1)
    ensures PartsBounds(raw) == if p0.None? || p1.None? then None else Some((p0.value, Marked(raw[0]), p1.value, Marked(raw[1])))
  {
  }

  /** The strictness `opUpper` holds once `k` parts are mapped: set by the
      last non-empty part after the first. */
  ghost function UpperStrict(raw: seq<string>, k: nat): bool
    requires k <= |raw|
  {
    if k <= 1 then false
    else if raw[k - 1] == [] then UpperStrict(raw, k - 1)
    else Marked(raw[k - 1])
  }
}
