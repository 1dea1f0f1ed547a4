/** lib/filters.js: `frenchPunctuation`, the only text filter. It applies
    three regular-expression replacements in turn; each is a global,
    non-overlapping, left-to-right replace, written here as a scanner that
    either rewrites a match and resumes after it or copies one character. */
module Filters {
  import opened Wrappers

  /** U+202F NARROW NO-BREAK SPACE, before `;`, `!` and `?`. */
  const NarrowNoBreak: char := '\U{202F}'
  /** U+00A0 NO-BREAK SPACE, before `:` and inside guillemets. */
  const NoBreak: char := '\U{00A0}'
  const OpenQuote: char := '\U{00AB}'
  const CloseQuote: char := '\U{00BB}'

  /** The two kinds of rule: `/([^ ]) ([marks])/g` with the space replaced
      by `space`, and `/« ([^»]+) »/g` with both inner spaces replaced by a
      no-break space. */
  datatype Rule = SpaceBefore(marks: string, space: char) | Guillemets

  /** FRENCH_RULES, in their order. */
  const FrenchRules: seq<Rule> := [SpaceBefore(";!?", NarrowNoBreak), SpaceBefore(":", NoBreak), Guillemets]

  /** One `/([^ ]) ([marks])/g` replace: a non-space, a space and a mark
      become the non-space, `space` and the mark. */
  function SpaceBeforeRule(s: string, marks: string, space: char): (r: string)
    ensures |r| == |s|
    decreases |s|
  {
    if |s| >= 3 && s[0] != ' ' && s[1] == ' ' && s[2] in marks then
      [s[0], space, s[2]] + SpaceBeforeRule(s[3..], marks, space)
    else if s == [] then []
    else [s[0]] + SpaceBeforeRule(s[1..], marks, space)
  }

  /** The first `»` at or after `from`. */
  function CloseFrom(s: string, from: nat): (r: Option<nat>)
    ensures r.Some? ==> from <= r.value < |s| && s[r.value] == CloseQuote
    ensures r.Some? ==> forall k :: from <= k < r.value ==> s[k] != CloseQuote
    ensures r.None? ==> forall k :: from <= k < |s| ==> s[k] != CloseQuote
    decreases |s| - from
  {
    if from >= |s| then None
    else if s[from] == CloseQuote then Some(from)
    else CloseFrom(s, from + 1)
  }

  /** Where a `/« ([^»]+) »/` match starting at 0 ends: the group cannot hold
      a `»`, so the closing one is the first `»` after `« `, and it needs a
      space before it and at least one character between. */
  function GuillemetsEnd(s: string): (r: Option<nat>)
    ensures r.Some? ==> 4 <= r.value < |s| && s[r.value] == CloseQuote && s[r.value - 1] == ' '
    ensures r.Some? ==> s[0] == OpenQuote && s[1] == ' ' && forall k :: 2 <= k < r.value ==> s[k] != CloseQuote
  {
    if |s| >= 2 && s[0] == OpenQuote && s[1] == ' ' then
      match CloseFrom(s, 2)
      case Some(j) => if j >= 4 && s[j - 1] == ' ' then Some(j) else None
      case None => None
    else None
  }

  /** One `/« ([^»]+) »/g` replace. */
  function GuillemetsRule(s: string): (r: string)
    ensures |r| == |s|
    decreases |s|
  {
    match GuillemetsEnd(s)
    case Some(j) => [OpenQuote, NoBreak] + s[2..j - 1] + [NoBreak, CloseQuote] + GuillemetsRule(s[j + 1..])
    case None => if s == [] then [] else [s[0]] + GuillemetsRule(s[1..])
  }

  function Apply(rule: Rule, s: string): (r: string)
    ensures |r| == |s|
  {
    match rule
    case SpaceBefore(marks, space) => SpaceBeforeRule(s, marks, space)
    case Guillemets => GuillemetsRule(s)
  }

  /** The rules applied one after the other, the first one first. */
  function ApplyAll(rules: seq<Rule>, s: string): (r: string)
    ensures |r| == |s|
  {
    if rules == [] then s else Apply(rules[|rules| - 1], ApplyAll(rules[..|rules| - 1], s))
  }

  /** What `frenchPunctuation` makes of a string. */
  function French(s: string): string {
    GuillemetsRule(SpaceRules(s))
  }

  /** A JavaScript argument: a string or anything else. */
  datatype JsValue = JsString(s: string) | NotString

  /** frenchPunctuation: anything but a string comes back as it is; a string
      goes through the three rules in order. */
  method FrenchPunctuation(v: JsValue) returns (r: JsValue)
    ensures v.NotString? ==> r == v
    ensures v.JsString? ==> r == JsString(French(v.s))
  {
    if v.NotString? {
      return v;
    }
    var out := v.s;
    var i := 0;
    while i < |FrenchRules|
      invariant 0 <= i <= |FrenchRules|
      invariant out == ApplyAll(FrenchRules[..i], v.s)
    {
      out := Apply(FrenchRules[i], out);
      assert FrenchRules[..i + 1][..i] == FrenchRules[..i];
      i := i + 1;
    }
    assert FrenchRules[..3] == FrenchRules;
    RulesInOrder(v.s);
    r := JsString(out);
  }

  /** FRENCH_RULES are applied once each, in their order. */
  lemma RulesInOrder(s: string)
    ensures ApplyAll(FrenchRules, s) == French(s)
  {
    assert FrenchRules[..2][..1] == FrenchRules[..1];
    assert FrenchRules[..1][..0] == [];
    assert FrenchRules[..3][..2] == FrenchRules[..2];
    assert FrenchRules[..3] == FrenchRules;
    var t0 := ApplyAll(FrenchRules[..1], s);
    assert ApplyAll(FrenchRules[..1][..0], s) == s;
    assert FrenchRules[..1][0] == SpaceBefore(";!?", NarrowNoBreak);
    assert t0 == SpaceBeforeRule(s, ";!?", NarrowNoBreak);
    var t1 := ApplyAll(FrenchRules[..2], s);
    assert FrenchRules[..2][1] == SpaceBefore(":", NoBreak);
    assert t1 == SpaceBeforeRule(t0, ":", NoBreak);
  }

  // ---------------------------------------------------------------------
  // What each rule changes
  // ---------------------------------------------------------------------

  /** A SpaceBefore rule changes only spaces, into its own space, and only
      those between a non-space and a mark. */
  lemma {:induction false} SpaceBeforeChanges(s: string, marks: string, space: char, k: nat)
    requires k < |s|
    ensures var r := SpaceBeforeRule(s, marks, space);
      r[k] == s[k] || (s[k] == ' ' && r[k] == space && 1 <= k && s[k - 1] != ' ' && k + 1 < |s| && s[k + 1] in marks)
    decreases |s|
  {
    if |s| >= 3 && s[0] != ' ' && s[1] == ' ' && s[2] in marks {
      if k >= 3 {
        SpaceBeforeChanges(s[3..], marks, space, k - 3);
      }
    } else if k >= 1 {
      SpaceBeforeChanges(s[1..], marks, space, k - 1);
    }
  }

  /** The guillemets rule changes only spaces, into no-break spaces. */
  lemma {:induction false} GuillemetsChanges(s: string, k: nat)
    requires k < |s|
    ensures var r := GuillemetsRule(s); r[k] == s[k] || (s[k] == ' ' && r[k] == NoBreak)
    decreases |s|
  {
    match GuillemetsEnd(s)
    case Some(j) =>
      var r := GuillemetsRule(s);
      var rest := GuillemetsRule(s[j + 1..]);
      assert r == [OpenQuote, NoBreak] + s[2..j - 1] + [NoBreak, CloseQuote] + rest;
      if k > j {
        GuillemetsChanges(s[j + 1..], k - j - 1);
        assert r[k] == rest[k - j - 1];
      } else if 2 <= k < j - 1 {
        assert r[k] == s[2..j - 1][k - 2];
      }
    case None =>
      if k >= 1 {
        GuillemetsChanges(s[1..], k - 1);
      }
  }

  /** frenchPunctuation keeps the length, and a position can differ only
      where the input has an ASCII space, which becomes U+202F or U+00A0. */
  lemma FrenchChanges(s: string)
    ensures |French(s)| == |s|
    ensures forall k :: 0 <= k < |s| ==> French(s)[k] == s[k] || (s[k] == ' ' && French(s)[k] in {NarrowNoBreak, NoBreak})
  {
    var t1 := SpaceBeforeRule(s, ";!?", NarrowNoBreak);
    var t2 := SpaceBeforeRule(t1, ":", NoBreak);
    forall k | 0 <= k < |s|
      ensures French(s)[k] == s[k] || (s[k] == ' ' && French(s)[k] in {NarrowNoBreak, NoBreak})
    {
      SpaceBeforeChanges(s, ";!?", NarrowNoBreak, k);
      SpaceBeforeChanges(t1, ":", NoBreak, k);
      GuillemetsChanges(t2, k);
    }
  }

  /** A string without an ASCII space comes back unchanged. */
  lemma FrenchWithoutSpace(s: string)
    requires ' ' !in s
    ensures French(s) == s
  {
    FrenchChanges(s);
  }

  // ---------------------------------------------------------------------
  // Where the rules do apply
  // ---------------------------------------------------------------------

  /** A space between a character that is neither a space nor a mark and a
      mark is always rewritten: no earlier match can cover that character,
      so the scan reaches it and matches there. */
  lemma {:induction false} SpaceBeforeApplies(s: string, marks: string, space: char, i: nat)
    requires i + 2 < |s| && s[i] != ' ' && s[i] !in marks && s[i + 1] == ' ' && s[i + 2] in marks
    ensures SpaceBeforeRule(s, marks, space)[i + 1] == space
    decreases |s|
  {
    if |s| >= 3 && s[0] != ' ' && s[1] == ' ' && s[2] in marks {
      if i >= 3 {
        SpaceBeforeApplies(s[3..], marks, space, i - 3);
      }
    } else {
      SpaceBeforeApplies(s[1..], marks, space, i - 1);
    }
  }

  /** In frenchPunctuation: a space after a non-space character that is not
      itself `;`, `!` or `?`, and before one of them, becomes U+202F. */
  lemma FrenchBeforeExclamation(s: string, i: nat)
    requires i + 2 < |s| && s[i] != ' ' && s[i] !in ";!?" && s[i + 1] == ' ' && s[i + 2] in ";!?"
    ensures French(s)[i + 1] == NarrowNoBreak
  {
    var t1 := SpaceBeforeRule(s, ";!?", NarrowNoBreak);
    var t2 := SpaceBeforeRule(t1, ":", NoBreak);
    SpaceBeforeApplies(s, ";!?", NarrowNoBreak, i);
    SpaceBeforeChanges(t1, ":", NoBreak, i + 1);
    GuillemetsChanges(t2, i + 1);
  }

  /** In frenchPunctuation: a space after a non-space character other than
      `:`, `;`, `!` and `?`, and before `:`, becomes U+00A0. */
  lemma FrenchBeforeColon(s: string, i: nat)
    requires i + 2 < |s| && s[i] != ' ' && s[i] !in ":;!?" && s[i + 1] == ' ' && s[i + 2] == ':'
    ensures French(s)[i + 1] == NoBreak
  {
    var t1 := SpaceBeforeRule(s, ";!?", NarrowNoBreak);
    var t2 := SpaceBeforeRule(t1, ":", NoBreak);
    SpaceBeforeChanges(s, ";!?", NarrowNoBreak, i);
    SpaceBeforeChanges(s, ";!?", NarrowNoBreak, i + 1);
    SpaceBeforeChanges(s, ";!?", NarrowNoBreak, i + 2);
    SpaceBeforeApplies(t1, ":", NoBreak, i);
    GuillemetsChanges(t2, i + 1);
  }

  /** Matches do not overlap: in `a ! ?` the first match consumes the `!`,
      so the space before `?` is left as it is by the first rule. */
  lemma NonOverlapping()
    ensures SpaceBeforeRule("a ! ?", ";!?", NarrowNoBreak) == ['a', NarrowNoBreak, '!', ' ', '?']
  {
    assert "a ! ?"[3..] == " ?";
    assert " ?"[1..] == "?";
    assert "?"[1..] == [];
  }

  /** With no `«` in it, a prefix is copied and the scan resumes right after
      it. */
  lemma {:induction false} GuillemetsPrefix(p: string, t: string)
    requires OpenQuote !in p
    ensures GuillemetsRule(p + t) == p + GuillemetsRule(t)
    decreases |p|
  {
    if p != [] {
      var s := p + t;
      assert GuillemetsEnd(s).None?;
      assert s[1..] == p[1..] + t;
      GuillemetsPrefix(p[1..], t);
      assert s[0] == p[0];
      assert [p[0]] + (p[1..] + GuillemetsRule(t)) == p + GuillemetsRule(t);
    } else {
      assert p + t == t;
    }
  }

  /** `« X »`, with X non-empty and free of `»`, becomes `« X »`. */
  lemma GuillemetsMatch(x: string, q: string)
    requires x != [] && CloseQuote !in x
    ensures GuillemetsRule([OpenQuote, ' '] + x + [' ', CloseQuote] + q)
      == [OpenQuote, NoBreak] + x + [NoBreak, CloseQuote] + GuillemetsRule(q)
  {
    var s := [OpenQuote, ' '] + x + [' ', CloseQuote] + q;
    var j := |x| + 3;
    assert s[j] == CloseQuote;
    assert forall k :: 2 <= k < j ==> s[k] != CloseQuote by {
      forall k | 2 <= k < j ensures s[k] != CloseQuote {
        if k < j - 1 {
          assert s[k] == x[k - 2];
        }
      }
    }
    GuillemetsEndAt(s, j);
    assert s[2..j - 1] == x;
    assert s[j + 1..] == q;
  }

  /** The first two rules together. */
  function SpaceRules(s: string): (t: string)
    ensures |t| == |s|
  {
    SpaceBeforeRule(SpaceBeforeRule(s, ";!?", NarrowNoBreak), ":", NoBreak)
  }

  /** `t` is `s` with some ASCII spaces turned into U+202F or U+00A0. */
  predicate SpacesOnly(s: string, t: string) {
    |t| == |s| && forall k :: 0 <= k < |s| ==> t[k] == s[k] || (s[k] == ' ' && t[k] in {NarrowNoBreak, NoBreak})
  }

  lemma SpaceRulesOnlySpaces(s: string)
    ensures SpacesOnly(s, SpaceRules(s))
  {
    var t1 := SpaceBeforeRule(s, ";!?", NarrowNoBreak);
    forall k | 0 <= k < |s|
      ensures SpaceRules(s)[k] == s[k] || (s[k] == ' ' && SpaceRules(s)[k] in {NarrowNoBreak, NoBreak})
    {
      SpaceBeforeChanges(s, ";!?", NarrowNoBreak, k);
      SpaceBeforeChanges(t1, ":", NoBreak, k);
    }
  }

  /** A space followed by none of `:;!?` survives the first two rules. */
  lemma SpaceKept(s: string, k: nat)
    requires k + 1 < |s| && s[k] == ' ' && s[k + 1] !in ":;!?"
    ensures SpaceRules(s)[k] == ' '
  {
    var t1 := SpaceBeforeRule(s, ";!?", NarrowNoBreak);
    SpaceBeforeChanges(s, ";!?", NarrowNoBreak, k);
    SpaceBeforeChanges(s, ";!?", NarrowNoBreak, k + 1);
    SpaceBeforeChanges(t1, ":", NoBreak, k);
  }

  /** After the first two rules a `« X »` at `n`..`m + 1` is still there,
      with no `«` before it and no `»` inside. */
  lemma GuillemetsSurvive(s: string, n: nat, m: nat)
    requires n + 2 < m && m + 1 < |s|
    requires s[n] == OpenQuote && s[n + 1] == ' ' && s[m] == ' ' && s[m + 1] == CloseQuote && s[n + 2] !in ":;!?"
    requires forall k :: 0 <= k < n ==> s[k] != OpenQuote
    requires forall k :: n + 2 <= k < m ==> s[k] != CloseQuote
    ensures var t := SpaceRules(s);
      && t[n] == OpenQuote && t[n + 1] == ' ' && t[m] == ' ' && t[m + 1] == CloseQuote
      && (forall k :: 0 <= k < n ==> t[k] != OpenQuote)
      && (forall k :: n + 2 <= k < m ==> t[k] != CloseQuote)
  {
    SpaceRulesOnlySpaces(s);
    SpaceKept(s, n + 1);
    SpaceKept(s, m);
  }

  /** A `« X »` ending at `j` at the start of the text is the match the
      rule looks for. */
  lemma GuillemetsEndAt(u: string, j: nat)
    requires 4 <= j < |u|
    requires u[0] == OpenQuote && u[1] == ' ' && u[j - 1] == ' ' && u[j] == CloseQuote
    requires forall k :: 2 <= k < j ==> u[k] != CloseQuote
    ensures GuillemetsEnd(u) == Some(j)
  {
    var c := CloseFrom(u, 2);
    assert c.Some?;
    assert !(c.value < j);
  }

  /** Where such a match ends at `j`, the rule turns its two inner spaces
      into no-break spaces. */
  lemma GuillemetsStart(u: string, j: nat)
    requires GuillemetsEnd(u) == Some(j)
    ensures GuillemetsRule(u)[1] == NoBreak && GuillemetsRule(u)[j - 1] == NoBreak
  {
    var head := [OpenQuote, NoBreak] + u[2..j - 1] + [NoBreak, CloseQuote];
    var r := GuillemetsRule(u);
    assert r == head + GuillemetsRule(u[j + 1..]);
    assert |head| == j + 1;
    assert r[1] == head[1] == NoBreak;
    assert r[j - 1] == head[j - 1] == NoBreak;
  }

  /** The guillemets rule puts no-break spaces inside a `« X »` at
      `n`..`m + 1` when no `«` comes before it and X holds no `»`. */
  lemma GuillemetsAt(t: string, n: nat, m: nat)
    requires n + 2 < m && m + 1 < |t|
    requires t[n] == OpenQuote && t[n + 1] == ' ' && t[m] == ' ' && t[m + 1] == CloseQuote
    requires forall k :: 0 <= k < n ==> t[k] != OpenQuote
    requires forall k :: n + 2 <= k < m ==> t[k] != CloseQuote
    ensures GuillemetsRule(t)[n + 1] == NoBreak && GuillemetsRule(t)[m] == NoBreak
  {
    var p, u := t[..n], t[n..];
    assert t == p + u;
    assert OpenQuote !in p by {
      forall k | 0 <= k < n ensures p[k] != OpenQuote {
        assert p[k] == t[k];
      }
    }
    assert forall k :: 2 <= k < m + 1 - n ==> u[k] != CloseQuote by {
      forall k | 2 <= k < m + 1 - n ensures u[k] != CloseQuote {
        assert u[k] == t[n + k];
      }
    }
    GuillemetsEndAt(u, m + 1 - n);
    GuillemetsStart(u, m + 1 - n);
    GuillemetsPrefix(p, u);
  }

  /** In frenchPunctuation: `« X »` gets no-break spaces inside the
      guillemets when no `«` comes before it, X holds no `»`, and X does not
      start with a mark the first two rules would claim that space for. */
  lemma FrenchGuillemets(p: string, x: string, q: string)
    requires OpenQuote !in p && CloseQuote !in x && x != [] && x[0] !in ":;!?"
    ensures var s := p + [OpenQuote, ' '] + x + [' ', CloseQuote] + q;
      French(s)[|p| + 1] == NoBreak && French(s)[|p| + 2 + |x|] == NoBreak
  {
    var s := p + [OpenQuote, ' '] + x + [' ', CloseQuote] + q;
    var n, m := |p|, |p| + 2 + |x|;
    assert s[n] == OpenQuote && s[n + 1] == ' ' && s[m] == ' ' && s[m + 1] == CloseQuote && s[n + 2] == x[0];
    assert forall k :: 0 <= k < n ==> s[k] != OpenQuote by {
      forall k | 0 <= k < n ensures s[k] != OpenQuote {
        assert s[k] == p[k];
      }
    }
    assert forall k :: n + 2 <= k < m ==> s[k] != CloseQuote by {
      forall k | n + 2 <= k < m ensures s[k] != CloseQuote {
        assert s[k] == x[k - n - 2];
      }
    }
    GuillemetsSurvive(s, n, m);
    GuillemetsAt(SpaceRules(s), n, m);
  }
}
