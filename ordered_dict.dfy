/** JavaScript plain objects used as dictionaries: a sequence of (key, value)
    pairs in insertion order, which is the order `Object.keys` and
    `Object.entries` enumerate string keys in. Assigning an existing key keeps
    its position; assigning a new key appends it. */
module OrderedDict {
  import opened Wrappers

  type ODict<K, V> = seq<(K, V)>

  function Keys<K, V>(d: ODict<K, V>): (ks: seq<K>)
    ensures |ks| == |d|
    ensures forall i :: 0 <= i < |d| ==> ks[i] == d[i].0
  {
    seq(|d|, i requires 0 <= i < |d| => d[i].0)
  }

  predicate Distinct<K(==)>(ks: seq<K>) {
    forall i, j :: 0 <= i < j < |ks| ==> ks[i] != ks[j]
  }

  /** The first position of key `k` at or after `from`. */
  function FindFrom<K(==), V>(d: ODict<K, V>, k: K, from: nat): (r: Option<nat>)
    ensures r.Some? ==> from <= r.value < |d| && d[r.value].0 == k
    ensures r.Some? ==> forall j :: from <= j < r.value ==> d[j].0 != k
    ensures r.None? ==> forall j :: from <= j < |d| ==> d[j].0 != k
    decreases |d| - from
  {
    if from >= |d| then None
    else if d[from].0 == k then Some(from)
    else FindFrom(d, k, from + 1)
  }

  function Find<K(==), V>(d: ODict<K, V>, k: K): Option<nat> {
    FindFrom(d, k, 0)
  }

  /** `obj[k]`: the value stored under `k`, None for `undefined`. */
  function Get<K(==), V>(d: ODict<K, V>, k: K): (r: Option<V>)
    ensures r.Some? <==> k in Keys(d)
  {
    match Find(d, k)
    case Some(i) => Some(d[i].1)
    case None => None
  }

  /** `obj[k] = v`. */
  function Put<K(==), V>(d: ODict<K, V>, k: K, v: V): ODict<K, V> {
    match Find(d, k)
    case Some(i) => d[i := (k, v)]
    case None => d + [(k, v)]
  }

  /** The first position holding `k` is what Find returns. */
  lemma FindFirst<K, V>(d: ODict<K, V>, k: K, i: nat)
    requires i < |d| && d[i].0 == k
    requires forall j :: 0 <= j < i ==> d[j].0 != k
    ensures Find(d, k) == Some(i)
  {
    var r := Find(d, k);
    assert r.Some?;
    assert !(r.value < i);
  }

  /** After `obj[k] = v`, reading `k` gives `v` and every other key reads as
      before. */
  lemma PutGet<K, V>(d: ODict<K, V>, k: K, v: V, k': K)
    ensures Get(Put(d, k, v), k') == if k' == k then Some(v) else Get(d, k')
  {
    var r := Put(d, k, v);
    match Find(d, k)
    case Some(i) =>
      if k' == k {
        FindFirst(r, k, i);
      } else {
        match Find(d, k')
        case Some(j) =>
          FindFirst(r, k', j);
        case None =>
          assert forall x :: 0 <= x < |r| ==> r[x].0 != k';
      }
    case None =>
      if k' == k {
        FindFirst(r, k, |d|);
      } else {
        match Find(d, k')
        case Some(j) =>
          FindFirst(r, k', j);
        case None =>
          assert forall x :: 0 <= x < |r| ==> r[x].0 != k';
      }
  }

  /** Assigning keeps the key order: an existing key stays where it was, a new
      key goes last. */
  lemma PutKeys<K, V>(d: ODict<K, V>, k: K, v: V)
    ensures Keys(Put(d, k, v)) == if k in Keys(d) then Keys(d) else Keys(d) + [k]
  {
    match Find(d, k)
    case Some(i) =>
      assert Keys(Put(d, k, v)) == Keys(d);
    case None =>
      assert k !in Keys(d);
      assert Keys(Put(d, k, v)) == Keys(d) + [k];
  }

  /** The key order after assigning the keys `more`, one after the other,
      to an object whose keys are `ks`: `ks` followed by the keys of `more`
      it does not hold yet, in the order they first occur in `more`. */
  function AddKeys<K(==)>(ks: seq<K>, more: seq<K>): seq<K>
    decreases |more|
  {
    if more == [] then ks
    else
      var p := AddKeys(ks, more[..|more| - 1]);
      if more[|more| - 1] in p then p else p + [more[|more| - 1]]
  }

  lemma AddKeysStep<K>(ks: seq<K>, more: seq<K>, k: K)
    ensures AddKeys(ks, more + [k]) == (var p := AddKeys(ks, more); if k in p then p else p + [k])
  {
    assert (more + [k])[..|more|] == more;
  }

  /** Assigning one key. */
  lemma AddKeysOne<K>(ks: seq<K>, k: K)
    ensures AddKeys(ks, [k]) == if k in ks then ks else ks + [k]
  {
    AddKeysStep(ks, [], k);
    assert [] + [k] == [k];
  }

  /** A key assigned only when `c` holds. */
  lemma AddKeysWhen<K>(ks: seq<K>, more: seq<K>, c: bool, k: K)
    ensures AddKeys(ks, more + if c then [k] else []) ==
      (var p := AddKeys(ks, more); if !c || k in p then p else p + [k])
  {
    if c {
      AddKeysStep(ks, more, k);
    } else {
      assert more + [] == more;
    }
  }

  /** Assigning `a` then `b` is assigning `a + b`. */
  lemma {:induction false} AddKeysAppend<K>(ks: seq<K>, a: seq<K>, b: seq<K>)
    ensures AddKeys(ks, a + b) == AddKeys(AddKeys(ks, a), b)
    decreases |b|
  {
    if b == [] {
      assert a + b == a;
    } else {
      var b', x := b[..|b| - 1], b[|b| - 1];
      assert b == b' + [x];
      assert a + b == (a + b') + [x];
      AddKeysAppend(ks, a, b');
      AddKeysStep(ks, a + b', x);
      AddKeysStep(AddKeys(ks, a), b', x);
    }
  }

  /** Assigning one key more: the key order after `Put` is one step of
      `AddKeys`. */
  lemma PutAddKeys<K, V>(d: ODict<K, V>, ks: seq<K>, more: seq<K>, k: K, v: V)
    requires Keys(d) == AddKeys(ks, more)
    ensures Keys(Put(d, k, v)) == AddKeys(ks, more + [k])
  {
    PutKeys(d, k, v);
    AddKeysStep(ks, more, k);
  }

  /** Exactly the keys of both, each once when `ks` has no repeats; the
      keys already there keep their positions. */
  lemma {:induction false} AddKeysSpec<K>(ks: seq<K>, more: seq<K>)
    ensures forall x :: x in AddKeys(ks, more) <==> x in ks || x in more
    ensures Distinct(ks) ==> Distinct(AddKeys(ks, more))
    ensures |AddKeys(ks, more)| >= |ks| && AddKeys(ks, more)[..|ks|] == ks
    decreases |more|
  {
    if more != [] {
      var m := more[..|more| - 1];
      AddKeysSpec(ks, m);
      assert more == m + [more[|more| - 1]];
    }
  }

  /** Keys that repeat neither each other nor `ks` are simply appended. */
  lemma {:induction false} AddKeysFresh<K>(ks: seq<K>, more: seq<K>)
    requires Distinct(ks + more)
    ensures AddKeys(ks, more) == ks + more
    decreases |more|
  {
    if more != [] {
      var m := more[..|more| - 1];
      assert ks + m == (ks + more)[..|ks| + |m|];
      AddKeysFresh(ks, m);
      assert more[|more| - 1] == (ks + more)[|ks| + |m|];
      assert more == m + [more[|more| - 1]];
    }
  }

  /** Keys that are all there already change nothing. */
  lemma {:induction false} AddKeysPresent<K>(ks: seq<K>, more: seq<K>)
    requires forall x :: x in more ==> x in ks
    ensures AddKeys(ks, more) == ks
    decreases |more|
  {
    if more != [] {
      var m := more[..|more| - 1];
      assert forall x :: x in m ==> x in more;
      AddKeysPresent(ks, m);
      assert more[|more| - 1] in more;
    }
  }

  /** Assigning the same keys a second time changes nothing. */
  lemma AddKeysAgain<K>(ks: seq<K>, more: seq<K>)
    ensures AddKeys(AddKeys(ks, more), more) == AddKeys(ks, more)
  {
    AddKeysSpec(ks, more);
    AddKeysPresent(AddKeys(ks, more), more);
  }

  /** A new key is appended. */
  lemma PutNew<K, V>(d: ODict<K, V>, k: K, v: V)
    requires k !in Keys(d)
    ensures Put(d, k, v) == d + [(k, v)]
  {
    assert forall j :: 0 <= j < |d| ==> d[j].0 != k;
  }

  lemma PutDistinct<K, V>(d: ODict<K, V>, k: K, v: V)
    requires Distinct(Keys(d))
    ensures Distinct(Keys(Put(d, k, v)))
  {
    PutKeys(d, k, v);
  }

  /** A key that is present reads as the value of some pair. */
  lemma GetPosition<K, V>(d: ODict<K, V>, k: K)
    requires k in Keys(d)
    ensures exists i :: 0 <= i < |d| && Get(d, k) == Some(d[i].1)
  {
    assert Get(d, k) == Some(d[Find(d, k).value].1);
  }

  /** With distinct keys, every pair is what its key reads as. */
  lemma GetDistinct<K, V>(d: ODict<K, V>, j: nat)
    requires Distinct(Keys(d)) && j < |d|
    ensures Get(d, d[j].0) == Some(d[j].1)
  {
    assert forall i :: 0 <= i < j ==> Keys(d)[i] != Keys(d)[j];
    FindFirst(d, d[j].0, j);
  }

  /** After `d[k] = v`, every position holds `(k, v)` or what `d` held. */
  lemma PutPositions<K, V>(d: ODict<K, V>, k: K, v: V)
    ensures |Put(d, k, v)| >= 1
    ensures forall i :: 0 <= i < |Put(d, k, v)| ==>
      Put(d, k, v)[i] == (k, v) || (i < |d| && Put(d, k, v)[i] == d[i])
  {
  }

  /** Two dictionaries with the same keys in the same order find every key
      at the same position. */
  lemma {:induction false} FindSameKeys<K, V, W>(a: ODict<K, V>, b: ODict<K, W>, k: K, from: nat)
    requires Keys(a) == Keys(b)
    ensures FindFrom(a, k, from) == FindFrom(b, k, from)
    decreases |a| - from
  {
    assert |a| == |Keys(a)| == |b|;
    if from < |a| {
      assert a[from].0 == Keys(a)[from] == b[from].0;
      FindSameKeys(a, b, k, from + 1);
    }
  }
}

/** The message shapes shared by the two runtimes and the build tools. */
module Messages {
  import opened Wrappers
  import opened OrderedDict

  /** A message entry: a static string, or a range map from range
      expressions to texts, in the map's enumeration order. */
  datatype Entry = Static(text: string) | Ranges(ranges: seq<(string, string)>)

  /** JavaScript truthiness of an entry: only the empty string is falsy
      (a range map is an object, hence truthy even when empty). */
  predicate Truthy(e: Entry) {
    e != Static("")
  }

  /** A translation block `{locale, messages}`. */
  datatype Block = Block(locale: string, messages: map<string, Entry>)

  /** `listLocales` of lib/vlang.js: the locale of every block, in order. */
  function ListLocales(messages: seq<Block>): (ls: seq<string>)
    ensures |ls| == |messages| && forall i :: 0 <= i < |messages| ==> ls[i] == messages[i].locale
  {
    seq(|messages|, i requires 0 <= i < |messages| => messages[i].locale)
  }

  /** The `n` argument of `translate`: absent (`undefined`), a number, or a
      string. */
  datatype Count = NoCount | Number(n: int) | Text(s: string)

  /** The key of the global dictionary, `JSON.stringify([lang, component,
      key])`, kept as a triple. */
  datatype GlobalKey = GlobalKey(lang: string, component: string, key: string)

  /** One cell pair of the global dictionary, `{original, translation}`;
      None stands for an absent property. */
  datatype Cell = Cell(original: Option<string>, translation: Option<string>)

  /** A global dictionary value: one cell pair for a static message, or a
      range map of cell pairs. */
  datatype DictMessage = StaticCells(cell: Cell) | RangeCells(ranges: seq<(string, Cell)>)

  /** A block of a `.vlg` file or of a component's `<messages>`, keyed
      by `lang` as the build tools write it, with its messages in
      enumeration order. */
  datatype LangBlock = LangBlock(lang: string, messages: ODict<string, Entry>)

  /** The same block keyed by `locale`, as the command-line tools write it. */
  datatype LocaleBlock = LocaleBlock(locale: string, messages: ODict<string, Entry>)

  /** A row of a locale's sheet as `flattenTrans` builds it: file, key,
      the source locale's message (None for `undefined`), and this
      locale's message. */
  datatype Row = Row(fileName: string, key: string, source: Option<Entry>, translation: Entry)

  predicate TruthyString(s: Option<string>) {
    s.Some? && s.value != ""
  }
}
