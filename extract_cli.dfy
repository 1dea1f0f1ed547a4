/** bin/extract.js: the translations of every component, completed so that
    every locale has every key of the component, then flattened into one
    list of sheet rows per locale. The walk over the file system, the
    component parser and the upload are not modelled: each file arrives
    with its path relative to the root and the blocks the parser found. */
module ExtractCli {
  import opened Wrappers
  import opened OrderedDict
  import opened Messages
  import Dict

  // ---------------------------------------------------------------------
  // parseFiles: the components kept
  // ---------------------------------------------------------------------

  /** A walked file: its path relative to the root and what
      `parseComponent` made of it (None when it has no messages). */
  datatype ComponentFile = ComponentFile(shortPath: string, parsed: Option<seq<LocaleBlock>>)

  /** `parsed && shortPath[0] !== '.'`: files outside the root, or hidden,
      are left alone. */
  predicate Included(f: ComponentFile) {
    f.parsed.Some? && (f.shortPath == [] || f.shortPath[0] != '.')
  }

  /** The blocks kept for path `p`: those of the last included file with
      that path. */
  function SourceOf(files: seq<ComponentFile>, upto: nat, p: string): Option<seq<LocaleBlock>>
    requires upto <= |files|
  {
    if upto == 0 then None
    else if Included(files[upto - 1]) && files[upto - 1].shortPath == p then files[upto - 1].parsed
    else SourceOf(files, upto - 1, p)
  }

  /** The paths of the included files, in walk order, repeats and all. */
  function IncludedPaths(files: seq<ComponentFile>): seq<string> {
    if files == [] then []
    else
      var f := files[|files| - 1];
      IncludedPaths(files[..|files| - 1]) + if Included(f) then [f.shortPath] else []
  }

  /** The keys of `srcTrans`: every kept path once, where it was first
      assigned. */
  function SourcePaths(files: seq<ComponentFile>): seq<string> {
    AddKeys([], IncludedPaths(files))
  }

  /** The first loop of `parseFiles`, filling `srcTrans`. */
  method SelectSources(files: seq<ComponentFile>) returns (srcTrans: ODict<string, seq<LocaleBlock>>)
    ensures Distinct(Keys(srcTrans))
    ensures Keys(srcTrans) == SourcePaths(files)
    ensures forall p :: Get(srcTrans, p) == SourceOf(files, |files|, p)
  {
    srcTrans := [];
    var i := 0;
    while i < |files|
      invariant 0 <= i <= |files|
      invariant SelectedUpTo(srcTrans, files, i)
    {
      var f := files[i];
      SelectStep(srcTrans, files, i);
      if Included(f) {
        srcTrans := Put(srcTrans, f.shortPath, f.parsed.value);
      }
      i := i + 1;
    }
    assert files[..i] == files;
  }

  /** `srcTrans` after the first `upto` files. */
  ghost predicate SelectedUpTo(srcTrans: ODict<string, seq<LocaleBlock>>, files: seq<ComponentFile>, upto: nat)
    requires upto <= |files|
  {
    && Distinct(Keys(srcTrans))
    && Keys(srcTrans) == AddKeys([], IncludedPaths(files[..upto]))
    && forall p :: Get(srcTrans, p) == SourceOf(files, upto, p)
  }

  /** One file of the first loop of `parseFiles`. */
  lemma SelectStep(srcTrans: ODict<string, seq<LocaleBlock>>, files: seq<ComponentFile>, i: nat)
    requires i < |files| && SelectedUpTo(srcTrans, files, i)
    ensures var f := files[i];
      SelectedUpTo(if Included(f) then Put(srcTrans, f.shortPath, f.parsed.value) else srcTrans, files, i + 1)
  {
    var f := files[i];
    assert files[..i + 1][..i] == files[..i];
    AddKeysWhen([], IncludedPaths(files[..i]), Included(f), f.shortPath);
    if Included(f) {
      PutKeys(srcTrans, f.shortPath, f.parsed.value);
      forall p ensures Get(Put(srcTrans, f.shortPath, f.parsed.value), p) == SourceOf(files, i + 1, p) {
        PutGet(srcTrans, f.shortPath, f.parsed.value, p);
      }
      PutDistinct(srcTrans, f.shortPath, f.parsed.value);
    }
  }

  /** A path is kept exactly when some included file has it; in particular
      no path starting with `.` is kept. */
  lemma {:induction false} SourceOfSpec(files: seq<ComponentFile>, upto: nat, p: string)
    requires upto <= |files|
    ensures SourceOf(files, upto, p).Some? <==>
      exists i :: 0 <= i < upto && Included(files[i]) && files[i].shortPath == p
    ensures p != [] && p[0] == '.' ==> SourceOf(files, upto, p).None?
    decreases upto
  {
    if upto > 0 {
      SourceOfSpec(files, upto - 1, p);
    }
  }

  // ---------------------------------------------------------------------
  // parseFiles: one component
  // ---------------------------------------------------------------------

  /** JavaScript objects: the messages of each block have distinct keys. */
  predicate BlocksWellFormed(blocks: seq<LocaleBlock>) {
    forall b :: 0 <= b < |blocks| ==> Distinct(Keys(blocks[b].messages))
  }

  /** Every key of every block, block after block. */
  function AllKeys(blocks: seq<LocaleBlock>): seq<string> {
    if blocks == [] then [] else AllKeys(blocks[..|blocks| - 1]) + Keys(blocks[|blocks| - 1].messages)
  }

  /** The locale of every block. */
  function BlockLocales(blocks: seq<LocaleBlock>): (ls: seq<string>)
    ensures |ls| == |blocks|
  {
    if blocks == [] then [] else BlockLocales(blocks[..|blocks| - 1]) + [blocks[|blocks| - 1].locale]
  }

  /** The message `key` has in the last of the first `upto` blocks of
      `locale` that define it. */
  function CacheValue(blocks: seq<LocaleBlock>, upto: nat, locale: string, key: string): Option<Entry>
    requires upto <= |blocks|
  {
    if upto == 0 then None
    else if blocks[upto - 1].locale == locale && key in Keys(blocks[upto - 1].messages) then
      Get(blocks[upto - 1].messages, key)
    else CacheValue(blocks, upto - 1, locale, key)
  }

  /** `transCache`: locale, then key. */
  type Cache = ODict<string, ODict<string, Entry>>

  /** `(transCache[locale] || {})[key]`. */
  function CacheLookup(tc: Cache, locale: string, key: string): Option<Entry> {
    Get(Get(tc, locale).GetOr([]), key)
  }

  /** `deepSet(transCache, [locale, key], message)`. */
  function CacheStore(tc: Cache, locale: string, key: string, e: Entry): Cache {
    Put(tc, locale, Put(Get(tc, locale).GetOr([]), key, e))
  }

  lemma CacheStoreLookup(tc: Cache, locale: string, key: string, e: Entry, l: string, k: string)
    ensures CacheLookup(CacheStore(tc, locale, key, e), l, k) ==
      if l == locale && k == key then Some(e) else CacheLookup(tc, l, k)
  {
    var inner := Get(tc, locale).GetOr([]);
    PutGet(tc, locale, Put(inner, key, e), l);
    PutGet(inner, key, e, k);
  }

  /** `... || ''`: a missing or falsy message becomes the empty string. */
  function FillValue(v: Option<Entry>): (e: Entry)
    ensures Truthy(e) ==> v == Some(e)
  {
    if v.Some? && Truthy(v.value) then v.value else Static("")
  }

  /** The inner loop over one block: its keys recorded, its messages
      cached. */
  method CacheBlock(tc: Cache, keys: ODict<string, bool>, block: LocaleBlock, ghost xs: seq<string>)
    returns (tc': Cache, keys': ODict<string, bool>)
    requires Distinct(Keys(block.messages))
    requires forall k :: k in Keys(keys) <==> k in xs
    requires Distinct(Keys(keys))
    ensures Distinct(Keys(keys'))
    ensures Keys(keys') == AddKeys(Keys(keys), Keys(block.messages))
    ensures forall k :: k in Keys(keys') <==> k in xs + Keys(block.messages)
    ensures forall l, k :: (CacheLookup(tc', l, k) ==
      if l == block.locale && k in Keys(block.messages) then Get(block.messages, k) else CacheLookup(tc, l, k))
  {
    var msgs := block.messages;
    tc', keys' := tc, keys;
    var j := 0;
    while j < |msgs|
      invariant 0 <= j <= |msgs|
      invariant Distinct(Keys(keys'))
      invariant Keys(keys') == AddKeys(Keys(keys), Keys(msgs[..j]))
      invariant forall k :: k in Keys(keys') <==> k in xs + Keys(msgs[..j])
      invariant forall l, k :: (CacheLookup(tc', l, k) ==
        if l == block.locale && k in Keys(msgs[..j]) then Get(msgs, k) else CacheLookup(tc, l, k))
    {
      var key := msgs[j].0;
      assert Keys(msgs[..j + 1]) == Keys(msgs[..j]) + [key];
      PutKeys(keys', key, true);
      PutAddKeys(keys', Keys(keys), Keys(msgs[..j]), key, true);
      PutDistinct(keys', key, true);
      keys' := Put(keys', key, true);
      FindFirst(msgs, key, j);
      forall l, k ensures CacheLookup(CacheStore(tc', block.locale, key, msgs[j].1), l, k) ==
        if l == block.locale && k in Keys(msgs[..j + 1]) then Get(msgs, k) else CacheLookup(tc, l, k)
      {
        CacheStoreLookup(tc', block.locale, key, msgs[j].1, l, k);
      }
      tc' := CacheStore(tc', block.locale, key, msgs[j].1);
      j := j + 1;
    }
    assert msgs[..j] == msgs;
  }

  /** The loop over the blocks of one component: `transCache`, `keys` and
      `locales`. */
  method FileCache(fileTrans: seq<LocaleBlock>)
    returns (tc: Cache, keys: ODict<string, bool>, locales: ODict<string, bool>)
    requires BlocksWellFormed(fileTrans)
    ensures Distinct(Keys(keys)) && Distinct(Keys(locales))
    ensures Keys(keys) == KeyOrder(fileTrans)
    ensures Keys(locales) == AddKeys([], BlockLocales(fileTrans))
    ensures forall k :: k in Keys(keys) <==> k in AllKeys(fileTrans)
    ensures forall l :: l in Keys(locales) <==> l in BlockLocales(fileTrans)
    ensures forall l, k :: CacheLookup(tc, l, k) == CacheValue(fileTrans, |fileTrans|, l, k)
  {
    tc, keys, locales := [], [], [];
    var b := 0;
    while b < |fileTrans|
      invariant 0 <= b <= |fileTrans|
      invariant Distinct(Keys(keys)) && Distinct(Keys(locales))
      invariant Keys(keys) == KeyOrder(fileTrans[..b])
      invariant Keys(locales) == AddKeys([], BlockLocales(fileTrans[..b]))
      invariant forall k :: k in Keys(keys) <==> k in AllKeys(fileTrans[..b])
      invariant forall l :: l in Keys(locales) <==> l in BlockLocales(fileTrans[..b])
      invariant forall l, k :: CacheLookup(tc, l, k) == CacheValue(fileTrans, b, l, k)
    {
      var block := fileTrans[b];
      assert fileTrans[..b + 1][..b] == fileTrans[..b];
      assert AllKeys(fileTrans[..b + 1]) == AllKeys(fileTrans[..b]) + Keys(block.messages);
      assert BlockLocales(fileTrans[..b + 1]) == BlockLocales(fileTrans[..b]) + [block.locale];
      PutKeys(locales, block.locale, true);
      PutAddKeys(locales, [], BlockLocales(fileTrans[..b]), block.locale, true);
      AddKeysAppend([], AllKeys(fileTrans[..b]), Keys(block.messages));
      PutDistinct(locales, block.locale, true);
      locales := Put(locales, block.locale, true);
      tc, keys := CacheBlock(tc, keys, block, AllKeys(fileTrans[..b]));
      b := b + 1;
    }
    assert fileTrans[..b] == fileTrans;
  }

  /** The keys of a component in the order `keys` gets them: every key of
      every block once, where it first occurs. */
  function KeyOrder(blocks: seq<LocaleBlock>): seq<string> {
    AddKeys([], AllKeys(blocks))
  }

  /** The locales of a component in the order `locales` gets them: those of
      its blocks, then those of the configuration it does not have yet. */
  function LocaleOrder(blocks: seq<LocaleBlock>, configLocales: seq<string>): seq<string> {
    AddKeys(AddKeys([], BlockLocales(blocks)), configLocales)
  }

  /** The locales under which the component is written into `trans`, in
      that order: none when it has no key. */
  function Written(blocks: seq<LocaleBlock>, configLocales: seq<string>): seq<string> {
    if KeyOrder(blocks) == [] then [] else LocaleOrder(blocks, configLocales)
  }

  /** What `parseFiles` writes for component `filePath` with blocks
      `fileTrans` under `trans[locale][filePath][key]`, if anything: every
      locale of a block or of the configuration gets every key of the
      component, with its message, or `''` when it has none or a falsy one. */
  function FillAt(fileTrans: seq<LocaleBlock>, configLocales: seq<string>, locale: string, key: string)
    : Option<Entry>
  {
    if (locale in BlockLocales(fileTrans) || locale in configLocales) && key in AllKeys(fileTrans) then
      Some(FillValue(CacheValue(fileTrans, |fileTrans|, locale, key)))
    else None
  }

  /** The key order of `trans'` once every key of `keys` has been written
      under `trans[locale][filePath]` for each locale of `locales` in turn,
      starting from `trans`: a locale, a file or a key that is new is
      appended to its object, one already there keeps its place. Nothing
      is written, and so nothing is added, when `keys` is empty. */
  ghost predicate FilledOrder(trans': Dict.Files, trans: Dict.Files, filePath: string, locales: seq<string>,
                              keys: seq<string>)
  {
    && Keys(trans') == AddKeys(Keys(trans), if keys == [] then [] else locales)
    && (forall l :: Keys(Dict.LangsAt(trans', l)) ==
          AddKeys(Keys(Dict.LangsAt(trans, l)), if l in locales && keys != [] then [filePath] else []))
    && (forall l, f :: Keys(Dict.MsgsAt(trans', l, f)) ==
          AddKeys(Keys(Dict.MsgsAt(trans, l, f)), if l in locales && f == filePath then keys else []))
  }

  /** Filling for the locales `a`, then for the locales `b`, is filling
      for `a + b`. */
  lemma FilledOrderAppend(t1: Dict.Files, t2: Dict.Files, t3: Dict.Files, filePath: string, a: seq<string>,
                          b: seq<string>, keys: seq<string>)
    requires FilledOrder(t2, t1, filePath, a, keys) && FilledOrder(t3, t2, filePath, b, keys)
    ensures FilledOrder(t3, t1, filePath, a + b, keys)
  {
    if keys != [] {
      AddKeysAppend(Keys(t1), a, b);
    }
    forall l ensures Keys(Dict.LangsAt(t3, l)) ==
      AddKeys(Keys(Dict.LangsAt(t1, l)), if l in a + b && keys != [] then [filePath] else [])
    {
      if l in a && l in b && keys != [] {
        AddKeysAgain(Keys(Dict.LangsAt(t1, l)), [filePath]);
      }
    }
    forall l, f ensures Keys(Dict.MsgsAt(t3, l, f)) ==
      AddKeys(Keys(Dict.MsgsAt(t1, l, f)), if l in a + b && f == filePath then keys else [])
    {
      if l in a && l in b && f == filePath {
        AddKeysAgain(Keys(Dict.MsgsAt(t1, l, f)), keys);
      }
    }
  }

  /** One key written for one locale: the order after `deepSet(trans,
      [locale, filePath, key], value)`. */
  lemma FillOrderStep(trans: Dict.Files, cur: Dict.Files, filePath: string, locale: string, keys: seq<string>,
                      c: nat, e: Entry)
    requires c < |keys| && FilledOrder(cur, trans, filePath, [locale], keys[..c])
    ensures FilledOrder(Dict.Store(cur, locale, filePath, keys[c], e), trans, filePath, [locale], keys[..c + 1])
  {
    var next := Dict.Store(cur, locale, filePath, keys[c], e);
    FillTopStep(trans, cur, filePath, locale, keys, c, e);
    forall l ensures Keys(Dict.LangsAt(next, l)) ==
      AddKeys(Keys(Dict.LangsAt(trans, l)), if l in [locale] then [filePath] else [])
    {
      FillFilesStep(trans, cur, filePath, locale, keys, c, e, l);
    }
    forall l, f ensures Keys(Dict.MsgsAt(next, l, f)) ==
      AddKeys(Keys(Dict.MsgsAt(trans, l, f)), if l in [locale] && f == filePath then keys[..c + 1] else [])
    {
      FillKeysStep(trans, cur, filePath, locale, keys, c, e, l, f);
    }
  }

  lemma FillTopStep(trans: Dict.Files, cur: Dict.Files, filePath: string, locale: string, keys: seq<string>,
                        c: nat, e: Entry)
    requires c < |keys| && Keys(cur) == AddKeys(Keys(trans), if c == 0 then [] else [locale])
    ensures Keys(Dict.Store(cur, locale, filePath, keys[c], e)) == AddKeys(Keys(trans), [locale])
  {
    Dict.StoreKeys(cur, locale, filePath, keys[c], e, locale, filePath);
    AddKeysOne(Keys(trans), locale);
    if c > 0 {
      AddKeysSpec(Keys(trans), [locale]);
    }
  }

  lemma FillFilesStep(trans: Dict.Files, cur: Dict.Files, filePath: string, locale: string, keys: seq<string>,
                      c: nat, e: Entry, l: string)
    requires c < |keys|
    requires Keys(Dict.LangsAt(cur, l)) ==
      AddKeys(Keys(Dict.LangsAt(trans, l)), if l == locale && c > 0 then [filePath] else [])
    ensures Keys(Dict.LangsAt(Dict.Store(cur, locale, filePath, keys[c], e), l)) ==
      AddKeys(Keys(Dict.LangsAt(trans, l)), if l == locale then [filePath] else [])
  {
    Dict.StoreKeys(cur, locale, filePath, keys[c], e, l, filePath);
    if l == locale {
      AddKeysOne(Keys(Dict.LangsAt(trans, l)), filePath);
      AddKeysSpec(Keys(Dict.LangsAt(trans, l)), [filePath]);
    }
  }

  lemma FillKeysStep(trans: Dict.Files, cur: Dict.Files, filePath: string, locale: string, keys: seq<string>,
                     c: nat, e: Entry, l: string, f: string)
    requires c < |keys|
    requires Keys(Dict.MsgsAt(cur, l, f)) ==
      AddKeys(Keys(Dict.MsgsAt(trans, l, f)), if l == locale && f == filePath then keys[..c] else [])
    ensures Keys(Dict.MsgsAt(Dict.Store(cur, locale, filePath, keys[c], e), l, f)) ==
      AddKeys(Keys(Dict.MsgsAt(trans, l, f)), if l == locale && f == filePath then keys[..c + 1] else [])
  {
    Dict.StoreMsgsKeys(cur, locale, filePath, keys[c], e, l, f);
    var before := Keys(Dict.MsgsAt(trans, l, f));
    if l == locale && f == filePath {
      assert keys[..c + 1] == keys[..c] + [keys[c]];
      AddKeysAppend(before, keys[..c], [keys[c]]);
    }
  }

  /** The innermost loop: every key of the component written for one
      locale, in order. */
  method FillLocale(trans: Dict.Files, filePath: string, locale: string, keys: seq<string>, tc: Cache)
    returns (trans': Dict.Files)
    requires Dict.FilesWellFormed(trans)
    ensures Dict.FilesWellFormed(trans')
    ensures FilledOrder(trans', trans, filePath, [locale], keys)
    ensures forall l, f, k :: (Dict.Lookup(trans', l, f, k) ==
      if l == locale && f == filePath && k in keys then Some(FillValue(CacheLookup(tc, locale, k)))
      else Dict.Lookup(trans, l, f, k))
  {
    trans' := trans;
    var c := 0;
    while c < |keys|
      invariant 0 <= c <= |keys|
      invariant Dict.FilesWellFormed(trans')
      invariant FilledOrder(trans', trans, filePath, [locale], keys[..c])
      invariant forall l, f, k :: (Dict.Lookup(trans', l, f, k) ==
        if l == locale && f == filePath && k in keys[..c] then Some(FillValue(CacheLookup(tc, locale, k)))
        else Dict.Lookup(trans, l, f, k))
    {
      var key := keys[c];
      var value := FillValue(CacheLookup(tc, locale, key));
      assert keys[..c + 1] == keys[..c] + [key];
      forall l, f, k ensures Dict.Lookup(Dict.Store(trans', locale, filePath, key, value), l, f, k) ==
        if l == locale && f == filePath && k in keys[..c + 1] then Some(FillValue(CacheLookup(tc, locale, k)))
        else Dict.Lookup(trans, l, f, k)
      {
        Dict.StoreLookup(trans', locale, filePath, key, value, l, f, k);
      }
      FillOrderStep(trans, trans', filePath, locale, keys, c, value);
      Dict.StoreWellFormed(trans', locale, filePath, key, value);
      trans' := Dict.Store(trans', locale, filePath, key, value);
      c := c + 1;
    }
    assert keys[..c] == keys;
  }

  /** `for (const locale of config.locales) locales[locale] = true`. */
  method AddLocales(locales: ODict<string, bool>, configLocales: seq<string>)
    returns (locales': ODict<string, bool>)
    ensures Keys(locales') == AddKeys(Keys(locales), configLocales)
    ensures forall l :: l in Keys(locales') <==> l in Keys(locales) || l in configLocales
  {
    locales' := locales;
    var i := 0;
    while i < |configLocales|
      invariant 0 <= i <= |configLocales|
      invariant Keys(locales') == AddKeys(Keys(locales), configLocales[..i])
      invariant forall l :: l in Keys(locales') <==> l in Keys(locales) || l in configLocales[..i]
    {
      PutKeys(locales', configLocales[i], true);
      PutAddKeys(locales', Keys(locales), configLocales[..i], configLocales[i], true);
      assert configLocales[..i + 1] == configLocales[..i] + [configLocales[i]];
      locales' := Put(locales', configLocales[i], true);
      i := i + 1;
    }
    assert configLocales[..i] == configLocales;
  }

  /** The loop over the collected locales, each filled with every key, in
      order. */
  method FillLocales(trans: Dict.Files, filePath: string, ls: seq<string>, ks: seq<string>, tc: Cache)
    returns (trans': Dict.Files)
    requires Dict.FilesWellFormed(trans)
    ensures Dict.FilesWellFormed(trans')
    ensures FilledOrder(trans', trans, filePath, ls, ks)
    ensures forall l, f, k :: (Dict.Lookup(trans', l, f, k) ==
      if f == filePath && l in ls && k in ks then Some(FillValue(CacheLookup(tc, l, k)))
      else Dict.Lookup(trans, l, f, k))
  {
    trans' := trans;
    var a := 0;
    while a < |ls|
      invariant 0 <= a <= |ls|
      invariant FilledUpTo(trans', trans, filePath, ls[..a], ks, tc)
    {
      var next := FillLocale(trans', filePath, ls[a], ks, tc);
      FillLocalesNext(trans, trans', next, filePath, ls, a, ks, tc);
      trans' := next;
      a := a + 1;
    }
    assert ls[..a] == ls;
  }

  /** `trans'` is `trans` with the keys `ks` filled for the locales `ls`. */
  ghost predicate FilledUpTo(trans': Dict.Files, trans: Dict.Files, filePath: string, ls: seq<string>,
                             ks: seq<string>, tc: Cache)
  {
    && Dict.FilesWellFormed(trans')
    && FilledOrder(trans', trans, filePath, ls, ks)
    && forall l, f, k :: (Dict.Lookup(trans', l, f, k) ==
         if f == filePath && l in ls && k in ks then Some(FillValue(CacheLookup(tc, l, k)))
         else Dict.Lookup(trans, l, f, k))
  }

  /** One more locale filled. */
  lemma FillLocalesNext(trans: Dict.Files, cur: Dict.Files, next: Dict.Files, filePath: string, ls: seq<string>,
                        a: nat, ks: seq<string>, tc: Cache)
    requires a < |ls| && FilledUpTo(cur, trans, filePath, ls[..a], ks, tc)
    requires Dict.FilesWellFormed(next) && FilledOrder(next, cur, filePath, [ls[a]], ks)
    requires forall l, f, k :: (Dict.Lookup(next, l, f, k) ==
      if l == ls[a] && f == filePath && k in ks then Some(FillValue(CacheLookup(tc, ls[a], k)))
      else Dict.Lookup(cur, l, f, k))
    ensures FilledUpTo(next, trans, filePath, ls[..a + 1], ks, tc)
  {
    assert ls[..a + 1] == ls[..a] + [ls[a]];
    FilledOrderAppend(trans, cur, next, filePath, ls[..a], [ls[a]], ks);
  }

  /** The loop body of the second loop of `parseFiles`: one component
      completed into `trans`, its locales in `LocaleOrder` and its keys in
      `KeyOrder`. */
  method FillFile(trans: Dict.Files, filePath: string, fileTrans: seq<LocaleBlock>, configLocales: seq<string>)
    returns (trans': Dict.Files)
    requires BlocksWellFormed(fileTrans) && Dict.FilesWellFormed(trans)
    requires forall l, k :: Dict.Lookup(trans, l, filePath, k).None?
    ensures Dict.FilesWellFormed(trans')
    ensures FilledOrder(trans', trans, filePath, LocaleOrder(fileTrans, configLocales), KeyOrder(fileTrans))
    ensures forall l, f, k :: (Dict.Lookup(trans', l, f, k) ==
      if f == filePath then FillAt(fileTrans, configLocales, l, k) else Dict.Lookup(trans, l, f, k))
  {
    var tc, keys, locales := FileCache(fileTrans);
    locales := AddLocales(locales, configLocales);
    trans' := FillLocales(trans, filePath, Keys(locales), Keys(keys), tc);
  }

  /** Every block list a file brought has distinct message keys. */
  predicate ParsedWellFormed(files: seq<ComponentFile>) {
    forall i :: 0 <= i < |files| && files[i].parsed.Some? ==> BlocksWellFormed(files[i].parsed.value)
  }

  lemma {:induction false} SourceOfWellFormed(files: seq<ComponentFile>, upto: nat, p: string)
    requires upto <= |files| && ParsedWellFormed(files) && SourceOf(files, upto, p).Some?
    ensures BlocksWellFormed(SourceOf(files, upto, p).value)
    decreases upto
  {
    if !(Included(files[upto - 1]) && files[upto - 1].shortPath == p) {
      SourceOfWellFormed(files, upto - 1, p);
    }
  }

  /** What `parseFiles` leaves in `trans[locale][filePath][key]`. */
  function Filled(files: seq<ComponentFile>, configLocales: seq<string>, locale: string, filePath: string,
                  key: string): Option<Entry>
  {
    match SourceOf(files, |files|, filePath)
    case None => None
    case Some(ft) => FillAt(ft, configLocales, locale, key)
  }

  /** The locales component `p` is written under, in order: none when it
      is not kept. */
  function WrittenFor(files: seq<ComponentFile>, configLocales: seq<string>, p: string): seq<string> {
    match SourceOf(files, |files|, p)
    case None => []
    case Some(ft) => Written(ft, configLocales)
  }

  /** The keys of component `p`, in order: none when it is not kept. */
  function KeysFor(files: seq<ComponentFile>, p: string): seq<string> {
    match SourceOf(files, |files|, p)
    case None => []
    case Some(ft) => KeyOrder(ft)
  }

  /** The locales the components `paths` are written under, component
      after component. */
  function LocaleStream(files: seq<ComponentFile>, configLocales: seq<string>, paths: seq<string>): seq<string> {
    if paths == [] then []
    else LocaleStream(files, configLocales, paths[..|paths| - 1]) + WrittenFor(files, configLocales, paths[|paths| - 1])
  }

  /** The components of `paths` written under `locale`, in order. */
  function FilesWith(files: seq<ComponentFile>, configLocales: seq<string>, paths: seq<string>, locale: string)
    : seq<string>
  {
    if paths == [] then []
    else
      var p := paths[|paths| - 1];
      FilesWith(files, configLocales, paths[..|paths| - 1], locale)
      + if locale in WrittenFor(files, configLocales, p) then [p] else []
  }

  /** `trans` after the components `paths`: `trans` lists its locales in
      the order a component first used them, each locale its components
      in `paths` order, and each component its keys in `KeyOrder`. */
  ghost predicate TransOrder(trans: Dict.Files, files: seq<ComponentFile>, configLocales: seq<string>,
                             paths: seq<string>)
  {
    && Keys(trans) == AddKeys([], LocaleStream(files, configLocales, paths))
    && (forall l :: Keys(Dict.LangsAt(trans, l)) == AddKeys([], FilesWith(files, configLocales, paths, l)))
    && (forall l, f :: Keys(Dict.MsgsAt(trans, l, f)) ==
          if f in paths && l in WrittenFor(files, configLocales, f) then KeysFor(files, f) else [])
  }

  /** `parseFiles`: the kept components, each completed into `trans`,
      with the order of `trans` at every level. */
  method ParseFiles(files: seq<ComponentFile>, configLocales: seq<string>) returns (trans: Dict.Files)
    requires ParsedWellFormed(files)
    ensures ObjectShaped(trans)
    ensures Keys(trans) == AddKeys([], LocaleStream(files, configLocales, SourcePaths(files)))
    ensures forall l :: Keys(Dict.LangsAt(trans, l)) == FilesWith(files, configLocales, SourcePaths(files), l)
    ensures forall l, f :: (Keys(Dict.MsgsAt(trans, l, f)) ==
      if l in WrittenFor(files, configLocales, f) then KeysFor(files, f) else [])
    ensures forall l, f, k :: Dict.Lookup(trans, l, f, k) == Filled(files, configLocales, l, f, k)
  {
    var srcTrans := SelectSources(files);
    KeptPathsListed(srcTrans, files);
    trans := [];
    var i := 0;
    while i < |srcTrans|
      invariant 0 <= i <= |srcTrans|
      invariant ParsedUpTo(trans, files, configLocales, Keys(srcTrans[..i]))
    {
      NextSource(srcTrans, i);
      GetDistinct(srcTrans, i);
      trans := ParseFile(trans, files, configLocales, Keys(srcTrans[..i]), srcTrans[i].0, srcTrans[i].1);
      i := i + 1;
    }
    assert srcTrans[..i] == srcTrans;
    ParsedAll(trans, files, configLocales);
  }

  /** Every kept path is a key of `srcTrans`. */
  lemma KeptPathsListed(srcTrans: ODict<string, seq<LocaleBlock>>, files: seq<ComponentFile>)
    requires Keys(srcTrans) == SourcePaths(files)
    requires forall p :: Get(srcTrans, p) == SourceOf(files, |files|, p)
    ensures forall p :: SourceOf(files, |files|, p).Some? ==> p in SourcePaths(files)
  {
    forall p | SourceOf(files, |files|, p).Some? ensures p in Keys(srcTrans) {
      assert Get(srcTrans, p).Some?;
    }
  }

  /** The loop body of the second loop of `parseFiles`, with what it
      keeps: component `filePath` completed after the components `paths`. */
  method ParseFile(trans: Dict.Files, files: seq<ComponentFile>, configLocales: seq<string>,
                   ghost paths: seq<string>, filePath: string, fileTrans: seq<LocaleBlock>)
    returns (trans': Dict.Files)
    requires ParsedWellFormed(files)
    requires SourceOf(files, |files|, filePath) == Some(fileTrans) && filePath !in paths
    requires ParsedUpTo(trans, files, configLocales, paths)
    ensures ParsedUpTo(trans', files, configLocales, paths + [filePath])
  {
    SourceOfWellFormed(files, |files|, filePath);
    trans' := FillFile(trans, filePath, fileTrans, configLocales);
    ParseStep(trans, trans', files, configLocales, paths, filePath);
  }

  /** Once every kept component is completed, `trans` is what `parseFiles`
      promises. */
  lemma ParsedAll(trans: Dict.Files, files: seq<ComponentFile>, configLocales: seq<string>)
    requires forall p :: SourceOf(files, |files|, p).Some? ==> p in SourcePaths(files)
    requires ParsedUpTo(trans, files, configLocales, SourcePaths(files))
    ensures ObjectShaped(trans)
    ensures forall l :: Keys(Dict.LangsAt(trans, l)) == FilesWith(files, configLocales, SourcePaths(files), l)
    ensures forall l, f :: (Keys(Dict.MsgsAt(trans, l, f)) ==
      if l in WrittenFor(files, configLocales, f) then KeysFor(files, f) else [])
    ensures forall l, f, k :: Dict.Lookup(trans, l, f, k) == Filled(files, configLocales, l, f, k)
  {
    FilesObjectShaped(trans);
    AddKeysSpec([], IncludedPaths(files));
    forall l ensures Keys(Dict.LangsAt(trans, l)) == FilesWith(files, configLocales, SourcePaths(files), l) {
      FilesWithSpec(files, configLocales, SourcePaths(files), l);
      assert [] + FilesWith(files, configLocales, SourcePaths(files), l) == FilesWith(files, configLocales, SourcePaths(files), l);
      AddKeysFresh([], FilesWith(files, configLocales, SourcePaths(files), l));
    }
  }

  /** A locale lists, in order, exactly the components of `paths` written
      under it, each once when `paths` has no repeats. */
  lemma {:induction false} FilesWithSpec(files: seq<ComponentFile>, configLocales: seq<string>, paths: seq<string>,
                                         locale: string)
    requires Distinct(paths)
    ensures forall p :: p in FilesWith(files, configLocales, paths, locale) <==>
      p in paths && locale in WrittenFor(files, configLocales, p)
    ensures Distinct(FilesWith(files, configLocales, paths, locale))
    decreases |paths|
  {
    if paths != [] {
      var n := |paths| - 1;
      assert forall j :: 0 <= j < n ==> paths[..n][j] == paths[j];
      FilesWithSpec(files, configLocales, paths[..n], locale);
      assert paths == paths[..n] + [paths[n]];
      assert paths[n] !in paths[..n];
    }
  }

  /** The `i`-th kept component is a new one. */
  lemma NextSource(srcTrans: ODict<string, seq<LocaleBlock>>, i: nat)
    requires i < |srcTrans| && Distinct(Keys(srcTrans))
    ensures srcTrans[i].0 !in Keys(srcTrans[..i])
    ensures Keys(srcTrans[..i + 1]) == Keys(srcTrans[..i]) + [srcTrans[i].0]
  {
    forall j | 0 <= j < i ensures Keys(srcTrans[..i])[j] != srcTrans[i].0 {
      assert Keys(srcTrans)[j] != Keys(srcTrans)[i];
    }
    assert srcTrans[..i + 1] == srcTrans[..i] + [srcTrans[i]];
  }

  /** `trans` once the components `paths` are completed. */
  ghost predicate ParsedUpTo(trans: Dict.Files, files: seq<ComponentFile>, configLocales: seq<string>,
                             paths: seq<string>)
  {
    && Dict.FilesWellFormed(trans)
    && TransOrder(trans, files, configLocales, paths)
    && forall l, f, k :: (Dict.Lookup(trans, l, f, k) ==
         if f in paths then Filled(files, configLocales, l, f, k) else None)
  }

  /** One more component completed. */
  lemma ParseStep(trans: Dict.Files, next: Dict.Files, files: seq<ComponentFile>, configLocales: seq<string>,
                  paths: seq<string>, filePath: string)
    requires SourceOf(files, |files|, filePath).Some? && filePath !in paths
    requires ParsedUpTo(trans, files, configLocales, paths)
    requires Dict.FilesWellFormed(next)
    requires var ft := SourceOf(files, |files|, filePath).value;
      FilledOrder(next, trans, filePath, LocaleOrder(ft, configLocales), KeyOrder(ft))
    requires var ft := SourceOf(files, |files|, filePath).value;
      forall l, f, k :: (Dict.Lookup(next, l, f, k) ==
        if f == filePath then FillAt(ft, configLocales, l, k) else Dict.Lookup(trans, l, f, k))
    ensures ParsedUpTo(next, files, configLocales, paths + [filePath])
  {
    ParseOrderStep(trans, next, files, configLocales, paths, filePath);
  }

  /** One more component keeps `trans` in order. */
  lemma ParseOrderStep(trans: Dict.Files, next: Dict.Files, files: seq<ComponentFile>, configLocales: seq<string>,
                       paths: seq<string>, filePath: string)
    requires SourceOf(files, |files|, filePath).Some? && filePath !in paths
    requires TransOrder(trans, files, configLocales, paths)
    requires var ft := SourceOf(files, |files|, filePath).value;
      FilledOrder(next, trans, filePath, LocaleOrder(ft, configLocales), KeyOrder(ft))
    ensures TransOrder(next, files, configLocales, paths + [filePath])
  {
    var ft := SourceOf(files, |files|, filePath).value;
    var paths' := paths + [filePath];
    assert paths'[..|paths'| - 1] == paths;
    AddKeysAppend([], LocaleStream(files, configLocales, paths), WrittenFor(files, configLocales, filePath));
    forall l ensures Keys(Dict.LangsAt(next, l)) == AddKeys([], FilesWith(files, configLocales, paths', l)) {
      ParseFilesStep(trans, next, files, configLocales, paths, filePath, l);
    }
    forall l, f ensures Keys(Dict.MsgsAt(next, l, f)) ==
      if f in paths' && l in WrittenFor(files, configLocales, f) then KeysFor(files, f) else []
    {
      ParseKeysStep(trans, next, files, configLocales, paths, filePath, l, f);
    }
  }

  lemma ParseFilesStep(trans: Dict.Files, next: Dict.Files, files: seq<ComponentFile>, configLocales: seq<string>,
                       paths: seq<string>, filePath: string, l: string)
    requires SourceOf(files, |files|, filePath).Some?
    requires Keys(Dict.LangsAt(trans, l)) == AddKeys([], FilesWith(files, configLocales, paths, l))
    requires var ft := SourceOf(files, |files|, filePath).value;
      Keys(Dict.LangsAt(next, l)) == AddKeys(Keys(Dict.LangsAt(trans, l)),
        if l in LocaleOrder(ft, configLocales) && KeyOrder(ft) != [] then [filePath] else [])
    ensures Keys(Dict.LangsAt(next, l)) == AddKeys([], FilesWith(files, configLocales, paths + [filePath], l))
  {
    var paths' := paths + [filePath];
    assert paths'[..|paths'| - 1] == paths;
    AddKeysAppend([], FilesWith(files, configLocales, paths, l),
                  if l in WrittenFor(files, configLocales, filePath) then [filePath] else []);
  }

  lemma ParseKeysStep(trans: Dict.Files, next: Dict.Files, files: seq<ComponentFile>, configLocales: seq<string>,
                      paths: seq<string>, filePath: string, l: string, f: string)
    requires SourceOf(files, |files|, filePath).Some? && filePath !in paths
    requires Keys(Dict.MsgsAt(trans, l, f)) ==
      if f in paths && l in WrittenFor(files, configLocales, f) then KeysFor(files, f) else []
    requires var ft := SourceOf(files, |files|, filePath).value;
      Keys(Dict.MsgsAt(next, l, f)) == AddKeys(Keys(Dict.MsgsAt(trans, l, f)),
        if l in LocaleOrder(ft, configLocales) && f == filePath then KeyOrder(ft) else [])
    ensures Keys(Dict.MsgsAt(next, l, f)) ==
      if f in paths + [filePath] && l in WrittenFor(files, configLocales, f) then KeysFor(files, f) else []
  {
    var ft := SourceOf(files, |files|, filePath).value;
    if f == filePath {
      AddKeysSpec([], AllKeys(ft));
      assert [] + KeyOrder(ft) == KeyOrder(ft);
      AddKeysFresh([], KeyOrder(ft));
    }
  }

  /** The well-formed shape of `trans` makes it an object at every level. */
  lemma FilesObjectShaped(trans: Dict.Files)
    requires Dict.FilesWellFormed(trans)
    ensures ObjectShaped(trans)
  {
    forall i | 0 <= i < |trans| ensures Distinct(Keys(trans[i].1)) {
      assert Dict.LangsWellFormed(trans[i].1);
    }
    forall i, j | 0 <= i < |trans| && 0 <= j < |trans[i].1| ensures Distinct(Keys(trans[i].1[j].1)) {
      assert Dict.LangsWellFormed(trans[i].1);
    }
  }

  lemma {:induction false} AllKeysSpec(blocks: seq<LocaleBlock>, key: string)
    ensures key in AllKeys(blocks) <==> exists b :: 0 <= b < |blocks| && key in Keys(blocks[b].messages)
    decreases |blocks|
  {
    if blocks != [] {
      var p := blocks[..|blocks| - 1];
      AllKeysSpec(p, key);
      assert forall b :: 0 <= b < |p| ==> p[b] == blocks[b];
    }
  }

  lemma {:induction false} BlockLocalesSpec(blocks: seq<LocaleBlock>, locale: string)
    ensures locale in BlockLocales(blocks) <==> exists b :: 0 <= b < |blocks| && blocks[b].locale == locale
    decreases |blocks|
  {
    if blocks != [] {
      var p := blocks[..|blocks| - 1];
      BlockLocalesSpec(p, locale);
      assert forall b :: 0 <= b < |p| ==> p[b] == blocks[b];
    }
  }

  /** The cached message is the one of the last block of that locale that
      defines the key; there is none when no block of that locale does. */
  lemma {:induction false} CacheValueSpec(blocks: seq<LocaleBlock>, upto: nat, locale: string, key: string)
    requires upto <= |blocks|
    ensures CacheValue(blocks, upto, locale, key).None? <==>
      forall b :: 0 <= b < upto ==> !(blocks[b].locale == locale && key in Keys(blocks[b].messages))
    ensures CacheValue(blocks, upto, locale, key).Some? ==>
      exists b :: (0 <= b < upto && blocks[b].locale == locale &&
        CacheValue(blocks, upto, locale, key) == Get(blocks[b].messages, key) &&
        forall b' :: b < b' < upto ==> !(blocks[b'].locale == locale && key in Keys(blocks[b'].messages)))
    decreases upto
  {
    if upto > 0 {
      CacheValueSpec(blocks, upto - 1, locale, key);
    }
  }

  /** Every locale of a kept component, from its blocks or from the
      configuration, receives every key any of its blocks defines: with
      the message of the last block of that locale defining it when that
      message is truthy, with `''` otherwise. Nothing else is filled in. */
  lemma Completed(files: seq<ComponentFile>, configLocales: seq<string>, locale: string, filePath: string,
                  key: string)
    requires SourceOf(files, |files|, filePath).Some?
    ensures var ft := SourceOf(files, |files|, filePath).value;
      Filled(files, configLocales, locale, filePath, key).Some? <==>
        ((locale in configLocales || exists b :: 0 <= b < |ft| && ft[b].locale == locale)
         && exists b :: 0 <= b < |ft| && key in Keys(ft[b].messages))
    ensures var ft := SourceOf(files, |files|, filePath).value;
      var v := CacheValue(ft, |ft|, locale, key);
      Filled(files, configLocales, locale, filePath, key).Some? ==>
        Filled(files, configLocales, locale, filePath, key).value ==
          if v.Some? && Truthy(v.value) then v.value else Static("")
  {
    var ft := SourceOf(files, |files|, filePath).value;
    AllKeysSpec(ft, key);
    BlockLocalesSpec(ft, locale);
  }

  /** A component outside the root or hidden contributes no row. */
  lemma DotFilesLeftOut(files: seq<ComponentFile>, configLocales: seq<string>, locale: string, filePath: string,
                        key: string)
    requires filePath != [] && filePath[0] == '.'
    ensures Filled(files, configLocales, locale, filePath, key).None?
  {
    SourceOfSpec(files, |files|, filePath);
  }

  // ---------------------------------------------------------------------
  // flattenTrans
  // ---------------------------------------------------------------------

  /** What reading a property of `undefined` throws. */
  function ReadingError(prop: string): string {
    "Cannot read properties of undefined (reading '" + prop + "')"
  }

  /** `trans[sourceLocale][fileName]`, read for the first key of the file:
      reading it throws when the source locale or the file is missing. */
  function SourceFileData(trans: Dict.Files, sourceLocale: string, fileName: string, key: string)
    : Result<ODict<string, Entry>, string>
  {
    match Get(trans, sourceLocale)
    case None => Err(ReadingError(fileName))
    case Some(localeData) =>
      match Get(localeData, fileName)
      case None => Err(ReadingError(key))
      case Some(fileData) => Ok(fileData)
  }

  /** The rows of one file: file, key, source text, this locale's text. */
  function RowsOf(fileName: string, fileData: ODict<string, Entry>, sourceData: ODict<string, Entry>)
    : (rows: seq<Row>)
    ensures |rows| == |fileData|
  {
    if fileData == [] then []
    else
      var j := |fileData| - 1;
      RowsOf(fileName, fileData[..j], sourceData) + [Row(fileName, fileData[j].0, Get(sourceData, fileData[j].0), fileData[j].1)]
  }

  lemma {:induction false} RowsOfAt(fileName: string, fileData: ODict<string, Entry>, sourceData: ODict<string, Entry>,
                                    j: nat)
    requires j < |fileData|
    ensures RowsOf(fileName, fileData, sourceData)[j] ==
      Row(fileName, fileData[j].0, Get(sourceData, fileData[j].0), fileData[j].1)
    decreases |fileData|
  {
    if j < |fileData| - 1 {
      var p := fileData[..|fileData| - 1];
      RowsOfAt(fileName, p, sourceData, j);
      assert p[j] == fileData[j];
    }
  }

  function FileRows(trans: Dict.Files, sourceLocale: string, fileName: string, fileData: ODict<string, Entry>)
    : Result<seq<Row>, string>
  {
    if fileData == [] then Ok([])
    else
      match SourceFileData(trans, sourceLocale, fileName, fileData[0].0)
      case Err(e) => Err(e)
      case Ok(sourceData) => Ok(RowsOf(fileName, fileData, sourceData))
  }

  /** The rows of one locale, file after file; the first file whose
      source cannot be read aborts. */
  function LocaleRows(trans: Dict.Files, sourceLocale: string, localeData: ODict<string, ODict<string, Entry>>)
    : Result<seq<Row>, string>
  {
    if localeData == [] then Ok([])
    else
      var last := localeData[|localeData| - 1];
      match LocaleRows(trans, sourceLocale, localeData[..|localeData| - 1])
      case Err(e) => Err(e)
      case Ok(rows) =>
        match FileRows(trans, sourceLocale, last.0, last.1)
        case Err(e) => Err(e)
        case Ok(more) => Ok(rows + more)
  }

  /** `data` for the first `upto` locales of `trans`. */
  function Flattened(trans: Dict.Files, sourceLocale: string, upto: nat): Result<ODict<string, seq<Row>>, string>
    requires upto <= |trans|
  {
    if upto == 0 then Ok([])
    else
      match Flattened(trans, sourceLocale, upto - 1)
      case Err(e) => Err(e)
      case Ok(data) =>
        match LocaleRows(trans, sourceLocale, trans[upto - 1].1)
        case Err(e) => Err(e)
        case Ok(rows) => Ok(data + [(trans[upto - 1].0, rows)])
  }

  /** The innermost loop of `flattenTrans`: the rows of one file. */
  method FlattenFile(trans: Dict.Files, sourceLocale: string, fileName: string, fileData: ODict<string, Entry>)
    returns (r: Result<seq<Row>, string>)
    ensures r == FileRows(trans, sourceLocale, fileName, fileData)
  {
    var rows: seq<Row> := [];
    var j := 0;
    while j < |fileData|
      invariant 0 <= j <= |fileData|
      invariant j == 0 ==> rows == []
      invariant j > 0 ==> FileRows(trans, sourceLocale, fileName, fileData).Ok?
      invariant j > 0 ==> rows == RowsOf(fileName, fileData[..j], SourceFileData(trans, sourceLocale, fileName, fileData[0].0).value)
    {
      var key := fileData[j].0;
      var sourceLocaleData := Get(trans, sourceLocale);
      if sourceLocaleData.None? {
        return Err(ReadingError(fileName));
      }
      var sourceData := Get(sourceLocaleData.value, fileName);
      if sourceData.None? {
        return Err(ReadingError(key));
      }
      assert fileData[..j + 1][..j] == fileData[..j];
      rows := rows + [Row(fileName, key, Get(sourceData.value, key), fileData[j].1)];
      j := j + 1;
    }
    assert fileData[..j] == fileData;
    return Ok(rows);
  }

  /** The middle loop of `flattenTrans`: the rows of one locale. */
  method FlattenLocale(trans: Dict.Files, sourceLocale: string, localeData: ODict<string, ODict<string, Entry>>)
    returns (r: Result<seq<Row>, string>)
    ensures r == LocaleRows(trans, sourceLocale, localeData)
  {
    var rows: seq<Row> := [];
    var i := 0;
    while i < |localeData|
      invariant 0 <= i <= |localeData|
      invariant LocaleRows(trans, sourceLocale, localeData[..i]) == Ok(rows)
    {
      var more := FlattenFile(trans, sourceLocale, localeData[i].0, localeData[i].1);
      assert localeData[..i + 1][..i] == localeData[..i];
      if more.Err? {
        LocaleRowsStops(trans, sourceLocale, localeData, i);
        return Err(more.error);
      }
      rows := rows + more.value;
      i := i + 1;
    }
    assert localeData[..i] == localeData;
    return Ok(rows);
  }

  lemma {:induction false} LocaleRowsStops(trans: Dict.Files, sourceLocale: string,
                                           localeData: ODict<string, ODict<string, Entry>>, i: nat)
    requires i < |localeData| && LocaleRows(trans, sourceLocale, localeData[..i]).Ok?
    requires FileRows(trans, sourceLocale, localeData[i].0, localeData[i].1).Err?
    ensures LocaleRows(trans, sourceLocale, localeData) == FileRows(trans, sourceLocale, localeData[i].0, localeData[i].1)
    decreases |localeData|
  {
    var p := localeData[..|localeData| - 1];
    if i < |localeData| - 1 {
      assert p[..i] == localeData[..i] && p[i] == localeData[i];
      LocaleRowsStops(trans, sourceLocale, p, i);
    } else {
      assert p == localeData[..i];
    }
  }

  /** `flattenTrans(trans, sourceLocale)`: one list of rows per locale. */
  method FlattenTrans(trans: Dict.Files, sourceLocale: string) returns (r: Result<ODict<string, seq<Row>>, string>)
    requires Distinct(Keys(trans))
    ensures r == Flattened(trans, sourceLocale, |trans|)
    ensures r.Ok? ==> Keys(r.value) == Keys(trans)
  {
    var data: ODict<string, seq<Row>> := [];
    var i := 0;
    while i < |trans|
      invariant 0 <= i <= |trans|
      invariant Flattened(trans, sourceLocale, i) == Ok(data)
      invariant Keys(data) == Keys(trans[..i])
    {
      var locale := trans[i].0;
      var rows := FlattenLocale(trans, sourceLocale, trans[i].1);
      if rows.Err? {
        FlattenedStops(trans, sourceLocale, i, |trans|);
        return Err(rows.error);
      }
      assert locale !in Keys(data) by {
        assert forall j :: 0 <= j < i ==> Keys(trans)[j] != Keys(trans)[i];
      }
      PutNew(data, locale, rows.value);
      assert Keys(trans[..i + 1]) == Keys(trans[..i]) + [locale];
      data := Put(data, locale, rows.value);
      i := i + 1;
    }
    assert trans[..i] == trans;
    return Ok(data);
  }

  lemma {:induction false} FlattenedStops(trans: Dict.Files, sourceLocale: string, i: nat, upto: nat)
    requires i < upto <= |trans| && Flattened(trans, sourceLocale, i).Ok?
    requires LocaleRows(trans, sourceLocale, trans[i].1).Err?
    ensures Flattened(trans, sourceLocale, upto) == Err(LocaleRows(trans, sourceLocale, trans[i].1).error)
    decreases upto
  {
    if upto - 1 > i {
      FlattenedStops(trans, sourceLocale, i, upto - 1);
    }
  }

  /** The number of keys over all files of one locale. */
  function KeyCount(localeData: ODict<string, ODict<string, Entry>>): nat {
    if localeData == [] then 0
    else KeyCount(localeData[..|localeData| - 1]) + |localeData[|localeData| - 1].1|
  }

  /** Row `t` comes from key `k` of file `j`. */
  predicate RowFrom(localeData: ODict<string, ODict<string, Entry>>, row: Row, j: nat, k: nat) {
    j < |localeData| && k < |localeData[j].1|
    && row.fileName == localeData[j].0 && row.key == localeData[j].1[k].0
    && row.translation == localeData[j].1[k].1
  }

  /** `row` comes from some key of some file. */
  ghost predicate FromSomeKey(localeData: ODict<string, ODict<string, Entry>>, row: Row) {
    exists j: nat, k: nat :: RowFrom(localeData, row, j, k)
  }

  /** Some row of `rows` comes from key `k` of file `j`. */
  predicate HasRow(localeData: ODict<string, ODict<string, Entry>>, rows: seq<Row>, j: nat, k: nat) {
    exists t :: 0 <= t < |rows| && RowFrom(localeData, rows[t], j, k)
  }

  /** The rows of the last file follow those of the files before it. */
  lemma LocaleRowsSplit(trans: Dict.Files, sourceLocale: string, localeData: ODict<string, ODict<string, Entry>>)
    requires localeData != [] && LocaleRows(trans, sourceLocale, localeData).Ok?
    ensures var n := |localeData| - 1;
      && LocaleRows(trans, sourceLocale, localeData[..n]).Ok?
      && FileRows(trans, sourceLocale, localeData[n].0, localeData[n].1).Ok?
      && LocaleRows(trans, sourceLocale, localeData).value ==
           LocaleRows(trans, sourceLocale, localeData[..n]).value
           + FileRows(trans, sourceLocale, localeData[n].0, localeData[n].1).value
  {
  }

  /** The rows of one file carry its name, each key and each text, in
      order. */
  lemma FileRowsSpec(trans: Dict.Files, sourceLocale: string, fileName: string, fileData: ODict<string, Entry>)
    requires FileRows(trans, sourceLocale, fileName, fileData).Ok?
    ensures var more := FileRows(trans, sourceLocale, fileName, fileData).value;
      && |more| == |fileData|
      && forall k :: 0 <= k < |more| ==>
           more[k].fileName == fileName && more[k].key == fileData[k].0 && more[k].translation == fileData[k].1
  {
    if fileData != [] {
      var sd := SourceFileData(trans, sourceLocale, fileName, fileData[0].0).value;
      forall k | 0 <= k < |fileData|
        ensures var r := RowsOf(fileName, fileData, sd)[k];
          r.fileName == fileName && r.key == fileData[k].0 && r.translation == fileData[k].1
      {
        RowsOfAt(fileName, fileData, sd, k);
      }
    }
  }

  /** As many rows as keys. */
  lemma {:induction false} LocaleRowsCount(trans: Dict.Files, sourceLocale: string,
                                           localeData: ODict<string, ODict<string, Entry>>)
    requires LocaleRows(trans, sourceLocale, localeData).Ok?
    ensures |LocaleRows(trans, sourceLocale, localeData).value| == KeyCount(localeData)
    decreases |localeData|
  {
    if localeData != [] {
      var n := |localeData| - 1;
      LocaleRowsSplit(trans, sourceLocale, localeData);
      FileRowsSpec(trans, sourceLocale, localeData[n].0, localeData[n].1);
      LocaleRowsCount(trans, sourceLocale, localeData[..n]);
    }
  }

  /** Every row carries the file, key and text of one key of one file. */
  lemma {:induction false} LocaleRowsFrom(trans: Dict.Files, sourceLocale: string,
                                          localeData: ODict<string, ODict<string, Entry>>)
    requires LocaleRows(trans, sourceLocale, localeData).Ok?
    ensures var rows := LocaleRows(trans, sourceLocale, localeData).value;
      forall t :: 0 <= t < |rows| ==> FromSomeKey(localeData, rows[t])
    decreases |localeData|
  {
    if localeData != [] {
      var n := |localeData| - 1;
      var p := localeData[..n];
      LocaleRowsSplit(trans, sourceLocale, localeData);
      FileRowsSpec(trans, sourceLocale, localeData[n].0, localeData[n].1);
      LocaleRowsFrom(trans, sourceLocale, p);
      var rows := LocaleRows(trans, sourceLocale, localeData).value;
      var front := LocaleRows(trans, sourceLocale, p).value;
      var more := FileRows(trans, sourceLocale, localeData[n].0, localeData[n].1).value;
      forall t | 0 <= t < |rows|
        ensures FromSomeKey(localeData, rows[t])
      {
        if t < |front| {
          assert rows[t] == front[t];
          assert FromSomeKey(p, front[t]);
          var j: nat, k: nat :| RowFrom(p, front[t], j, k);
          assert p[j] == localeData[j];
          assert RowFrom(localeData, rows[t], j, k);
        } else {
          assert rows[t] == more[t - |front|];
          assert RowFrom(localeData, rows[t], n, t - |front|);
        }
      }
    }
  }

  /** Every key of every file has its row. */
  lemma {:induction false} LocaleRowsCover(trans: Dict.Files, sourceLocale: string,
                                           localeData: ODict<string, ODict<string, Entry>>)
    requires LocaleRows(trans, sourceLocale, localeData).Ok?
    ensures var rows := LocaleRows(trans, sourceLocale, localeData).value;
      forall j, k :: 0 <= j < |localeData| && 0 <= k < |localeData[j].1| ==> HasRow(localeData, rows, j, k)
    decreases |localeData|
  {
    if localeData != [] {
      var n := |localeData| - 1;
      var p := localeData[..n];
      LocaleRowsSplit(trans, sourceLocale, localeData);
      FileRowsSpec(trans, sourceLocale, localeData[n].0, localeData[n].1);
      LocaleRowsCover(trans, sourceLocale, p);
      var rows := LocaleRows(trans, sourceLocale, localeData).value;
      var front := LocaleRows(trans, sourceLocale, p).value;
      var more := FileRows(trans, sourceLocale, localeData[n].0, localeData[n].1).value;
      forall j, k | 0 <= j < |localeData| && 0 <= k < |localeData[j].1|
        ensures HasRow(localeData, rows, j, k)
      {
        if j < n {
          assert HasRow(p, front, j, k);
          var t :| 0 <= t < |front| && RowFrom(p, front[t], j, k);
          assert rows[t] == front[t] && p[j] == localeData[j];
          assert RowFrom(localeData, rows[t], j, k);
        } else {
          assert rows[|front| + k] == more[k];
          assert RowFrom(localeData, rows[|front| + k], j, k);
        }
      }
    }
  }

  /** The rows of a locale can be built exactly when, for every file with
      at least one key, the source locale has that file. */
  lemma {:induction false} LocaleRowsOk(trans: Dict.Files, sourceLocale: string,
                                        localeData: ODict<string, ODict<string, Entry>>)
    ensures LocaleRows(trans, sourceLocale, localeData).Ok? <==>
      forall j :: 0 <= j < |localeData| && localeData[j].1 != [] ==>
        Get(trans, sourceLocale).Some? && localeData[j].0 in Keys(Get(trans, sourceLocale).value)
    decreases |localeData|
  {
    if localeData != [] {
      var p := localeData[..|localeData| - 1];
      LocaleRowsOk(trans, sourceLocale, p);
      assert forall j :: 0 <= j < |p| ==> p[j] == localeData[j];
    }
  }

  /** JavaScript objects at every level of `trans`. */
  predicate ObjectShaped(trans: Dict.Files) {
    Distinct(Keys(trans))
    && (forall i :: 0 <= i < |trans| ==> Distinct(Keys(trans[i].1)))
    && (forall i, j :: 0 <= i < |trans| && 0 <= j < |trans[i].1| ==> Distinct(Keys(trans[i].1[j].1)))
  }


  /** On the source locale's own sheet the source column and the
      translation column hold the same text. */
  lemma SourceColumnsEqual(trans: Dict.Files, sourceLocale: string, i: nat)
    requires ObjectShaped(trans) && i < |trans| && trans[i].0 == sourceLocale
    ensures LocaleRows(trans, sourceLocale, trans[i].1).Ok?
    ensures var rows := LocaleRows(trans, sourceLocale, trans[i].1).value;
      forall t :: 0 <= t < |rows| ==> rows[t].source == Some(rows[t].translation)
  {
    GetDistinct(trans, i);
    var ld := trans[i].1;
    forall j | 0 <= j < |ld|
      ensures Get(ld, ld[j].0) == Some(ld[j].1)
    {
      GetDistinct(ld, j);
    }
    OwnRows(trans, sourceLocale, ld, ld);
  }

  lemma {:induction false} OwnRows(trans: Dict.Files, sourceLocale: string,
                                   ld: ODict<string, ODict<string, Entry>>, part: ODict<string, ODict<string, Entry>>)
    requires Get(trans, sourceLocale) == Some(ld)
    requires forall j :: 0 <= j < |part| ==> Get(ld, part[j].0) == Some(part[j].1) && Distinct(Keys(part[j].1))
    ensures LocaleRows(trans, sourceLocale, part).Ok?
    ensures var rows := LocaleRows(trans, sourceLocale, part).value;
      forall t :: 0 <= t < |rows| ==> rows[t].source == Some(rows[t].translation)
    decreases |part|
  {
    if part != [] {
      var n := |part| - 1;
      var p := part[..n];
      assert forall j :: 0 <= j < n ==> p[j] == part[j];
      OwnRows(trans, sourceLocale, ld, p);
      var fd := part[n].1;
      if fd != [] {
        forall k | 0 <= k < |fd|
          ensures RowsOf(part[n].0, fd, fd)[k].source == Some(RowsOf(part[n].0, fd, fd)[k].translation)
        {
          RowsOfAt(part[n].0, fd, fd, k);
          GetDistinct(fd, k);
        }
      }
    }
  }
}
