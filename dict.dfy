/** lib/dict.js: the global dictionary of the build tools. Keys are
    `[lang, component, key]` triples, values cell pairs `{original,
    translation}` or range maps of them. The internal dictionary comes from
    the source files, the external one from the translators' sheets; the
    module decides which lines to push to the sheets and regroups the
    external dictionary into one `.vlg` file per component. */
module Dict {
  import opened Wrappers
  import opened JsText
  import opened OrderedDict
  import opened Messages
  import Filters
  import Extract

  type Dictionary = ODict<GlobalKey, DictMessage>

  // ---------------------------------------------------------------------
  // dictFromFiles
  // ---------------------------------------------------------------------

  /** `Object.assign(out, src)`: every key of `src` is written into `out`,
      in `src` order. */
  method Assign(out: Dictionary, src: Dictionary) returns (out': Dictionary)
    requires Distinct(Keys(out)) && Distinct(Keys(src))
    ensures Distinct(Keys(out'))
    ensures Keys(out') == AddKeys(Keys(out), Keys(src))
    ensures forall g :: Get(out', g) == (if g in Keys(src) then Get(src, g) else Get(out, g))
  {
    out' := out;
    var i := 0;
    while i < |src|
      invariant 0 <= i <= |src|
      invariant Distinct(Keys(out'))
      invariant Keys(out') == AddKeys(Keys(out), Keys(src[..i]))
      invariant forall g :: Get(out', g) == (if g in Keys(src[..i]) then Get(src, g) else Get(out, g))
    {
      var g0, m := src[i].0, src[i].1;
      FindFirst(src, g0, i);
      assert Keys(src[..i + 1]) == Keys(src[..i]) + [g0];
      forall g ensures Get(Put(out', g0, m), g) == (if g in Keys(src[..i + 1]) then Get(src, g) else Get(out, g)) {
        PutGet(out', g0, m, g);
      }
      PutDistinct(out', g0, m);
      PutAddKeys(out', Keys(out), Keys(src[..i]), g0, m);
      out' := Put(out', g0, m);
      i := i + 1;
    }
    assert src[..i] == src;
  }

  /** A source file handed to `extractFile`: its component name (the path
      relative to the project root), its path, and the parser's and the
      validator's verdicts on its content. */
  datatype SourceFile = SourceFile(component: string, path: string, data: Option<seq<LangBlock>>, valid: bool)

  predicate FileWellFormed(f: SourceFile) {
    f.data.Some? ==> Extract.WellFormed(f.data.value)
  }

  /** What the dictionary of file `f` holds under `g`. */
  function FileEntry(f: SourceFile, g: GlobalKey): Option<DictMessage> {
    Extract.Expected(Extract.FileContent(f.data, f.valid), f.component, g)
  }

  /** The value of `g` in the last of the first `upto` files that defines it. */
  function Merged(files: seq<SourceFile>, upto: nat, g: GlobalKey): Option<DictMessage>
    requires upto <= |files|
  {
    if upto == 0 then None
    else if FileEntry(files[upto - 1], g).Some? then FileEntry(files[upto - 1], g)
    else Merged(files, upto - 1, g)
  }

  /** The key order of the dictionary of file `f`. */
  function FileKeyOrder(f: SourceFile): seq<GlobalKey> {
    var content := Extract.FileContent(f.data, f.valid);
    Extract.FileKeys(content, f.component, |content|)
  }

  /** The key order of the first `upto` files merged: file after file, a
      key met again keeps the place it got first. */
  function MergedKeys(files: seq<SourceFile>, upto: nat): seq<GlobalKey>
    requires upto <= |files|
  {
    if upto == 0 then [] else AddKeys(MergedKeys(files, upto - 1), FileKeyOrder(files[upto - 1]))
  }

  /** `Object.assign(out, extractFile(root, file))`: one file's dictionary
      written over `out`. */
  method AddFile(out: Dictionary, f: SourceFile) returns (r: Result<Dictionary, string>)
    requires FileWellFormed(f) && Distinct(Keys(out))
    ensures r.Err? <==> !Extract.Parsable(f.path)
    ensures r.Err? ==> r.error == Extract.NotIterable
    ensures r.Ok? ==> Distinct(Keys(r.value))
    ensures r.Ok? ==> Keys(r.value) == AddKeys(Keys(out), FileKeyOrder(f))
    ensures r.Ok? ==> forall g :: Get(r.value, g) == (if FileEntry(f, g).Some? then FileEntry(f, g) else Get(out, g))
  {
    var d := Extract.ExtractFile(f.component, f.path, f.data, f.valid);
    if d.Err? {
      return Err(d.error);
    }
    var next := Assign(out, d.value);
    assert forall g :: Get(d.value, g) == FileEntry(f, g);
    return Ok(next);
  }

  /** `out` is the merge of the first `upto` files. */
  ghost predicate MergedUpTo(out: Dictionary, files: seq<SourceFile>, upto: nat)
    requires upto <= |files|
  {
    && Distinct(Keys(out))
    && Keys(out) == MergedKeys(files, upto)
    && forall g :: Get(out, g) == Merged(files, upto, g)
  }

  lemma MergedUpToStep(out: Dictionary, next: Dictionary, files: seq<SourceFile>, i: nat)
    requires i < |files| && MergedUpTo(out, files, i)
    requires Distinct(Keys(next)) && Keys(next) == AddKeys(Keys(out), FileKeyOrder(files[i]))
    requires forall g :: Get(next, g) == (if FileEntry(files[i], g).Some? then FileEntry(files[i], g) else Get(out, g))
    ensures MergedUpTo(next, files, i + 1)
  {
  }

  /** `dictFromFiles(root, files)`: the per-file dictionaries merged so that
      later files override earlier ones on equal keys. A file that is
      neither `.js` nor `.vue` makes `extractFile` throw. */
  method DictFromFiles(files: seq<SourceFile>) returns (r: Result<Dictionary, string>)
    requires forall i :: 0 <= i < |files| ==> FileWellFormed(files[i])
    ensures r.Err? <==> exists i :: 0 <= i < |files| && !Extract.Parsable(files[i].path)
    ensures r.Err? ==> r.error == Extract.NotIterable
    ensures r.Ok? ==> Distinct(Keys(r.value))
    ensures r.Ok? ==> Keys(r.value) == MergedKeys(files, |files|)
    ensures r.Ok? ==> forall g :: Get(r.value, g) == Merged(files, |files|, g)
  {
    var out: Dictionary := [];
    var i := 0;
    while i < |files|
      invariant 0 <= i <= |files|
      invariant forall j :: 0 <= j < i ==> Extract.Parsable(files[j].path)
      invariant MergedUpTo(out, files, i)
    {
      var next := AddFile(out, files[i]);
      if next.Err? {
        return next;
      }
      MergedUpToStep(out, next.value, files, i);
      out := next.value;
      i := i + 1;
    }
    return Ok(out);
  }

  /** A file that does not define `g` leaves the merged value of `g` as the
      files before it made it, and one that does wins. */
  lemma LaterFileWins(files: seq<SourceFile>, i: nat, g: GlobalKey)
    requires i < |files| && FileEntry(files[i], g).Some?
    requires forall j :: i < j < |files| ==> FileEntry(files[j], g).None?
    ensures Merged(files, |files|, g) == FileEntry(files[i], g)
  {
    LaterFileFrom(files, i, g, |files|);
  }

  lemma {:induction false} LaterFileFrom(files: seq<SourceFile>, i: nat, g: GlobalKey, upto: nat)
    requires i < upto <= |files| && FileEntry(files[i], g).Some?
    requires forall j :: i < j < upto ==> FileEntry(files[j], g).None?
    ensures Merged(files, upto, g) == FileEntry(files[i], g)
    decreases upto
  {
    if upto - 1 != i {
      LaterFileFrom(files, i, g, upto - 1);
    }
  }

  /** The merged dictionary lists each key once, and exactly the keys some
      file defines. */
  lemma {:induction false} MergedKeysSpec(files: seq<SourceFile>, upto: nat, g: GlobalKey)
    requires upto <= |files|
    ensures Distinct(MergedKeys(files, upto))
    ensures g in MergedKeys(files, upto) <==> Merged(files, upto, g).Some?
    decreases upto
  {
    if upto > 0 {
      var f := files[upto - 1];
      var content := Extract.FileContent(f.data, f.valid);
      MergedKeysSpec(files, upto - 1, g);
      AddKeysSpec(MergedKeys(files, upto - 1), FileKeyOrder(f));
      Extract.FileKeysSpec(content, f.component, |content|, g);
      Extract.SourceSpec(content, g.lang, g.key, |content|);
    }
  }

  // ---------------------------------------------------------------------
  // componentPath
  // ---------------------------------------------------------------------

  /** `path.join(dir, name)` for a relative `name` without `.` or `..`
      segments. */
  function PathJoin(dir: string, name: string): string {
    if dir == "" then name
    else if EndsWith(dir, "/") then dir + name
    else dir + "/" + name
  }

  /** `fileName.replace(/\.(vue|js)$/i, "")`. */
  function StripSourceExtension(fileName: string): string {
    if Extract.EndsWithIgnoringCase(fileName, ".vue") then fileName[..|fileName| - 4]
    else if Extract.EndsWithIgnoringCase(fileName, ".js") then fileName[..|fileName| - 3]
    else fileName
  }

  /** `componentPath(i18nRoot, fileName)`. */
  function ComponentPath(i18nRoot: string, fileName: string): string {
    PathJoin(i18nRoot, StripSourceExtension(fileName) + ".vlg")
  }

  /** One trailing `.vue` or `.js`, in any letter case, is replaced by
      `.vlg`; any other name keeps its extension and gains `.vlg`. */
  lemma ComponentPathCases(i18nRoot: string, stem: string, ext: string)
    requires Lower(ext) == ".vue" || Lower(ext) == ".js"
    ensures ComponentPath(i18nRoot, stem + ext) == PathJoin(i18nRoot, stem + ".vlg")
    ensures !Extract.Parsable(stem) ==> ComponentPath(i18nRoot, stem) == PathJoin(i18nRoot, stem + ".vlg")
  {
    var f := stem + ext;
    LowerAppend(stem, ext);
    if Lower(ext) == ".vue" {
      assert Lower(f)[|Lower(f)| - 4..] == Lower(ext);
      assert f[..|f| - 4] == stem;
    } else {
      assert Lower(f)[|Lower(f)| - 3..] == Lower(ext);
      assert Lower(f)[|Lower(f)| - 3] == '.';
      assert f[..|f| - 3] == stem;
    }
  }

  lemma LowerAppend(a: string, b: string)
    ensures Lower(a + b) == Lower(a) + Lower(b)
  {
    assert |Lower(a + b)| == |Lower(a) + Lower(b)|;
    forall k | 0 <= k < |a + b| ensures Lower(a + b)[k] == (Lower(a) + Lower(b))[k] {
      if k < |a| {
        assert (a + b)[k] == a[k];
      } else {
        assert (a + b)[k] == b[k - |a|];
      }
    }
  }

  /** Names that differ only in a recognised extension or its letter case,
      such as `App.vue`, `App.VUE` and `App.js`, share one `.vlg` file. */
  lemma ComponentPathCollides(i18nRoot: string, stem: string, ext1: string, ext2: string)
    requires Lower(ext1) == ".vue" || Lower(ext1) == ".js"
    requires Lower(ext2) == ".vue" || Lower(ext2) == ".js"
    ensures ComponentPath(i18nRoot, stem + ext1) == ComponentPath(i18nRoot, stem + ext2)
  {
    ComponentPathCases(i18nRoot, stem, ext1);
    ComponentPathCases(i18nRoot, stem, ext2);
  }

  // ---------------------------------------------------------------------
  // filterMessage
  // ---------------------------------------------------------------------

  /** A JavaScript value where a string is expected: `undefined`, a string,
      or an object. */
  datatype JsVal = Undefined | Str(s: string) | Obj

  predicate TruthyVal(v: JsVal) {
    v.Obj? || (v.Str? && v.s != "")
  }

  function OptionalString(o: Option<string>): JsVal {
    if o.Some? then Str(o.value) else Undefined
  }

  /** What calling `.trim()` on an object throws. */
  const TrimNotFunction := "message.trim is not a function"

  /** The filters `lib/filters.js` exports. */
  predicate Available(name: string) {
    name == "frenchPunctuation"
  }

  function Unavailable(name: string): string {
    "Filter \"" + name + "\" is not available"
  }

  /** `filters[lang] || []`. */
  function FiltersOf(lang: string, filters: map<string, seq<string>>): seq<string> {
    if lang in filters then filters[lang] else []
  }

  /** The named filters applied to `s` in order; the first unknown name
      throws. */
  function ApplyFilters(names: seq<string>, s: string): Result<string, string> {
    if names == [] then Ok(s)
    else if !Available(names[0]) then Err(Unavailable(names[0]))
    else ApplyFilters(names[1..], Filters.French(s))
  }

  /** The text `filterMessage(message, lang, filters)` returns, or the error
      it throws. */
  function Filtered(message: JsVal, lang: string, filters: map<string, seq<string>>): Result<string, string> {
    match message
    case Obj => Err(TrimNotFunction)
    case Undefined => ApplyFilters(FiltersOf(lang, filters), "")
    case Str(s) => ApplyFilters(FiltersOf(lang, filters), Trim(s))
  }

  /** `filterMessage(message, lang, filters)`. */
  method FilterMessage(message: JsVal, lang: string, filters: map<string, seq<string>>)
    returns (r: Result<string, string>)
    ensures r == Filtered(message, lang, filters)
  {
    var text: string;
    match message {
      case Obj => return Err(TrimNotFunction);
      case Undefined => text := "";
      case Str(s) => text := s;
    }
    text := Trim(text);
    var names := FiltersOf(lang, filters);
    var i := 0;
    while i < |names|
      invariant 0 <= i <= |names|
      invariant Filtered(message, lang, filters) == ApplyFilters(names[i..], text)
    {
      assert names[i..][1..] == names[i + 1..];
      if !Available(names[i]) {
        return Err(Unavailable(names[i]));
      }
      var out := Filters.FrenchPunctuation(Filters.JsString(text));
      text := out.s;
      i := i + 1;
    }
    return Ok(text);
  }

  /** Without filters for the language the message is only trimmed, and a
      missing message reads as the empty string. */
  lemma FilteredWithoutFilters(message: JsVal, lang: string, filters: map<string, seq<string>>)
    requires FiltersOf(lang, filters) == []
    ensures message.Str? ==> Filtered(message, lang, filters) == Ok(Trim(message.s))
    ensures message.Undefined? ==> Filtered(message, lang, filters) == Ok("")
  {
  }

  /** The first unknown filter name is reported, whatever follows it, and
      the filters succeed exactly when every name is known. */
  lemma {:induction false} ApplyFiltersErrors(names: seq<string>, s: string)
    ensures ApplyFilters(names, s).Ok? <==> forall i :: 0 <= i < |names| ==> Available(names[i])
    ensures ApplyFilters(names, s).Err? ==>
      exists i :: 0 <= i < |names| && !Available(names[i]) &&
        (forall j :: 0 <= j < i ==> Available(names[j])) &&
        ApplyFilters(names, s) == Err(Unavailable(names[i]))
  {
    if names != [] && Available(names[0]) {
      ApplyFiltersErrors(names[1..], Filters.French(s));
      if ApplyFilters(names, s).Err? {
        var i :| 0 <= i < |names[1..]| && !Available(names[1..][i]) &&
          (forall j :: 0 <= j < i ==> Available(names[1..][j])) &&
          ApplyFilters(names[1..], Filters.French(s)) == Err(Unavailable(names[1..][i]));
        assert !Available(names[i + 1]);
      }
    }
  }

  /** Filters keep the length and only turn ASCII spaces into no-break
      spaces. */
  lemma {:induction false} ApplyFiltersSpacesOnly(names: seq<string>, s: string)
    requires ApplyFilters(names, s).Ok?
    ensures var t := ApplyFilters(names, s).value;
      |t| == |s| && forall k :: 0 <= k < |s| ==> t[k] == s[k] || s[k] == ' '
  {
    if names != [] {
      var f := Filters.French(s);
      Filters.FrenchChanges(s);
      ApplyFiltersSpacesOnly(names[1..], f);
    }
  }

  /** A filtered message never starts or ends with white space: the text is
      trimmed first and the filters change spaces only. */
  lemma FilteredIsTrimmed(message: JsVal, lang: string, filters: map<string, seq<string>>)
    requires Filtered(message, lang, filters).Ok?
    ensures var t := Filtered(message, lang, filters).value;
      t == [] || (!IsSpace(t[0]) && !IsSpace(t[|t| - 1]))
  {
    var names := FiltersOf(lang, filters);
    match message
    case Str(m) =>
      var s := Trim(m);
      assert Filtered(message, lang, filters) == ApplyFilters(names, s);
      KeepsEdges(names, s);
    case Undefined =>
      assert Filtered(message, lang, filters) == ApplyFilters(names, "");
      KeepsEdges(names, "");
  }

  lemma KeepsEdges(names: seq<string>, s: string)
    requires s == [] || (!IsSpace(s[0]) && !IsSpace(s[|s| - 1]))
    requires ApplyFilters(names, s).Ok?
    ensures var t := ApplyFilters(names, s).value;
      t == [] || (!IsSpace(t[0]) && !IsSpace(t[|t| - 1]))
  {
    ApplyFiltersSpacesOnly(names, s);
    var t := ApplyFilters(names, s).value;
    if t != [] {
      assert t[0] == s[0];
      assert t[|t| - 1] == s[|s| - 1];
    }
  }

  /** A missing or empty message stays empty. */
  lemma FilteredEmpty(lang: string, filters: map<string, seq<string>>)
    requires Filtered(Undefined, lang, filters).Ok?
    ensures Filtered(Undefined, lang, filters) == Filtered(Str(""), lang, filters) == Ok("")
  {
    ApplyFiltersSpacesOnly(FiltersOf(lang, filters), "");
  }

  // ---------------------------------------------------------------------
  // sortDictByFile
  // ---------------------------------------------------------------------

  /** `message.original` or `message.translation` of a dictionary value: a
      field of a cell pair, or the cell pair a range map holds under that
      name. */
  function Prop(m: DictMessage, name: string): JsVal {
    match m
    case StaticCells(c) =>
      if name == "original" then OptionalString(c.original)
      else if name == "translation" then OptionalString(c.translation)
      else Undefined
    case RangeCells(rs) => if name in Keys(rs) then Obj else Undefined
  }

  /** `Object.entries(message)` with each value's `.translation`. A cell
      pair's fields are strings, whose `.translation` is undefined. */
  function RangeTranslations(m: DictMessage): (ts: seq<(string, JsVal)>)
    ensures m.RangeCells? ==> |ts| == |m.ranges|
  {
    match m
    case StaticCells(c) =>
      (if c.original.Some? then [("original", Undefined)] else [])
      + (if c.translation.Some? then [("translation", Undefined)] else [])
    case RangeCells(rs) =>
      seq(|rs|, i requires 0 <= i < |rs| => (rs[i].0, OptionalString(rs[i].1.translation)))
  }

  /** The filtered text of every range, in order. */
  function FilteredAll(ts: seq<(string, JsVal)>, lang: string, filters: map<string, seq<string>>)
    : (fs: seq<Result<string, string>>)
    ensures |fs| == |ts|
  {
    seq(|ts|, i requires 0 <= i < |ts| => Filtered(ts[i].1, lang, filters))
  }

  lemma FilteredAt(ts: seq<(string, JsVal)>, lang: string, filters: map<string, seq<string>>, i: nat)
    requires i < |ts|
    ensures FilteredAll(ts, lang, filters)[i] == Filtered(ts[i].1, lang, filters)
  {
  }

  /** The ranges whose filtered text `fs` is non-empty, in order; the first
      failing range aborts. */
  function Select(ts: seq<(string, JsVal)>, fs: seq<Result<string, string>>): Result<seq<(string, string)>, string>
    requires |fs| == |ts|
  {
    if ts == [] then Ok([])
    else
      match Select(ts[..|ts| - 1], fs[..|ts| - 1])
      case Err(e) => Err(e)
      case Ok(kept) =>
        match fs[|ts| - 1]
        case Err(e) => Err(e)
        case Ok(t) => Ok(if t != "" then kept + [(ts[|ts| - 1].0, t)] else kept)
  }

  function KeptRanges(ts: seq<(string, JsVal)>, lang: string, filters: map<string, seq<string>>)
    : Result<seq<(string, string)>, string>
  {
    Select(ts, FilteredAll(ts, lang, filters))
  }

  /** The `realMessage` of one dictionary entry: None when it is dropped. */
  function RealMessage(m: DictMessage, lang: string, filters: map<string, seq<string>>)
    : Result<Option<Entry>, string>
  {
    if TruthyVal(Prop(m, "original")) || TruthyVal(Prop(m, "translation")) then
      match Filtered(Prop(m, "translation"), lang, filters)
      case Err(e) => Err(e)
      case Ok(t) => Ok(if t != "" then Some(Static(t)) else None)
    else
      match KeptRanges(RangeTranslations(m), lang, filters)
      case Err(e) => Err(e)
      case Ok(kept) => Ok(if kept != [] then Some(Ranges(kept)) else None)
  }

  /** The range loop of `sortDictByFile`. */
  method FilterRanges(ts: seq<(string, JsVal)>, lang: string, filters: map<string, seq<string>>)
    returns (r: Result<seq<(string, string)>, string>)
    requires Distinct(Keys(ts))
    ensures r == KeptRanges(ts, lang, filters)
  {
    ghost var fs := FilteredAll(ts, lang, filters);
    var kept: seq<(string, string)> := [];
    var i := 0;
    while i < |ts|
      invariant 0 <= i <= |ts|
      invariant Select(ts[..i], fs[..i]) == Ok(kept)
    {
      var range, text := ts[i].0, ts[i].1;
      var clean := FilterMessage(text, lang, filters);
      FilteredAt(ts, lang, filters, i);
      if clean.Err? {
        SelectStopsAt(ts, fs, i);
        return Err(clean.error);
      }
      SelectStep(ts, fs, i, kept);
      if clean.value != "" {
        NotKeptYet(ts, fs, i, kept);
        PutNew(kept, range, clean.value);
        kept := Put(kept, range, clean.value);
      }
      i := i + 1;
    }
    assert ts[..i] == ts && fs[..i] == fs;
    return Ok(kept);
  }

  lemma SelectStep(ts: seq<(string, JsVal)>, fs: seq<Result<string, string>>, i: nat,
                   kept: seq<(string, string)>)
    requires |fs| == |ts| && i < |ts| && Select(ts[..i], fs[..i]) == Ok(kept) && fs[i].Ok?
    ensures Select(ts[..i + 1], fs[..i + 1]) ==
      Ok(if fs[i].value != "" then kept + [(ts[i].0, fs[i].value)] else kept)
  {
    assert ts[..i + 1][..i] == ts[..i] && fs[..i + 1][..i] == fs[..i];
  }

  /** A range is not selected before its own turn. */
  lemma NotKeptYet(ts: seq<(string, JsVal)>, fs: seq<Result<string, string>>, i: nat,
                   kept: seq<(string, string)>)
    requires |fs| == |ts| && i < |ts| && Distinct(Keys(ts)) && Select(ts[..i], fs[..i]) == Ok(kept)
    ensures ts[i].0 !in Keys(kept)
  {
    SelectSpec(ts[..i], fs[..i]);
  }

  /** The first failing range is the error of the whole map. */
  lemma {:induction false} SelectStopsAt(ts: seq<(string, JsVal)>, fs: seq<Result<string, string>>, i: nat)
    requires |fs| == |ts| && i < |ts| && Select(ts[..i], fs[..i]).Ok? && fs[i].Err?
    ensures Select(ts, fs) == Err(fs[i].error)
    decreases |ts|
  {
    var p, q := ts[..|ts| - 1], fs[..|ts| - 1];
    if i < |ts| - 1 {
      assert p[..i] == ts[..i] && q[..i] == fs[..i] && q[i] == fs[i];
      SelectStopsAt(p, q, i);
    } else {
      assert p == ts[..i] && q == fs[..i];
    }
  }

  /** The selected ranges are exactly those whose text is non-empty, in
      their order and with that text; the selection fails exactly when one
      of the texts fails. */
  lemma {:induction false} SelectSpec(ts: seq<(string, JsVal)>, fs: seq<Result<string, string>>)
    requires |fs| == |ts|
    ensures Select(ts, fs).Ok? <==> forall i :: 0 <= i < |ts| ==> fs[i].Ok?
    ensures Select(ts, fs).Ok? ==>
      var kept := Select(ts, fs).value;
      && (forall j :: 0 <= j < |kept| ==>
            (kept[j].1 != "" && exists i :: 0 <= i < |ts| && ts[i].0 == kept[j].0 && fs[i] == Ok(kept[j].1)))
      && (forall i :: 0 <= i < |ts| && fs[i].value != "" ==> ts[i].0 in Keys(kept))
    decreases |ts|
  {
    if ts != [] {
      var p, q := ts[..|ts| - 1], fs[..|ts| - 1];
      SelectSpec(p, q);
      assert forall i :: 0 <= i < |p| ==> p[i] == ts[i] && q[i] == fs[i];
      if Select(ts, fs).Ok? {
        var kept' := Select(p, q).value;
        var x := (ts[|ts| - 1].0, fs[|ts| - 1].value);
        assert Keys(kept' + [x]) == Keys(kept') + [x.0];
      }
    }
  }

  /** The `realMessage` computation of `sortDictByFile`. */
  method RealMessageOf(m: DictMessage, lang: string, filters: map<string, seq<string>>)
    returns (r: Result<Option<Entry>, string>)
    requires m.RangeCells? ==> Distinct(Keys(m.ranges))
    ensures r == RealMessage(m, lang, filters)
  {
    if TruthyVal(Prop(m, "original")) || TruthyVal(Prop(m, "translation")) {
      var t := FilterMessage(Prop(m, "translation"), lang, filters);
      if t.Err? {
        return Err(t.error);
      }
      return Ok(if t.value != "" then Some(Static(t.value)) else None);
    }
    var ts := RangeTranslations(m);
    assert Distinct(Keys(ts)) by {
      if m.RangeCells? {
        assert Keys(ts) == Keys(m.ranges);
      }
    }
    var kept := FilterRanges(ts, lang, filters);
    if kept.Err? {
      return Err(kept.error);
    }
    return Ok(if kept.value != [] then Some(Ranges(kept.value)) else None);
  }

  /** The real message of line `i` of the dictionary. */
  method RealMessageOfLine(dict: Dictionary, filters: map<string, seq<string>>, i: nat)
    returns (r: Result<Option<Entry>, string>)
    requires RangesDistinct(dict) && i < |dict|
    ensures r == RealMessages(dict, filters)[i]
  {
    r := RealMessageOf(dict[i].1, dict[i].0.lang, filters);
    RealMessageAt(dict, filters, i);
  }

  /** Nothing empty reaches a `.vlg` file: a kept static message is a
      non-empty string, a kept range map has at least one range and no
      empty text. */
  lemma NothingEmptyKept(m: DictMessage, lang: string, filters: map<string, seq<string>>)
    requires RealMessage(m, lang, filters).Ok? && RealMessage(m, lang, filters).value.Some?
    ensures var e := RealMessage(m, lang, filters).value.value;
      && Truthy(e)
      && (e.Ranges? ==> e.ranges != [] && forall j :: 0 <= j < |e.ranges| ==> e.ranges[j].1 != "")
  {
    if !(TruthyVal(Prop(m, "original")) || TruthyVal(Prop(m, "translation"))) {
      var ts := RangeTranslations(m);
      SelectSpec(ts, FilteredAll(ts, lang, filters));
    }
  }

  /** An entry without a translation never reaches a `.vlg` file, whether
      or not it has an original text. */
  lemma UntranslatedDropped(c: Cell, lang: string, filters: map<string, seq<string>>)
    requires c.translation.None?
    requires RealMessage(StaticCells(c), lang, filters).Ok?
    ensures RealMessage(StaticCells(c), lang, filters) == Ok(None)
  {
    var m := StaticCells(c);
    if TruthyVal(Prop(m, "original")) {
      FilteredEmpty(lang, filters);
    } else {
      var ts := RangeTranslations(m);
      var fs := FilteredAll(ts, lang, filters);
      SelectSpec(ts, fs);
      var kept := Select(ts, fs).value;
      if kept != [] {
        var i :| 0 <= i < |ts| && ts[i].0 == kept[0].0 && fs[i] == Ok(kept[0].1);
        assert ts[i].1 == Undefined;
        FilteredEmpty(lang, filters);
        assert false;
      }
    }
  }

  /** The `.vlg` files: path, then language, then key. */
  type Files = ODict<string, ODict<string, ODict<string, Entry>>>

  /** `files[path][lang][key]`. */
  function Lookup(files: Files, path: string, lang: string, key: string): Option<Entry> {
    match Get(files, path)
    case None => None
    case Some(langs) =>
      match Get(langs, lang)
      case None => None
      case Some(msgs) => Get(msgs, key)
  }

  /** The languages of one file: distinct, none of them empty. */
  ghost predicate LangsWellFormed(langs: ODict<string, ODict<string, Entry>>) {
    Distinct(Keys(langs)) && forall j :: 0 <= j < |langs| ==> langs[j].1 != [] && Distinct(Keys(langs[j].1))
  }

  /** Objects have distinct keys, and no file and no language is empty. */
  ghost predicate FilesWellFormed(files: Files) {
    Distinct(Keys(files)) && forall i :: 0 <= i < |files| ==> files[i].1 != [] && LangsWellFormed(files[i].1)
  }

  /** `files[path][lang][key] = e`, creating the enclosing objects if
      needed. */
  function Store(files: Files, path: string, lang: string, key: string, e: Entry): Files {
    Put(files, path, Put(LangsAt(files, path), lang, Put(MsgsAt(files, path, lang), key, e)))
  }

  /** `files[path]`, an empty object when there is none. */
  function LangsAt(files: Files, path: string): ODict<string, ODict<string, Entry>> {
    Get(files, path).GetOr([])
  }

  /** `files[path][lang]`, an empty object when there is none. */
  function MsgsAt(files: Files, path: string, lang: string): ODict<string, Entry> {
    Get(LangsAt(files, path), lang).GetOr([])
  }

  /** Storing keeps the order at every level: a path, language or key
      that is new goes last in its object, one already there stays put. */
  lemma StoreKeys(files: Files, path: string, lang: string, key: string, e: Entry, p: string, l: string)
    ensures Keys(Store(files, path, lang, key, e)) ==
      if path in Keys(files) then Keys(files) else Keys(files) + [path]
    ensures var before := Keys(LangsAt(files, p));
      Keys(LangsAt(Store(files, path, lang, key, e), p)) ==
        if p != path || lang in before then before else before + [lang]
    ensures var before := Keys(MsgsAt(files, p, l));
      Keys(MsgsAt(Store(files, path, lang, key, e), p, l)) ==
        if p != path || l != lang || key in before then before else before + [key]
  {
    var langs := LangsAt(files, path);
    var msgs' := Put(MsgsAt(files, path, lang), key, e);
    PutKeys(files, path, Put(langs, lang, msgs'));
    PutGet(files, path, Put(langs, lang, msgs'), p);
    PutKeys(langs, lang, msgs');
    PutGet(langs, lang, msgs', l);
    PutKeys(MsgsAt(files, path, lang), key, e);
  }

  /** The key order of one innermost object after a store. */
  lemma StoreMsgsKeys(files: Files, path: string, lang: string, key: string, e: Entry, p: string, l: string)
    ensures var before := Keys(MsgsAt(files, p, l));
      Keys(MsgsAt(Store(files, path, lang, key, e), p, l)) == AddKeys(before, if p == path && l == lang then [key] else [])
  {
    StoreKeys(files, path, lang, key, e, p, l);
    AddKeysOne(Keys(MsgsAt(files, p, l)), key);
  }

  lemma StoreLookup(files: Files, path: string, lang: string, key: string, e: Entry,
                    p: string, l: string, k: string)
    ensures Lookup(Store(files, path, lang, key, e), p, l, k) ==
      if p == path && l == lang && k == key then Some(e) else Lookup(files, p, l, k)
  {
    var langs := Get(files, path).GetOr([]);
    var msgs := Get(langs, lang).GetOr([]);
    PutGet(files, path, Put(langs, lang, Put(msgs, key, e)), p);
    PutGet(langs, lang, Put(msgs, key, e), l);
    PutGet(msgs, key, e, k);
  }

  lemma StoreLangs(langs: ODict<string, ODict<string, Entry>>, lang: string, key: string, e: Entry)
    requires LangsWellFormed(langs)
    ensures LangsWellFormed(Put(langs, lang, Put(Get(langs, lang).GetOr([]), key, e)))
  {
    var msgs := Get(langs, lang).GetOr([]);
    if lang in Keys(langs) {
      GetPosition(langs, lang);
    }
    assert Distinct(Keys(msgs));
    var msgs' := Put(msgs, key, e);
    PutDistinct(msgs, key, e);
    PutPositions(msgs, key, e);
    PutDistinct(langs, lang, msgs');
    PutPositions(langs, lang, msgs');
  }

  lemma StoreWellFormed(files: Files, path: string, lang: string, key: string, e: Entry)
    requires FilesWellFormed(files)
    ensures FilesWellFormed(Store(files, path, lang, key, e))
  {
    var langs := Get(files, path).GetOr([]);
    if path in Keys(files) {
      GetPosition(files, path);
    }
    assert LangsWellFormed(langs);
    var langs' := Put(langs, lang, Put(Get(langs, lang).GetOr([]), key, e));
    StoreLangs(langs, lang, key, e);
    PutPositions(langs, lang, Put(Get(langs, lang).GetOr([]), key, e));
    PutDistinct(files, path, langs');
    PutPositions(files, path, langs');
  }

  /** The real message of every dictionary line. */
  function RealMessages(dict: Dictionary, filters: map<string, seq<string>>)
    : (rms: seq<Result<Option<Entry>, string>>)
    ensures |rms| == |dict|
  {
    if dict == [] then []
    else RealMessages(dict[..|dict| - 1], filters) + [RealMessage(dict[|dict| - 1].1, dict[|dict| - 1].0.lang, filters)]
  }

  lemma {:induction false} RealMessageAt(dict: Dictionary, filters: map<string, seq<string>>, i: nat)
    requires i < |dict|
    ensures RealMessages(dict, filters)[i] == RealMessage(dict[i].1, dict[i].0.lang, filters)
    decreases |dict|
  {
    if i < |dict| - 1 {
      var p := dict[..|dict| - 1];
      RealMessageAt(p, filters, i);
      assert p[i] == dict[i];
    }
  }

  /** Line `i` lands at `files[path][lang][key]` with a non-empty message. */
  predicate LandsAt(dict: Dictionary, rms: seq<Result<Option<Entry>, string>>, i18nRoot: string, i: nat,
                    path: string, lang: string, key: string)
    requires |rms| == |dict| && i < |dict|
  {
    ComponentPath(i18nRoot, dict[i].0.component) == path && dict[i].0.lang == lang && dict[i].0.key == key
    && rms[i].Ok? && rms[i].value.Some?
  }

  /** The message of the last of the first `upto` lines that lands at
      `files[path][lang][key]`, given the real message `rms[i]` of each
      line. */
  function Kept(dict: Dictionary, rms: seq<Result<Option<Entry>, string>>, i18nRoot: string, upto: nat,
                path: string, lang: string, key: string): Option<Entry>
    requires |rms| == |dict| && upto <= |dict|
  {
    if upto == 0 then None
    else if LandsAt(dict, rms, i18nRoot, upto - 1, path, lang, key) then rms[upto - 1].value
    else Kept(dict, rms, i18nRoot, upto - 1, path, lang, key)
  }

  /** Line `i` is stored: its real message is a non-empty one. */
  predicate StoredLine(rms: seq<Result<Option<Entry>, string>>, i: nat)
    requires i < |rms|
  {
    rms[i].Ok? && rms[i].value.Some?
  }

  /** The paths the stored lines among the first `upto` go to, line after
      line. */
  function KeptPaths(dict: Dictionary, rms: seq<Result<Option<Entry>, string>>, i18nRoot: string, upto: nat)
    : seq<string>
    requires |rms| == |dict| && upto <= |dict|
  {
    if upto == 0 then []
    else
      KeptPaths(dict, rms, i18nRoot, upto - 1)
      + if StoredLine(rms, upto - 1) then [ComponentPath(i18nRoot, dict[upto - 1].0.component)] else []
  }

  /** The languages of the stored lines among the first `upto` that go to
      `path`, line after line. */
  function KeptLangs(dict: Dictionary, rms: seq<Result<Option<Entry>, string>>, i18nRoot: string, upto: nat,
                     path: string): seq<string>
    requires |rms| == |dict| && upto <= |dict|
  {
    if upto == 0 then []
    else
      KeptLangs(dict, rms, i18nRoot, upto - 1, path)
      + if StoredLine(rms, upto - 1) && ComponentPath(i18nRoot, dict[upto - 1].0.component) == path
        then [dict[upto - 1].0.lang] else []
  }

  /** The keys of the stored lines among the first `upto` that go to
      `path` in language `lang`, line after line. */
  function KeptKeys(dict: Dictionary, rms: seq<Result<Option<Entry>, string>>, i18nRoot: string, upto: nat,
                    path: string, lang: string): seq<string>
    requires |rms| == |dict| && upto <= |dict|
  {
    if upto == 0 then []
    else
      KeptKeys(dict, rms, i18nRoot, upto - 1, path, lang)
      + if StoredLine(rms, upto - 1) && ComponentPath(i18nRoot, dict[upto - 1].0.component) == path
           && dict[upto - 1].0.lang == lang
        then [dict[upto - 1].0.key] else []
  }

  /** The order `sortDictByFile` gives the files after the first `upto`
      lines: the paths, the languages of each path and the keys of each
      language, each in the order a stored line first reached them. */
  ghost predicate InKeptOrder(files: Files, dict: Dictionary, rms: seq<Result<Option<Entry>, string>>,
                              i18nRoot: string, upto: nat)
    requires |rms| == |dict| && upto <= |dict|
  {
    && Keys(files) == AddKeys([], KeptPaths(dict, rms, i18nRoot, upto))
    && (forall p :: Keys(LangsAt(files, p)) == AddKeys([], KeptLangs(dict, rms, i18nRoot, upto, p)))
    && (forall p, l :: Keys(MsgsAt(files, p, l)) == AddKeys([], KeptKeys(dict, rms, i18nRoot, upto, p, l)))
  }

  /** The keys listed for a language of a file are exactly those some
      kept message lands at. */
  lemma {:induction false} KeptKeysSpec(dict: Dictionary, rms: seq<Result<Option<Entry>, string>>, i18nRoot: string,
                                        upto: nat, path: string, lang: string, key: string)
    requires |rms| == |dict| && upto <= |dict|
    ensures key in KeptKeys(dict, rms, i18nRoot, upto, path, lang) <==>
      Kept(dict, rms, i18nRoot, upto, path, lang, key).Some?
    decreases upto
  {
    if upto > 0 {
      KeptKeysSpec(dict, rms, i18nRoot, upto - 1, path, lang, key);
    }
  }

  /** One line of `sortDictByFile` keeps the files in the kept order. */
  lemma SortOrderStep(dict: Dictionary, rms: seq<Result<Option<Entry>, string>>, i18nRoot: string, i: nat,
                      files: Files, next: Files)
    requires |rms| == |dict| && i < |dict| && rms[i].Ok?
    requires InKeptOrder(files, dict, rms, i18nRoot, i)
    requires next == if rms[i].value.Some? then
      Store(files, ComponentPath(i18nRoot, dict[i].0.component), dict[i].0.lang, dict[i].0.key, rms[i].value.value)
      else files
    ensures InKeptOrder(next, dict, rms, i18nRoot, i + 1)
  {
    SortPathsStep(dict, rms, i18nRoot, i, files, next);
    forall p ensures Keys(LangsAt(next, p)) == AddKeys([], KeptLangs(dict, rms, i18nRoot, i + 1, p)) {
      SortLangsStep(dict, rms, i18nRoot, i, files, next, p);
    }
    forall p, l ensures Keys(MsgsAt(next, p, l)) == AddKeys([], KeptKeys(dict, rms, i18nRoot, i + 1, p, l)) {
      SortKeysStep(dict, rms, i18nRoot, i, files, next, p, l);
    }
  }

  lemma SortPathsStep(dict: Dictionary, rms: seq<Result<Option<Entry>, string>>, i18nRoot: string, i: nat,
                      files: Files, next: Files)
    requires |rms| == |dict| && i < |dict| && rms[i].Ok?
    requires Keys(files) == AddKeys([], KeptPaths(dict, rms, i18nRoot, i))
    requires next == if rms[i].value.Some? then
      Store(files, ComponentPath(i18nRoot, dict[i].0.component), dict[i].0.lang, dict[i].0.key, rms[i].value.value)
      else files
    ensures Keys(next) == AddKeys([], KeptPaths(dict, rms, i18nRoot, i + 1))
  {
    var path := ComponentPath(i18nRoot, dict[i].0.component);
    var before := KeptPaths(dict, rms, i18nRoot, i);
    assert KeptPaths(dict, rms, i18nRoot, i + 1) == before + if rms[i].value.Some? then [path] else [];
    AddKeysWhen([], before, rms[i].value.Some?, path);
    if rms[i].value.Some? {
      StoreKeys(files, path, dict[i].0.lang, dict[i].0.key, rms[i].value.value, path, dict[i].0.lang);
    }
  }

  lemma SortLangsStep(dict: Dictionary, rms: seq<Result<Option<Entry>, string>>, i18nRoot: string, i: nat,
                      files: Files, next: Files, p: string)
    requires |rms| == |dict| && i < |dict| && rms[i].Ok?
    requires Keys(LangsAt(files, p)) == AddKeys([], KeptLangs(dict, rms, i18nRoot, i, p))
    requires next == if rms[i].value.Some? then
      Store(files, ComponentPath(i18nRoot, dict[i].0.component), dict[i].0.lang, dict[i].0.key, rms[i].value.value)
      else files
    ensures Keys(LangsAt(next, p)) == AddKeys([], KeptLangs(dict, rms, i18nRoot, i + 1, p))
  {
    var path, lang := ComponentPath(i18nRoot, dict[i].0.component), dict[i].0.lang;
    var before := KeptLangs(dict, rms, i18nRoot, i, p);
    var stored := rms[i].value.Some? && path == p;
    assert KeptLangs(dict, rms, i18nRoot, i + 1, p) == before + if stored then [lang] else [];
    AddKeysWhen([], before, stored, lang);
    if rms[i].value.Some? {
      StoreKeys(files, path, lang, dict[i].0.key, rms[i].value.value, p, lang);
    }
  }

  lemma SortKeysStep(dict: Dictionary, rms: seq<Result<Option<Entry>, string>>, i18nRoot: string, i: nat,
                     files: Files, next: Files, p: string, l: string)
    requires |rms| == |dict| && i < |dict| && rms[i].Ok?
    requires Keys(MsgsAt(files, p, l)) == AddKeys([], KeptKeys(dict, rms, i18nRoot, i, p, l))
    requires next == if rms[i].value.Some? then
      Store(files, ComponentPath(i18nRoot, dict[i].0.component), dict[i].0.lang, dict[i].0.key, rms[i].value.value)
      else files
    ensures Keys(MsgsAt(next, p, l)) == AddKeys([], KeptKeys(dict, rms, i18nRoot, i + 1, p, l))
  {
    var path, lang, key := ComponentPath(i18nRoot, dict[i].0.component), dict[i].0.lang, dict[i].0.key;
    var before := KeptKeys(dict, rms, i18nRoot, i, p, l);
    var stored := rms[i].value.Some? && path == p && lang == l;
    assert KeptKeys(dict, rms, i18nRoot, i + 1, p, l) == before + if stored then [key] else [];
    AddKeysWhen([], before, stored, key);
    if rms[i].value.Some? {
      StoreKeys(files, path, lang, key, rms[i].value.value, p, l);
    }
  }

  /** The first of the first `upto` results that is an error. */
  function FirstFailure(rms: seq<Result<Option<Entry>, string>>, upto: nat): (r: Option<nat>)
    requires upto <= |rms|
    ensures r.Some? ==> r.value < upto && rms[r.value].Err?
    ensures r.Some? ==> forall j :: 0 <= j < r.value ==> rms[j].Ok?
    ensures r.None? ==> forall j :: 0 <= j < upto ==> rms[j].Ok?
  {
    if upto == 0 then None
    else if FirstFailure(rms, upto - 1).Some? then FirstFailure(rms, upto - 1)
    else if rms[upto - 1].Err? then Some(upto - 1)
    else None
  }

  /** Range maps are objects: their range names are distinct. */
  predicate RangesDistinct(dict: Dictionary) {
    forall i :: 0 <= i < |dict| && dict[i].1.RangeCells? ==> Distinct(Keys(dict[i].1.ranges))
  }

  /** `sortDictByFile(dict, i18nRoot, filters)`: every kept entry at
      `files[componentPath(i18nRoot, component)][lang][key]`, the later
      line winning; the first line whose filtering throws aborts with that
      error. */
  method SortDictByFile(dict: Dictionary, i18nRoot: string, filters: map<string, seq<string>>)
    returns (r: Result<Files, string>)
    requires RangesDistinct(dict)
    ensures var rms := RealMessages(dict, filters);
      r.Err? <==> FirstFailure(rms, |dict|).Some?
    ensures var rms := RealMessages(dict, filters);
      r.Err? ==> r.error == rms[FirstFailure(rms, |dict|).value].error
    ensures r.Ok? ==> FilesWellFormed(r.value)
    ensures var rms := RealMessages(dict, filters);
      r.Ok? ==> forall p, l, k :: Lookup(r.value, p, l, k) == Kept(dict, rms, i18nRoot, |dict|, p, l, k)
    ensures r.Ok? ==> InKeptOrder(r.value, dict, RealMessages(dict, filters), i18nRoot, |dict|)
  {
    ghost var rms := RealMessages(dict, filters);
    var files: Files := [];
    SortedNothing(dict, rms, i18nRoot);
    var i := 0;
    while i < |dict|
      invariant 0 <= i <= |dict|
      invariant FirstFailure(rms, i).None?
      invariant SortedUpTo(files, dict, rms, i18nRoot, i)
    {
      var next := SortLine(dict, i18nRoot, filters, i, files, rms);
      FirstFailureNext(rms, i);
      if next.Err? {
        FirstFailureStable(rms, i + 1, |dict|);
        return next;
      }
      files := next.value;
      i := i + 1;
    }
    return Ok(files);
  }

  /** `files` is what `sortDictByFile` has built from the first `upto`
      lines: well formed, holding the kept messages, in the kept order. */
  ghost predicate SortedUpTo(files: Files, dict: Dictionary, rms: seq<Result<Option<Entry>, string>>,
                             i18nRoot: string, upto: nat)
    requires |rms| == |dict| && upto <= |dict|
  {
    && FilesWellFormed(files)
    && (forall p, l, k :: Lookup(files, p, l, k) == Kept(dict, rms, i18nRoot, upto, p, l, k))
    && InKeptOrder(files, dict, rms, i18nRoot, upto)
  }

  lemma SortedNothing(dict: Dictionary, rms: seq<Result<Option<Entry>, string>>, i18nRoot: string)
    requires |rms| == |dict|
    ensures SortedUpTo([], dict, rms, i18nRoot, 0)
  {
  }

  /** One iteration of `sortDictByFile`: line `i` filtered and, when kept,
      stored. */
  method SortLine(dict: Dictionary, i18nRoot: string, filters: map<string, seq<string>>, i: nat,
                  files: Files, ghost rms: seq<Result<Option<Entry>, string>>)
    returns (r: Result<Files, string>)
    requires RangesDistinct(dict) && i < |dict| && rms == RealMessages(dict, filters)
    requires SortedUpTo(files, dict, rms, i18nRoot, i)
    ensures r.Err? <==> rms[i].Err?
    ensures r.Err? ==> r.error == rms[i].error
    ensures r.Ok? ==> SortedUpTo(r.value, dict, rms, i18nRoot, i + 1)
  {
    var g := dict[i].0;
    var cPath := ComponentPath(i18nRoot, g.component);
    var realMessage := RealMessageOfLine(dict, filters, i);
    if realMessage.Err? {
      return Err(realMessage.error);
    }
    var next := files;
    if realMessage.value.Some? {
      StoreWellFormed(files, cPath, g.lang, g.key, realMessage.value.value);
      next := Store(files, cPath, g.lang, g.key, realMessage.value.value);
    }
    SortStep(dict, rms, i18nRoot, i, files, next);
    SortOrderStep(dict, rms, i18nRoot, i, files, next);
    return Ok(next);
  }

  /** One line of `sortDictByFile`: storing its kept message, if any, keeps
      the files in step with Kept. */
  lemma SortStep(dict: Dictionary, rms: seq<Result<Option<Entry>, string>>, i18nRoot: string, i: nat,
                 files: Files, next: Files)
    requires |rms| == |dict| && i < |dict| && rms[i].Ok?
    requires forall p, l, k :: Lookup(files, p, l, k) == Kept(dict, rms, i18nRoot, i, p, l, k)
    requires next == if rms[i].value.Some? then
      Store(files, ComponentPath(i18nRoot, dict[i].0.component), dict[i].0.lang, dict[i].0.key, rms[i].value.value)
      else files
    ensures forall p, l, k :: Lookup(next, p, l, k) == Kept(dict, rms, i18nRoot, i + 1, p, l, k)
  {
    forall p, l, k ensures Lookup(next, p, l, k) == Kept(dict, rms, i18nRoot, i + 1, p, l, k) {
      if rms[i].value.Some? {
        StoreLookup(files, ComponentPath(i18nRoot, dict[i].0.component), dict[i].0.lang, dict[i].0.key,
                    rms[i].value.value, p, l, k);
      }
    }
  }

  /** The first failure among one more result. */
  lemma FirstFailureNext(rms: seq<Result<Option<Entry>, string>>, i: nat)
    requires i < |rms| && FirstFailure(rms, i).None?
    ensures FirstFailure(rms, i + 1) == if rms[i].Err? then Some(i) else None
  {
  }

  lemma {:induction false} FirstFailureStable(rms: seq<Result<Option<Entry>, string>>, upto: nat, upto': nat)
    requires upto <= upto' <= |rms| && FirstFailure(rms, upto).Some?
    ensures FirstFailure(rms, upto') == FirstFailure(rms, upto)
    decreases upto' - upto
  {
    if upto < upto' {
      FirstFailureStable(rms, upto, upto' - 1);
    }
  }

  /** A line that lands at `files[path][lang][key]`, and that no later line
      overrides there, gives the message stored there. */
  lemma {:induction false} LastKeptWins(dict: Dictionary, rms: seq<Result<Option<Entry>, string>>, i18nRoot: string,
                                        i: nat, upto: nat, path: string, lang: string, key: string)
    requires |rms| == |dict| && i < upto <= |dict|
    requires LandsAt(dict, rms, i18nRoot, i, path, lang, key)
    requires forall j :: i < j < upto ==> !LandsAt(dict, rms, i18nRoot, j, path, lang, key)
    ensures Kept(dict, rms, i18nRoot, upto, path, lang, key) == rms[i].value
    decreases upto
  {
    if upto - 1 != i {
      LastKeptWins(dict, rms, i18nRoot, i, upto - 1, path, lang, key);
    }
  }

  /** Only kept lines land in a file: whatever a file holds is the
      non-empty real message of a line with that language and key whose
      component maps to that file. */
  lemma {:induction false} KeptComesFromLine(dict: Dictionary, rms: seq<Result<Option<Entry>, string>>,
                                             i18nRoot: string, upto: nat, path: string, lang: string, key: string)
    requires |rms| == |dict| && upto <= |dict|
    requires Kept(dict, rms, i18nRoot, upto, path, lang, key).Some?
    ensures exists i :: (0 <= i < upto && LandsAt(dict, rms, i18nRoot, i, path, lang, key)
      && rms[i] == Ok(Kept(dict, rms, i18nRoot, upto, path, lang, key)))
    decreases upto
  {
    if !LandsAt(dict, rms, i18nRoot, upto - 1, path, lang, key) {
      KeptComesFromLine(dict, rms, i18nRoot, upto - 1, path, lang, key);
    }
  }

  // ---------------------------------------------------------------------
  // generateFileContent
  // ---------------------------------------------------------------------

  /** The list building of `generateFileContent`: one `{lang, messages}`
      block per language of the file, in enumeration order. */
  method FileBlocks(fileDict: ODict<string, ODict<string, Entry>>) returns (out: seq<LangBlock>)
    ensures |out| == |fileDict|
    ensures forall i :: 0 <= i < |fileDict| ==> out[i] == LangBlock(fileDict[i].0, fileDict[i].1)
  {
    out := [];
    var i := 0;
    while i < |fileDict|
      invariant 0 <= i <= |fileDict|
      invariant |out| == i
      invariant forall j :: 0 <= j < i ==> out[j] == LangBlock(fileDict[j].0, fileDict[j].1)
    {
      var lang, messages := fileDict[i].0, fileDict[i].1;
      out := out + [LangBlock(lang, messages)];
      i := i + 1;
    }
  }

  // ---------------------------------------------------------------------
  // newLinesToSync
  // ---------------------------------------------------------------------

  /** The first of the first `upto` internal lines with this component and
      key. */
  function FirstWith(internal: Dictionary, component: string, key: string, upto: nat): (r: Option<nat>)
    requires upto <= |internal|
    ensures r.Some? ==> (r.value < upto && internal[r.value].0.component == component
      && internal[r.value].0.key == key)
    ensures r.Some? ==> forall j :: 0 <= j < r.value ==>
      !(internal[j].0.component == component && internal[j].0.key == key)
    ensures r.None? ==> forall j :: 0 <= j < upto ==>
      !(internal[j].0.component == component && internal[j].0.key == key)
  {
    if upto == 0 then None
    else if FirstWith(internal, component, key, upto - 1).Some? then FirstWith(internal, component, key, upto - 1)
    else if internal[upto - 1].0.component == component && internal[upto - 1].0.key == key then Some(upto - 1)
    else None
  }

  /** What the output of `newLinesToSync` holds under `g` once the first
      `upto` internal lines are processed: nothing the external dictionary
      has; an internal line's own message; for any other key of a
      configured language, the message of the first internal line with the
      same component and key. */
  function ToSync(internal: Dictionary, external: Dictionary, languages: seq<string>, upto: nat,
                  g: GlobalKey): Option<DictMessage>
    requires upto <= |internal|
  {
    if g in Keys(external) then None
    else if g in Keys(internal[..upto]) then Get(internal, g)
    else if g.lang in languages && FirstWith(internal, g.component, g.key, upto).Some? then
      Some(internal[FirstWith(internal, g.component, g.key, upto).value].1)
    else None
  }

  /** What `out` holds under `g` once the line `g0` with message `m` has
      been copied to every language of `langs` that neither `out` nor the
      external dictionary has. */
  function Derived(out: Dictionary, g0: GlobalKey, m: DictMessage, external: Dictionary,
                   langs: seq<string>, g: GlobalKey): Option<DictMessage>
  {
    if Get(out, g).None? && g !in Keys(external) && g.lang in langs
       && g.component == g0.component && g.key == g0.key then Some(m)
    else Get(out, g)
  }

  /** The keys of line `g0` in the languages of `langs`, in that order,
      leaving out those the external dictionary has. */
  function NewKeys(g0: GlobalKey, external: Dictionary, langs: seq<string>): seq<GlobalKey> {
    if langs == [] then []
    else
      var g := GlobalKey(langs[|langs| - 1], g0.component, g0.key);
      NewKeys(g0, external, langs[..|langs| - 1]) + if g !in Keys(external) then [g] else []
  }

  lemma NewKeysStep(g0: GlobalKey, external: Dictionary, langs: seq<string>, i: nat)
    requires i < |langs|
    ensures var g := GlobalKey(langs[i], g0.component, g0.key);
      NewKeys(g0, external, langs[..i + 1]) == NewKeys(g0, external, langs[..i]) + if g !in Keys(external) then [g] else []
  {
    assert langs[..i + 1][..i] == langs[..i];
  }

  /** The loop over `languages` in `newLinesToSync`: line `g0` copied to
      every language that neither `out` nor the external dictionary has,
      the new keys appended in language order. */
  method DeriveLanguages(out: Dictionary, g0: GlobalKey, m: DictMessage, external: Dictionary,
                         languages: seq<string>)
    returns (out': Dictionary)
    requires Distinct(Keys(out))
    ensures Distinct(Keys(out'))
    ensures Keys(out') == AddKeys(Keys(out), NewKeys(g0, external, languages))
    ensures forall g :: Get(out', g) == Derived(out, g0, m, external, languages, g)
  {
    out' := out;
    DerivedNothing(out, g0, m, external, languages);
    var i := 0;
    while i < |languages|
      invariant 0 <= i <= |languages|
      invariant DerivedUpTo(out', out, g0, m, external, languages[..i])
    {
      var newKey := GlobalKey(languages[i], g0.component, g0.key);
      var next := out';
      if newKey !in Keys(out') && newKey !in Keys(external) {
        next := Put(out', newKey, m);
      }
      DeriveStep(out', out, g0, m, external, languages, i, next);
      out' := next;
      i := i + 1;
    }
    assert languages[..i] == languages;
  }

  /** `cur` is `out` once line `g0` has been copied to the languages of
      `langs`. */
  ghost predicate DerivedUpTo(cur: Dictionary, out: Dictionary, g0: GlobalKey, m: DictMessage,
                              external: Dictionary, langs: seq<string>)
  {
    && Distinct(Keys(cur))
    && Keys(cur) == AddKeys(Keys(out), NewKeys(g0, external, langs))
    && forall g :: Get(cur, g) == Derived(out, g0, m, external, langs, g)
  }

  lemma DerivedNothing(out: Dictionary, g0: GlobalKey, m: DictMessage, external: Dictionary, languages: seq<string>)
    requires Distinct(Keys(out))
    ensures DerivedUpTo(out, out, g0, m, external, languages[..0])
  {
    assert languages[..0] == [];
  }

  /** One language of `DeriveLanguages`. */
  lemma DeriveStep(cur: Dictionary, out: Dictionary, g0: GlobalKey, m: DictMessage, external: Dictionary,
                   languages: seq<string>, i: nat, next: Dictionary)
    requires i < |languages| && DerivedUpTo(cur, out, g0, m, external, languages[..i])
    requires var newKey := GlobalKey(languages[i], g0.component, g0.key);
      next == if newKey !in Keys(cur) && newKey !in Keys(external) then Put(cur, newKey, m) else cur
    ensures DerivedUpTo(next, out, g0, m, external, languages[..i + 1])
  {
    DeriveKeysStep(cur, Keys(out), g0, m, external, languages, i);
    assert languages[..i + 1] == languages[..i] + [languages[i]];
    forall g ensures Get(next, g) == Derived(out, g0, m, external, languages[..i + 1], g) {
      DeriveGetStep(cur, out, g0, m, external, languages, i, g);
    }
  }

  lemma DeriveKeysStep(cur: Dictionary, ks: seq<GlobalKey>, g0: GlobalKey, m: DictMessage, external: Dictionary,
                       languages: seq<string>, i: nat)
    requires i < |languages| && Distinct(Keys(cur)) && Keys(cur) == AddKeys(ks, NewKeys(g0, external, languages[..i]))
    ensures var newKey := GlobalKey(languages[i], g0.component, g0.key);
      var next := if newKey !in Keys(cur) && newKey !in Keys(external) then Put(cur, newKey, m) else cur;
      Distinct(Keys(next)) && Keys(next) == AddKeys(ks, NewKeys(g0, external, languages[..i + 1]))
  {
    var newKey := GlobalKey(languages[i], g0.component, g0.key);
    NewKeysStep(g0, external, languages, i);
    AddKeysWhen(ks, NewKeys(g0, external, languages[..i]), newKey !in Keys(external), newKey);
    PutKeys(cur, newKey, m);
    PutDistinct(cur, newKey, m);
  }

  lemma DeriveGetStep(cur: Dictionary, out: Dictionary, g0: GlobalKey, m: DictMessage, external: Dictionary,
                      languages: seq<string>, i: nat, g: GlobalKey)
    requires i < |languages|
    requires forall g :: Get(cur, g) == Derived(out, g0, m, external, languages[..i], g)
    ensures var newKey := GlobalKey(languages[i], g0.component, g0.key);
      var next := if newKey !in Keys(cur) && newKey !in Keys(external) then Put(cur, newKey, m) else cur;
      Get(next, g) == Derived(out, g0, m, external, languages[..i] + [languages[i]], g)
  {
    var lang := languages[i];
    var newKey := GlobalKey(lang, g0.component, g0.key);
    assert (g.lang in languages[..i] + [lang]) == (g.lang in languages[..i] || g.lang == lang);
    assert Get(cur, g) == Derived(out, g0, m, external, languages[..i], g);
    if newKey !in Keys(cur) && newKey !in Keys(external) {
      PutGet(cur, newKey, m, g);
      assert Get(cur, newKey) == Derived(out, g0, m, external, languages[..i], newKey) == None;
    }
  }

  /** The keys `newLinesToSync` assigns while processing the first `upto`
      internal lines, in assignment order: each line's own key unless the
      external dictionary has it, then its keys in the configured
      languages. */
  function SyncStream(internal: Dictionary, external: Dictionary, languages: seq<string>, upto: nat)
    : seq<GlobalKey>
    requires upto <= |internal|
  {
    if upto == 0 then []
    else
      var key := internal[upto - 1].0;
      SyncStream(internal, external, languages, upto - 1)
      + (if key !in Keys(external) then [key] else []) + NewKeys(key, external, languages)
  }

  lemma SyncStreamStep(internal: Dictionary, external: Dictionary, languages: seq<string>, i: nat,
                       before: seq<GlobalKey>, mid: seq<GlobalKey>, after: seq<GlobalKey>)
    requires i < |internal| && before == AddKeys([], SyncStream(internal, external, languages, i))
    requires var key := internal[i].0;
      mid == if key in Keys(external) || key in before then before else before + [key]
    requires after == AddKeys(mid, NewKeys(internal[i].0, external, languages))
    ensures after == AddKeys([], SyncStream(internal, external, languages, i + 1))
  {
    var key := internal[i].0;
    var s := SyncStream(internal, external, languages, i);
    var own := if key !in Keys(external) then [key] else [];
    AddKeysAppend([], s + own, NewKeys(key, external, languages));
    AddKeysWhen([], s, key !in Keys(external), key);
  }

  /** `newLinesToSync(internal, external, languages)`. */
  method NewLinesToSync(internal: Dictionary, external: Dictionary, languages: seq<string>)
    returns (out: Dictionary)
    requires Distinct(Keys(internal))
    ensures Distinct(Keys(out))
    ensures Keys(out) == AddKeys([], SyncStream(internal, external, languages, |internal|))
    ensures forall g :: Get(out, g) == ToSync(internal, external, languages, |internal|, g)
  {
    out := [];
    SyncedNothing(internal, external, languages);
    var i := 0;
    while i < |internal|
      invariant 0 <= i <= |internal|
      invariant SyncedUpTo(out, internal, external, languages, i)
    {
      out := SyncLine(out, internal, external, languages, i);
      i := i + 1;
    }
  }

  /** The loop body of `newLinesToSync`: internal line `i` pushed unless
      the external dictionary has it, then copied to the configured
      languages. */
  method SyncLine(out: Dictionary, internal: Dictionary, external: Dictionary, languages: seq<string>, i: nat)
    returns (next: Dictionary)
    requires Distinct(Keys(internal)) && i < |internal| && SyncedUpTo(out, internal, external, languages, i)
    ensures SyncedUpTo(next, internal, external, languages, i + 1)
  {
    var key, message := internal[i].0, internal[i].1;
    var mid := out;
    if key !in Keys(external) {
      mid := Put(out, key, message);
    }
    PutDistinct(out, key, message);
    next := DeriveLanguages(mid, key, message, external, languages);
    SyncStep(internal, external, languages, i, out, mid, next);
  }

  /** `out` is what `newLinesToSync` has built from the first `upto`
      internal lines. */
  ghost predicate SyncedUpTo(out: Dictionary, internal: Dictionary, external: Dictionary, languages: seq<string>,
                             upto: nat)
    requires upto <= |internal|
  {
    && Distinct(Keys(out))
    && Keys(out) == AddKeys([], SyncStream(internal, external, languages, upto))
    && forall g :: Get(out, g) == ToSync(internal, external, languages, upto, g)
  }

  lemma SyncedNothing(internal: Dictionary, external: Dictionary, languages: seq<string>)
    ensures SyncedUpTo([], internal, external, languages, 0)
  {
  }

  /** One internal line of `newLinesToSync`. */
  lemma SyncStep(internal: Dictionary, external: Dictionary, languages: seq<string>, i: nat,
                 out: Dictionary, mid: Dictionary, next: Dictionary)
    requires Distinct(Keys(internal)) && i < |internal| && SyncedUpTo(out, internal, external, languages, i)
    requires mid == if internal[i].0 !in Keys(external) then Put(out, internal[i].0, internal[i].1) else out
    requires Distinct(Keys(next)) && Keys(next) == AddKeys(Keys(mid), NewKeys(internal[i].0, external, languages))
    requires forall g :: Get(next, g) == Derived(mid, internal[i].0, internal[i].1, external, languages, g)
    ensures SyncedUpTo(next, internal, external, languages, i + 1)
  {
    var key, message := internal[i].0, internal[i].1;
    PutKeys(out, key, message);
    SyncStreamStep(internal, external, languages, i, Keys(out), Keys(mid), Keys(next));
    forall g ensures Get(next, g) == ToSync(internal, external, languages, i + 1, g) {
      SyncGetStep(internal, external, languages, i, out, mid, next, g);
    }
  }

  lemma SyncGetStep(internal: Dictionary, external: Dictionary, languages: seq<string>, i: nat,
                    out: Dictionary, mid: Dictionary, next: Dictionary, g: GlobalKey)
    requires Distinct(Keys(internal)) && i < |internal|
    requires forall g :: Get(out, g) == ToSync(internal, external, languages, i, g)
    requires mid == if internal[i].0 !in Keys(external) then Put(out, internal[i].0, internal[i].1) else out
    requires Get(next, g) == Derived(mid, internal[i].0, internal[i].1, external, languages, g)
    ensures Get(next, g) == ToSync(internal, external, languages, i + 1, g)
  {
    var key, message := internal[i].0, internal[i].1;
    FindFirst(internal, key, i);
    assert Keys(internal[..i + 1]) == Keys(internal[..i]) + [key];
    if key !in Keys(external) {
      PutGet(out, key, message, g);
    }
    if g !in Keys(external) && g !in Keys(internal[..i + 1]) {
      assert g != key;
    }
  }

  /** No line to push is already in the external dictionary, and every
      internal line it misses is pushed with its own message. */
  lemma ToSyncOwnLines(internal: Dictionary, external: Dictionary, languages: seq<string>, g: GlobalKey)
    requires Distinct(Keys(internal))
    ensures g in Keys(external) ==> ToSync(internal, external, languages, |internal|, g).None?
    ensures g !in Keys(external) && g in Keys(internal) ==>
      ToSync(internal, external, languages, |internal|, g) == Get(internal, g)
  {
    assert internal[..|internal|] == internal;
  }

  /** Every internal line in every configured language ends up either in
      the external dictionary or among the lines to push, and a derived line
      carries the message of the first internal line it derives from. */
  lemma ToSyncCovers(internal: Dictionary, external: Dictionary, languages: seq<string>, i: nat, lang: string)
    requires i < |internal| && lang in languages
    ensures var g := GlobalKey(lang, internal[i].0.component, internal[i].0.key);
      g in Keys(external) || ToSync(internal, external, languages, |internal|, g).Some?
    ensures var g := GlobalKey(lang, internal[i].0.component, internal[i].0.key);
      var f := FirstWith(internal, g.component, g.key, |internal|);
      g !in Keys(external) && g !in Keys(internal) ==>
        f.Some? && f.value <= i && ToSync(internal, external, languages, |internal|, g) == Some(internal[f.value].1)
  {
    var g := GlobalKey(lang, internal[i].0.component, internal[i].0.key);
    assert internal[..|internal|] == internal;
    FirstWithAt(internal, g.component, g.key, |internal|, i);
  }

  /** A line with that component and key among the first `upto` is found,
      at its position or before. */
  lemma {:induction false} FirstWithAt(internal: Dictionary, component: string, key: string, upto: nat, i: nat)
    requires i < upto <= |internal|
    requires internal[i].0.component == component && internal[i].0.key == key
    ensures FirstWith(internal, component, key, upto).Some?
    ensures FirstWith(internal, component, key, upto).value <= i
    decreases upto
  {
    if i < upto - 1 {
      FirstWithAt(internal, component, key, upto - 1, i);
    }
  }
}
