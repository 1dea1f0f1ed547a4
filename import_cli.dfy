/** bin/import.js: the rows read back from the spreadsheet, one sheet per
    locale, turned into translation blocks per component
    (`getGoogleContent`), and the order in which `dumpToFiles` writes a
    component's blocks. */
module ImportCli {
  import opened Wrappers
  import opened JsText
  import opened OrderedDict
  import opened Messages
  import Google
  import ExtractCli

  // ---------------------------------------------------------------------
  // Sheet rows
  // ---------------------------------------------------------------------

  /** `row[name]`: None both for a column the sheet lacks and for a cell
      the row does not reach. */
  function Field(row: Google.RowObject, name: string): Option<string> {
    match Get(row, name)
    case Some(v) => v
    case None => None
  }

  /** The TypeError of `row.Component.match(...)` on a row whose component
      is undefined. */
  const NoComponent := ExtractCli.ReadingError("match")

  /** `row.Translation && row.Key && row.Component.match(/\.vue$/)`,
      evaluated left to right: whether the row is kept, or the TypeError. */
  function Validity(row: Google.RowObject): Result<bool, string> {
    if !TruthyString(Field(row, "Translation")) || !TruthyString(Field(row, "Key")) then Ok(false)
    else
      match Field(row, "Component")
      case None => Err(NoComponent)
      case Some(c) => Ok(EndsWith(c, ".vue"))
  }

  predicate Kept(row: Google.RowObject) {
    Validity(row) == Ok(true)
  }

  /** A kept row of component `c` for key `k`. */
  predicate Writes(row: Google.RowObject, c: string, k: string) {
    Kept(row) && Field(row, "Component") == Some(c) && Field(row, "Key") == Some(k)
  }

  /** A kept row of component `c`. */
  predicate WritesComponent(row: Google.RowObject, c: string) {
    Kept(row) && Field(row, "Component") == Some(c)
  }

  /** Some kept row of `rows` has component `c` and key `k`. */
  predicate MentionsKey(rows: seq<Google.RowObject>, c: string, k: string) {
    exists i :: 0 <= i < |rows| && Writes(rows[i], c, k)
  }

  /** Some kept row of `rows` has component `c`. */
  predicate MentionsComponent(rows: seq<Google.RowObject>, c: string) {
    exists i :: 0 <= i < |rows| && WritesComponent(rows[i], c)
  }

  /** Some sheet of `data` has a kept row of component `c`. */
  predicate SheetsMention(data: ODict<string, seq<Google.RowObject>>, c: string) {
    exists j :: 0 <= j < |data| && MentionsComponent(data[j].1, c)
  }

  /** Some row of `rows` raises the TypeError. */
  predicate SheetFails(rows: seq<Google.RowObject>) {
    exists i :: 0 <= i < |rows| && Validity(rows[i]).Err?
  }

  /** Some sheet of `data` has a row that raises the TypeError. */
  predicate SheetsFail(data: ODict<string, seq<Google.RowObject>>) {
    exists j :: 0 <= j < |data| && SheetFails(data[j].1)
  }

  /** The translation of the last kept row of `rows` for component `c`,
      key `k` and range `r`. */
  function LastTranslation(rows: seq<Google.RowObject>, c: string, k: string, r: string): Option<string>
    decreases |rows|
  {
    if rows == [] then None
    else
      var row := rows[|rows| - 1];
      if Writes(row, c, k) && Field(row, "Range") == Some(r) then Field(row, "Translation")
      else LastTranslation(rows[..|rows| - 1], c, k, r)
  }

  // ---------------------------------------------------------------------
  // allTrans: component -> locale -> key -> range -> translation
  // ---------------------------------------------------------------------

  type RangeMap = ODict<string, string>
  type KeyMap = ODict<string, RangeMap>
  type LocaleMap = ODict<string, KeyMap>
  type Grouped = ODict<string, LocaleMap>

  function LocalesOf(all: Grouped, c: string): LocaleMap {
    Get(all, c).GetOr([])
  }

  function KeysOf(all: Grouped, c: string, l: string): KeyMap {
    Get(LocalesOf(all, c), l).GetOr([])
  }

  function RangesOf(all: Grouped, c: string, l: string, k: string): RangeMap {
    Get(KeysOf(all, c, l), k).GetOr([])
  }

  /** `deepSet(allTrans, [c, l, k, range], t)`: every missing object along
      the path is created empty and the translation is stored under the
      range. An undefined range ends the walk at it, so nothing is stored
      and `allTrans[c][l][k]` is only ensured to exist. */
  function SetRow(all: Grouped, c: string, l: string, k: string, range: Option<string>, t: string): Grouped {
    var locales := LocalesOf(all, c);
    var keys := Get(locales, l).GetOr([]);
    var ranges := Get(keys, k).GetOr([]);
    var ranges' := if range.Some? then Put(ranges, range.value, t) else ranges;
    Put(all, c, Put(locales, l, Put(keys, k, ranges')))
  }

  /** The write a kept row of sheet `locale` makes. */
  function Store(all: Grouped, locale: string, row: Google.RowObject): Grouped
    requires Kept(row)
  {
    SetRow(all, Field(row, "Component").value, locale, Field(row, "Key").value,
           Field(row, "Range"), Field(row, "Translation").value)
  }

  /** The rows of sheet `locale` written into `all` one after the other; the
      first TypeError ends everything. */
  function GroupSheet(all: Grouped, locale: string, rows: seq<Google.RowObject>): Result<Grouped, string>
    decreases |rows|
  {
    if rows == [] then Ok(all)
    else
      match GroupSheet(all, locale, rows[..|rows| - 1])
      case Err(e) => Err(e)
      case Ok(g) =>
        var row := rows[|rows| - 1];
        match Validity(row)
        case Err(e) => Err(e)
        case Ok(keep) => Ok(if keep then Store(g, locale, row) else g)
  }

  /** Every sheet of the spreadsheet, in order, into an empty `allTrans`. */
  function GroupData(data: ODict<string, seq<Google.RowObject>>): Result<Grouped, string>
    decreases |data|
  {
    if data == [] then Ok([])
    else
      match GroupData(data[..|data| - 1])
      case Err(e) => Err(e)
      case Ok(g) => GroupSheet(g, data[|data| - 1].0, data[|data| - 1].1)
  }

  /** The rows of the sheet named `l`; none when there is no such sheet. */
  function SheetOf(data: ODict<string, seq<Google.RowObject>>, l: string): seq<Google.RowObject> {
    Get(data, l).GetOr([])
  }

  lemma {:induction false} GroupSheetStops(all: Grouped, locale: string, rows: seq<Google.RowObject>, n: nat)
    requires n <= |rows| && GroupSheet(all, locale, rows[..n]).Err?
    ensures GroupSheet(all, locale, rows) == GroupSheet(all, locale, rows[..n])
    decreases |rows|
  {
    if n < |rows| {
      var p := rows[..|rows| - 1];
      assert p[..n] == rows[..n];
      GroupSheetStops(all, locale, p, n);
    } else {
      assert rows[..n] == rows;
    }
  }

  lemma {:induction false} GroupDataStops(data: ODict<string, seq<Google.RowObject>>, n: nat)
    requires n <= |data| && GroupData(data[..n]).Err?
    ensures GroupData(data) == GroupData(data[..n])
    decreases |data|
  {
    if n < |data| {
      var p := data[..|data| - 1];
      assert p[..n] == data[..n];
      GroupDataStops(p, n);
    } else {
      assert data[..n] == data;
    }
  }

  /** The loop over one sheet's rows in `getGoogleContent`. */
  method GroupRows(all: Grouped, locale: string, rows: seq<Google.RowObject>) returns (r: Result<Grouped, string>)
    ensures r == GroupSheet(all, locale, rows)
  {
    var g := all;
    var i := 0;
    while i < |rows|
      invariant 0 <= i <= |rows|
      invariant GroupSheet(all, locale, rows[..i]) == Ok(g)
    {
      assert rows[..i + 1][..i] == rows[..i];
      var row := rows[i];
      var valid := Validity(row);
      if valid.Err? {
        GroupSheetStops(all, locale, rows, i + 1);
        return Err(valid.error);
      }
      if valid.value {
        g := Store(g, locale, row);
      }
      i := i + 1;
    }
    assert rows[..i] == rows;
    return Ok(g);
  }

  /** The loop over `Object.keys(data)` in `getGoogleContent`. */
  method GroupAll(data: ODict<string, seq<Google.RowObject>>) returns (r: Result<Grouped, string>)
    requires Distinct(Keys(data))
    ensures r == GroupData(data)
  {
    var all: Grouped := [];
    var i := 0;
    while i < |data|
      invariant 0 <= i <= |data|
      invariant GroupData(data[..i]) == Ok(all)
    {
      assert data[..i + 1][..i] == data[..i];
      var locale := data[i].0;
      GetDistinct(data, i);
      var trans := Get(data, locale).value;
      var next := GroupRows(all, locale, trans);
      if next.Err? {
        GroupDataStops(data, i + 1);
        return next;
      }
      all := next.value;
      i := i + 1;
    }
    assert data[..i] == data;
    return Ok(all);
  }

  // ---------------------------------------------------------------------
  // What the rows write
  // ---------------------------------------------------------------------

  /** One deepSet call: it stores the translation under its own path, when
      that path has a range, and creates the objects along that path. Every
      other entry reads as before. */
  lemma SetRowContent(all: Grouped, c0: string, l0: string, k0: string, range: Option<string>, t: string,
                      c: string, l: string, k: string, r: string)
    ensures var all' := SetRow(all, c0, l0, k0, range, t);
      && Get(RangesOf(all', c, l, k), r) ==
           (if c == c0 && l == l0 && k == k0 && range == Some(r) then Some(t) else Get(RangesOf(all, c, l, k), r))
      && Get(KeysOf(all', c, l), k).Some? == (Get(KeysOf(all, c, l), k).Some? || (c == c0 && l == l0 && k == k0))
      && Get(LocalesOf(all', c), l).Some? == (Get(LocalesOf(all, c), l).Some? || (c == c0 && l == l0))
      && Get(all', c).Some? == (Get(all, c).Some? || c == c0)
  {
    var locales := LocalesOf(all, c0);
    var keys := Get(locales, l0).GetOr([]);
    var ranges := Get(keys, k0).GetOr([]);
    var ranges' := if range.Some? then Put(ranges, range.value, t) else ranges;
    PutGet(all, c0, Put(locales, l0, Put(keys, k0, ranges')), c);
    PutGet(locales, l0, Put(keys, k0, ranges'), l);
    PutGet(keys, k0, ranges', k);
    if range.Some? {
      PutGet(ranges, range.value, t, r);
    }
  }

  lemma MentionsStep(rows: seq<Google.RowObject>, c: string, k: string)
    requires rows != []
    ensures var p := rows[..|rows| - 1];
      && MentionsKey(rows, c, k) == (MentionsKey(p, c, k) || Writes(rows[|rows| - 1], c, k))
      && MentionsComponent(rows, c) == (MentionsComponent(p, c) || WritesComponent(rows[|rows| - 1], c))
  {
    var p := rows[..|rows| - 1];
    assert forall i :: 0 <= i < |p| ==> p[i] == rows[i];
  }

  lemma SheetFailsStep(rows: seq<Google.RowObject>)
    requires rows != []
    ensures SheetFails(rows) == (SheetFails(rows[..|rows| - 1]) || Validity(rows[|rows| - 1]).Err?)
  {
    var p := rows[..|rows| - 1];
    assert forall i :: 0 <= i < |p| ==> p[i] == rows[i];
  }

  lemma SheetsStep(data: ODict<string, seq<Google.RowObject>>, c: string)
    requires data != []
    ensures var p := data[..|data| - 1];
      && SheetsMention(data, c) == (SheetsMention(p, c) || MentionsComponent(data[|data| - 1].1, c))
      && SheetsFail(data) == (SheetsFail(p) || SheetFails(data[|data| - 1].1))
  {
    var p := data[..|data| - 1];
    assert forall j :: 0 <= j < |p| ==> p[j] == data[j];
  }

  /** One sheet: under its own locale, a range holds the translation of the
      last kept row naming it, and a key, a locale or a component exists
      once some kept row names it. Other locales read as before. */
  lemma {:induction false} GroupSheetContent(all: Grouped, locale: string, rows: seq<Google.RowObject>,
                                             c: string, l: string, k: string, r: string)
    requires GroupSheet(all, locale, rows).Ok?
    ensures var g := GroupSheet(all, locale, rows).value;
      && Get(RangesOf(g, c, l, k), r) ==
           (if l == locale && LastTranslation(rows, c, k, r).Some? then LastTranslation(rows, c, k, r)
            else Get(RangesOf(all, c, l, k), r))
      && Get(KeysOf(g, c, l), k).Some? == (Get(KeysOf(all, c, l), k).Some? || (l == locale && MentionsKey(rows, c, k)))
      && Get(LocalesOf(g, c), l).Some? == (Get(LocalesOf(all, c), l).Some? || (l == locale && MentionsComponent(rows, c)))
      && Get(g, c).Some? == (Get(all, c).Some? || MentionsComponent(rows, c))
    decreases |rows|
  {
    if rows != [] {
      var p := rows[..|rows| - 1];
      var row := rows[|rows| - 1];
      GroupSheetContent(all, locale, p, c, l, k, r);
      MentionsStep(rows, c, k);
      var g := GroupSheet(all, locale, p).value;
      if Kept(row) {
        SetRowContent(g, Field(row, "Component").value, locale, Field(row, "Key").value,
                      Field(row, "Range"), Field(row, "Translation").value, c, l, k, r);
      }
    }
  }

  /** A locale does not occur before its own sheet. */
  lemma SheetOfAppend(data: ODict<string, seq<Google.RowObject>>, l: string)
    requires data != [] && Distinct(Keys(data))
    ensures var p := data[..|data| - 1];
      && Distinct(Keys(p))
      && data[|data| - 1].0 !in Keys(p)
      && SheetOf(data, l) == if l == data[|data| - 1].0 then data[|data| - 1].1 else SheetOf(p, l)
  {
    var n := |data| - 1;
    var p := data[..n];
    assert Keys(data) == Keys(p) + [data[n].0];
    assert data == p + [data[n]];
    PutNew(p, data[n].0, data[n].1);
    PutGet(p, data[n].0, data[n].1, l);
  }

  lemma LastTranslationNone(c: string, k: string, r: string)
    ensures LastTranslation([], c, k, r) == None
  {
  }

  /** The whole spreadsheet: a range of `allTrans[c][l][k]` holds the
      translation of the last kept row naming it in sheet `l`; a key, a
      locale and a component are present exactly when some kept row names
      them. */
  lemma {:induction false} GroupDataContent(data: ODict<string, seq<Google.RowObject>>,
                                            c: string, l: string, k: string, r: string)
    requires Distinct(Keys(data)) && GroupData(data).Ok?
    ensures var g := GroupData(data).value;
      && Get(RangesOf(g, c, l, k), r) == LastTranslation(SheetOf(data, l), c, k, r)
      && Get(KeysOf(g, c, l), k).Some? == MentionsKey(SheetOf(data, l), c, k)
      && Get(LocalesOf(g, c), l).Some? == MentionsComponent(SheetOf(data, l), c)
      && Get(g, c).Some? == SheetsMention(data, c)
    decreases |data|
  {
    if data != [] {
      var n := |data| - 1;
      var p := data[..n];
      SheetOfAppend(data, l);
      GroupDataContent(p, c, l, k, r);
      var g := GroupData(p).value;
      GroupSheetContent(g, data[n].0, data[n].1, c, l, k, r);
      if l == data[n].0 {
        assert SheetOf(p, l) == [];
      }
      SheetsStep(data, c);
    }
  }

  /** A row whose translation and key are set but whose component is
      undefined aborts the import; nothing else does. */
  lemma {:induction false} GroupSheetError(all: Grouped, locale: string, rows: seq<Google.RowObject>)
    ensures GroupSheet(all, locale, rows).Err? <==> SheetFails(rows)
    ensures GroupSheet(all, locale, rows).Err? ==> GroupSheet(all, locale, rows).error == NoComponent
    decreases |rows|
  {
    if rows != [] {
      var p := rows[..|rows| - 1];
      GroupSheetError(all, locale, p);
      SheetFailsStep(rows);
    }
  }

  lemma {:induction false} GroupDataError(data: ODict<string, seq<Google.RowObject>>)
    ensures GroupData(data).Err? <==> SheetsFail(data)
    ensures GroupData(data).Err? ==> GroupData(data).error == NoComponent
    decreases |data|
  {
    if data != [] {
      var n := |data| - 1;
      var p := data[..n];
      GroupDataError(p);
      SheetsStep(data, "");
      if GroupData(p).Ok? {
        GroupSheetError(GroupData(p).value, data[n].0, data[n].1);
      }
    }
  }

  // ---------------------------------------------------------------------
  // allTrans is made of JavaScript objects
  // ---------------------------------------------------------------------

  predicate KeyMapWellFormed(keys: KeyMap) {
    Distinct(Keys(keys)) && forall i :: 0 <= i < |keys| ==> Distinct(Keys(keys[i].1))
  }

  predicate LocaleMapWellFormed(locales: LocaleMap) {
    Distinct(Keys(locales)) && forall i :: 0 <= i < |locales| ==> KeyMapWellFormed(locales[i].1)
  }

  predicate GroupedWellFormed(all: Grouped) {
    Distinct(Keys(all)) && forall i :: 0 <= i < |all| ==> LocaleMapWellFormed(all[i].1)
  }

  lemma KeyMapPut(keys: KeyMap, k: string, ranges: RangeMap)
    requires KeyMapWellFormed(keys) && Distinct(Keys(ranges))
    ensures KeyMapWellFormed(Put(keys, k, ranges))
  {
    PutDistinct(keys, k, ranges);
    PutPositions(keys, k, ranges);
  }

  lemma LocaleMapPut(locales: LocaleMap, l: string, keys: KeyMap)
    requires LocaleMapWellFormed(locales) && KeyMapWellFormed(keys)
    ensures LocaleMapWellFormed(Put(locales, l, keys))
  {
    PutDistinct(locales, l, keys);
    PutPositions(locales, l, keys);
  }

  lemma GroupedPut(all: Grouped, c: string, locales: LocaleMap)
    requires GroupedWellFormed(all) && LocaleMapWellFormed(locales)
    ensures GroupedWellFormed(Put(all, c, locales))
  {
    PutDistinct(all, c, locales);
    PutPositions(all, c, locales);
  }

  lemma SetRowWellFormed(all: Grouped, c: string, l: string, k: string, range: Option<string>, t: string)
    requires GroupedWellFormed(all)
    ensures GroupedWellFormed(SetRow(all, c, l, k, range, t))
  {
    var locales := LocalesOf(all, c);
    if c in Keys(all) {
      GetPosition(all, c);
    }
    var keys := Get(locales, l).GetOr([]);
    if l in Keys(locales) {
      GetPosition(locales, l);
    }
    var ranges := Get(keys, k).GetOr([]);
    if k in Keys(keys) {
      GetPosition(keys, k);
    }
    var ranges' := if range.Some? then Put(ranges, range.value, t) else ranges;
    if range.Some? {
      PutDistinct(ranges, range.value, t);
    }
    KeyMapPut(keys, k, ranges');
    LocaleMapPut(locales, l, Put(keys, k, ranges'));
    GroupedPut(all, c, Put(locales, l, Put(keys, k, ranges')));
  }

  lemma {:induction false} GroupSheetWellFormed(all: Grouped, locale: string, rows: seq<Google.RowObject>)
    requires GroupedWellFormed(all) && GroupSheet(all, locale, rows).Ok?
    ensures GroupedWellFormed(GroupSheet(all, locale, rows).value)
    decreases |rows|
  {
    if rows != [] {
      var p := rows[..|rows| - 1];
      var row := rows[|rows| - 1];
      GroupSheetWellFormed(all, locale, p);
      if Kept(row) {
        SetRowWellFormed(GroupSheet(all, locale, p).value, Field(row, "Component").value, locale,
                         Field(row, "Key").value, Field(row, "Range"), Field(row, "Translation").value);
      }
    }
  }

  lemma {:induction false} GroupDataWellFormed(data: ODict<string, seq<Google.RowObject>>)
    requires GroupData(data).Ok?
    ensures GroupedWellFormed(GroupData(data).value)
    decreases |data|
  {
    if data != [] {
      var n := |data| - 1;
      GroupDataWellFormed(data[..n]);
      GroupSheetWellFormed(GroupData(data[..n]).value, data[n].0, data[n].1);
    }
  }

  // ---------------------------------------------------------------------
  // From allTrans to blocks
  // ---------------------------------------------------------------------

  /** A key's message once collapsed: the text stored under the range `''`
      when there is one, the range map otherwise. */
  function CollapseEntry(ranges: RangeMap): (e: Entry)
    ensures e.Static? <==> "" in Keys(ranges)
  {
    match Get(ranges, "")
    case Some(t) => Static(t)
    case None => Ranges(ranges)
  }

  function Collapsed(keys: KeyMap): (m: ODict<string, Entry>)
    ensures |m| == |keys|
    ensures forall i :: 0 <= i < |keys| ==> m[i] == (keys[i].0, CollapseEntry(keys[i].1))
  {
    seq(|keys|, i requires 0 <= i < |keys| => (keys[i].0, CollapseEntry(keys[i].1)))
  }

  /** The same object before any message is collapsed: every value is
      still a range map. */
  function AsRanges(keys: KeyMap): (m: ODict<string, Entry>)
    ensures |m| == |keys|
    ensures forall i :: 0 <= i < |keys| ==> m[i] == (keys[i].0, Ranges(keys[i].1))
  {
    seq(|keys|, i requires 0 <= i < |keys| => (keys[i].0, Ranges(keys[i].1)))
  }

  /** The collapsing loop over `Object.keys(messages)`: a message whose
      range `''` is defined is replaced, in place, by that text. */
  method CollapseMessages(keys: KeyMap) returns (messages: ODict<string, Entry>)
    requires Distinct(Keys(keys))
    ensures messages == Collapsed(keys)
  {
    messages := AsRanges(keys);
    var ks := Keys(messages);
    var i := 0;
    while i < |ks|
      invariant 0 <= i <= |ks| == |keys|
      invariant |messages| == |keys|
      invariant forall j :: 0 <= j < |keys| ==>
        messages[j] == (keys[j].0, if j < i then CollapseEntry(keys[j].1) else Ranges(keys[j].1))
    {
      var key := ks[i];
      assert forall j :: 0 <= j < i ==> Keys(keys)[j] != Keys(keys)[i];
      FindFirst(messages, key, i);
      var message := Get(messages, key).value;
      var whole := Get(message.ranges, "");
      if whole.Some? {
        messages := Put(messages, key, Static(whole.value));
      }
      i := i + 1;
    }
  }

  /** `out[component]` before sorting: one `{locale, messages}` block per
      locale in the order of `allTrans[component]`. */
  function BlocksOf(locales: LocaleMap): (bs: seq<LocaleBlock>)
    ensures |bs| == |locales|
    ensures forall j :: 0 <= j < |locales| ==> bs[j] == LocaleBlock(locales[j].0, Collapsed(locales[j].1))
  {
    seq(|locales|, j requires 0 <= j < |locales| => LocaleBlock(locales[j].0, Collapsed(locales[j].1)))
  }

  function Output(all: Grouped): (out: ODict<string, seq<LocaleBlock>>)
    ensures |out| == |all|
    ensures forall i :: 0 <= i < |all| ==> out[i] == (all[i].0, BlocksOf(all[i].1))
  {
    seq(|all|, i requires 0 <= i < |all| => (all[i].0, BlocksOf(all[i].1)))
  }

  /** The loop over `Object.keys(allTrans[component])`. */
  method ComponentBlocks(locales: LocaleMap) returns (blocks: seq<LocaleBlock>)
    requires LocaleMapWellFormed(locales)
    ensures blocks == BlocksOf(locales)
  {
    blocks := [];
    var ls := Keys(locales);
    var j := 0;
    while j < |ls|
      invariant 0 <= j <= |ls| == |locales|
      invariant blocks == BlocksOf(locales[..j])
    {
      var locale := ls[j];
      GetDistinct(locales, j);
      var messages := CollapseMessages(Get(locales, locale).value);
      blocks := blocks + [LocaleBlock(locale, messages)];
      j := j + 1;
    }
    assert locales[..j] == locales;
  }

  /** The loop over `Object.keys(allTrans)`: `out[component] = []`, then
      the blocks pushed onto that same array. */
  method BuildOutput(all: Grouped) returns (out: ODict<string, seq<LocaleBlock>>)
    requires GroupedWellFormed(all)
    ensures out == Output(all)
  {
    out := [];
    var cs := Keys(all);
    var i := 0;
    while i < |cs|
      invariant 0 <= i <= |cs| == |all|
      invariant out == Output(all[..i])
    {
      var component := cs[i];
      assert Keys(out) == Keys(all[..i]);
      assert forall j :: 0 <= j < i ==> Keys(all)[j] != Keys(all)[i];
      PutNew(out, component, []);
      out := Put(out, component, []);
      GetDistinct(all, i);
      var blocks := ComponentBlocks(Get(all, component).value);
      PutGet(out, component, blocks, component);
      FindFirst(out, component, i);
      out := Put(out, component, blocks);
      i := i + 1;
    }
    assert all[..i] == all;
  }

  /** `getGoogleContent` once the spreadsheet has been read: the blocks of
      every component, or the TypeError of a row without component. */
  method GoogleContent(data: ODict<string, seq<Google.RowObject>>)
    returns (r: Result<ODict<string, seq<LocaleBlock>>, string>)
    requires Distinct(Keys(data))
    ensures r.Err? <==> GroupData(data).Err?
    ensures r.Err? ==> r.error == NoComponent
    ensures r.Ok? ==> r.value == Output(GroupData(data).value)
  {
    var all := GroupAll(data);
    GroupDataError(data);
    if all.Err? {
      return Err(all.error);
    }
    GroupDataWellFormed(data);
    var out := BuildOutput(all.value);
    return Ok(out);
  }

  // ---------------------------------------------------------------------
  // What the import yields
  // ---------------------------------------------------------------------

  lemma CollapsedGet(keys: KeyMap, k: string)
    ensures Get(Collapsed(keys), k) == match Get(keys, k) case Some(rs) => Some(CollapseEntry(rs)) case None => None
  {
    assert Keys(Collapsed(keys)) == Keys(keys);
    FindSameKeys(Collapsed(keys), keys, k, 0);
  }

  lemma OutputGet(all: Grouped, c: string)
    ensures Get(Output(all), c) == match Get(all, c) case Some(ls) => Some(BlocksOf(ls)) case None => None
  {
    assert Keys(Output(all)) == Keys(all);
    FindSameKeys(Output(all), all, c, 0);
  }

  /** The component `c` gets blocks exactly when some sheet has a kept row
      for it; it gets one block per locale whose sheet has such a row, each
      locale once, and each block holds the collapsed messages of that
      locale. */
  lemma ImportedBlocks(data: ODict<string, seq<Google.RowObject>>, c: string)
    requires Distinct(Keys(data)) && GroupData(data).Ok?
    ensures var g := GroupData(data).value;
      var out := Output(g);
      && (Get(out, c).Some? <==> exists j :: 0 <= j < |data| && MentionsComponent(data[j].1, c))
      && (Get(out, c).Some? ==>
            var bs := Get(out, c).value;
            && (forall i, j :: 0 <= i < j < |bs| ==> bs[i].locale != bs[j].locale)
            && (forall l :: (exists j :: 0 <= j < |bs| && bs[j].locale == l) <==> MentionsComponent(SheetOf(data, l), c))
            && (forall j :: 0 <= j < |bs| ==> bs[j].messages == Collapsed(KeysOf(g, c, bs[j].locale))))
  {
    var g := GroupData(data).value;
    GroupDataWellFormed(data);
    GroupDataContent(data, c, "", "", "");
    OutputGet(g, c);
    if Get(g, c).Some? {
      var locales := LocalesOf(g, c);
      GetPosition(g, c);
      BlocksOfSpec(locales);
      forall l ensures l in Keys(locales) <==> MentionsComponent(SheetOf(data, l), c) {
        GroupDataContent(data, c, l, "", "");
      }
    }
  }

  /** The blocks of one component: one per locale, each locale once. */
  lemma BlocksOfSpec(locales: LocaleMap)
    requires Distinct(Keys(locales))
    ensures var bs := BlocksOf(locales);
      && (forall i, j :: 0 <= i < j < |bs| ==> bs[i].locale != bs[j].locale)
      && (forall l :: (exists j :: 0 <= j < |bs| && bs[j].locale == l) <==> l in Keys(locales))
      && (forall j :: 0 <= j < |bs| ==> bs[j].messages == Collapsed(Get(locales, bs[j].locale).GetOr([])))
  {
    var bs := BlocksOf(locales);
    forall l | l in Keys(locales) ensures exists j :: 0 <= j < |bs| && bs[j].locale == l {
      var j :| 0 <= j < |locales| && locales[j].0 == l;
      assert bs[j].locale == l;
    }
    forall j | 0 <= j < |bs| ensures bs[j].messages == Collapsed(Get(locales, bs[j].locale).GetOr([])) {
      GetDistinct(locales, j);
    }
  }

  /** A key of a locale's block exists exactly when some kept row of that
      locale's sheet names it. Its message is the text of the last row for
      the range `''` when there is one; otherwise it is a range map in which
      each range holds the translation of the last row naming it. */
  lemma ImportedMessage(data: ODict<string, seq<Google.RowObject>>, c: string, l: string, k: string)
    requires Distinct(Keys(data)) && GroupData(data).Ok?
    ensures var rows := SheetOf(data, l);
      var m := Get(Collapsed(KeysOf(GroupData(data).value, c, l)), k);
      && (m.Some? <==> MentionsKey(rows, c, k))
      && (m.Some? && LastTranslation(rows, c, k, "").Some? ==> m.value == Static(LastTranslation(rows, c, k, "").value))
      && (m.Some? && LastTranslation(rows, c, k, "").None? ==>
            m.value.Ranges? && forall r :: Get(m.value.ranges, r) == LastTranslation(rows, c, k, r))
  {
    var g := GroupData(data).value;
    var keys := KeysOf(g, c, l);
    CollapsedGet(keys, k);
    GroupDataContent(data, c, l, k, "");
    forall r ensures Get(RangesOf(g, c, l, k), r) == LastTranslation(SheetOf(data, l), c, k, r) {
      GroupDataContent(data, c, l, k, r);
    }
  }

  // ---------------------------------------------------------------------
  // dumpToFiles: blocks sorted by locale
  // ---------------------------------------------------------------------

  /** JavaScript's `a < b` on strings: the first differing character
      decides, and a proper prefix comes first. */
  predicate LexLess(a: string, b: string)
    decreases |a|
  {
    if a == [] then b != []
    else b != [] && (a[0] < b[0] || (a[0] == b[0] && LexLess(a[1..], b[1..])))
  }

  /** The comparator handed to `trans.sort`. */
  function Compare(a: LocaleBlock, b: LocaleBlock): int {
    if LexLess(a.locale, b.locale) then -1
    else if a.locale == b.locale then 0
    else 1
  }

  lemma {:induction false} LexIrreflexive(a: string)
    ensures !LexLess(a, a)
    decreases |a|
  {
    if a != [] {
      LexIrreflexive(a[1..]);
    }
  }

  /** Exactly one of `a < b`, `a === b`, `b < a` holds. */
  lemma {:induction false} LexTrichotomy(a: string, b: string)
    ensures a == b || LexLess(a, b) || LexLess(b, a)
    ensures !(LexLess(a, b) && LexLess(b, a))
    decreases |a|
  {
    if a != [] && b != [] {
      LexTrichotomy(a[1..], b[1..]);
      if a[0] == b[0] && a[1..] == b[1..] {
        assert a == [a[0]] + a[1..] && b == [b[0]] + b[1..];
      }
    }
  }

  lemma {:induction false} LexTransitive(a: string, b: string, c: string)
    requires LexLess(a, b) && LexLess(b, c)
    ensures LexLess(a, c)
    decreases |a|
  {
    if a != [] && a[0] == b[0] && b[0] == c[0] {
      LexTransitive(a[1..], b[1..], c[1..]);
    }
  }

  /** A proper prefix sorts first: `'en' < 'en-US'`. */
  lemma {:induction false} LexPrefix(a: string, b: string)
    requires a < b
    ensures LexLess(a, b)
    decreases |a|
  {
    if a != [] {
      assert a[1..] < b[1..] by {
        assert b[1..][..|a| - 1] == a[1..];
      }
      LexPrefix(a[1..], b[1..]);
    }
  }

  /** The comparator is a consistent total preorder on blocks: it answers 0
      exactly for equal locales, swapping the arguments flips its sign, and
      it is transitive. */
  lemma CompareSpec(a: LocaleBlock, b: LocaleBlock, c: LocaleBlock)
    ensures Compare(a, b) == 0 <==> a.locale == b.locale
    ensures Compare(a, b) < 0 <==> LexLess(a.locale, b.locale)
    ensures Compare(b, a) == -Compare(a, b)
    ensures Compare(a, b) <= 0 && Compare(b, c) <= 0 ==> Compare(a, c) <= 0
  {
    LexIrreflexive(a.locale);
    LexTrichotomy(a.locale, b.locale);
    LexTrichotomy(b.locale, c.locale);
    LexTrichotomy(a.locale, c.locale);
    if LexLess(a.locale, b.locale) && LexLess(b.locale, c.locale) {
      LexTransitive(a.locale, b.locale, c.locale);
    }
  }

  predicate SortedByLocale(s: seq<LocaleBlock>) {
    forall i, j :: 0 <= i < j < |s| ==> Compare(s[i], s[j]) <= 0
  }

  /** `b` placed after the blocks that sort before it or equal to it, as a
      stable sort does. */
  method InsertBlock(sorted: seq<LocaleBlock>, b: LocaleBlock) returns (s: seq<LocaleBlock>)
    requires SortedByLocale(sorted)
    ensures SortedByLocale(s)
    ensures multiset(s) == multiset(sorted) + multiset{b}
  {
    var j := |sorted|;
    while j > 0 && Compare(sorted[j - 1], b) > 0
      invariant 0 <= j <= |sorted|
      invariant forall m :: j <= m < |sorted| ==> Compare(sorted[m], b) > 0
    {
      j := j - 1;
    }
    s := sorted[..j] + [b] + sorted[j..];
    InsertSorted(sorted, b, j);
    assert sorted == sorted[..j] + sorted[j..];
  }

  lemma InsertSorted(sorted: seq<LocaleBlock>, b: LocaleBlock, j: nat)
    requires SortedByLocale(sorted) && j <= |sorted|
    requires j > 0 ==> Compare(sorted[j - 1], b) <= 0
    requires forall m :: j <= m < |sorted| ==> Compare(sorted[m], b) > 0
    ensures SortedByLocale(sorted[..j] + [b] + sorted[j..])
  {
    var s := sorted[..j] + [b] + sorted[j..];
    assert forall x :: 0 <= x < |s| ==> s[x] == if x < j then sorted[x] else if x == j then b else sorted[x - 1];
    forall x, y | 0 <= x < y < |s| ensures Compare(s[x], s[y]) <= 0 {
      if y < j {
        assert Compare(sorted[x], sorted[y]) <= 0;
      } else if y == j {
        if x < j - 1 {
          CompareSpec(sorted[x], sorted[j - 1], b);
        }
      } else if x < j {
        assert Compare(sorted[x], sorted[y - 1]) <= 0;
      } else if x == j {
        CompareSpec(sorted[y - 1], b, b);
      } else {
        assert Compare(sorted[x - 1], sorted[y - 1]) <= 0;
      }
    }
  }

  /** `trans.sort(comparator)`: the blocks in ascending locale order. */
  method SortBlocks(trans: seq<LocaleBlock>) returns (sorted: seq<LocaleBlock>)
    ensures SortedByLocale(sorted)
    ensures multiset(sorted) == multiset(trans)
  {
    sorted := [];
    var i := 0;
    while i < |trans|
      invariant 0 <= i <= |trans|
      invariant SortedByLocale(sorted)
      invariant multiset(sorted) == multiset(trans[..i])
    {
      assert trans[..i + 1] == trans[..i] + [trans[i]];
      sorted := InsertBlock(sorted, trans[i]);
      i := i + 1;
    }
    assert trans[..i] == trans;
  }

  /** Two sorted arrangements of the same blocks start with the same
      block when the locales are distinct. */
  lemma SameHead(s: seq<LocaleBlock>, t: seq<LocaleBlock>)
    requires SortedByLocale(s) && SortedByLocale(t) && multiset(s) == multiset(t) && s != []
    requires forall i, j :: 0 <= i < j < |s| ==> s[i].locale != s[j].locale
    ensures t != [] && s[0] == t[0]
  {
    assert s[0] in multiset(s);
    assert s[0] in t;
    var m :| 0 <= m < |t| && t[m] == s[0];
    assert t[0] in multiset(t);
    assert t[0] in s;
    var m' :| 0 <= m' < |s| && s[m'] == t[0];
    CompareSpec(s[0], t[0], s[0]);
    if m != 0 {
      assert Compare(t[0], t[m]) <= 0;
    }
    assert m' == 0;
  }

  lemma TailMultiset<T>(s: seq<T>, t: seq<T>)
    requires s != [] && t != [] && s[0] == t[0] && multiset(s) == multiset(t)
    ensures multiset(s[1..]) == multiset(t[1..])
  {
    assert s == [s[0]] + s[1..] && t == [t[0]] + t[1..];
    assert multiset(s) == multiset{s[0]} + multiset(s[1..]);
    assert multiset(t) == multiset{t[0]} + multiset(t[1..]);
    assert forall x :: multiset(s[1..])[x] == multiset(s)[x] - multiset{s[0]}[x] == multiset(t[1..])[x];
  }

  lemma SortedTail(s: seq<LocaleBlock>)
    requires SortedByLocale(s) && s != []
    ensures SortedByLocale(s[1..])
    ensures (forall i, j :: 0 <= i < j < |s| ==> s[i].locale != s[j].locale) ==>
      forall i, j :: 0 <= i < j < |s[1..]| ==> s[1..][i].locale != s[1..][j].locale
  {
    assert forall i :: 0 <= i < |s[1..]| ==> s[1..][i] == s[i + 1];
  }

  /** With distinct locales, as every component's blocks have, the sorted
      order is unique: any sorted rearrangement of the blocks is this one. */
  lemma {:induction false} SortedUnique(s: seq<LocaleBlock>, t: seq<LocaleBlock>)
    requires SortedByLocale(s) && SortedByLocale(t) && multiset(s) == multiset(t)
    requires forall i, j :: 0 <= i < j < |s| ==> s[i].locale != s[j].locale
    ensures s == t
    decreases |s|
  {
    if s == [] {
      assert |t| == |multiset(t)| == 0;
    } else {
      SameHead(s, t);
      TailMultiset(s, t);
      SortedTail(s);
      SortedTail(t);
      SortedUnique(s[1..], t[1..]);
    }
  }

  // ---------------------------------------------------------------------
  // Key order
  // ---------------------------------------------------------------------

  /** A key assigned to an object goes last unless it is already there. */
  function AppendNew(ks: seq<string>, k: string): seq<string> {
    if k in ks then ks else ks + [k]
  }

  /** The keys of component `c` after `ks`, in the order kept rows of
      `rows` first name them. */
  function KeyOrder(ks: seq<string>, rows: seq<Google.RowObject>, c: string): seq<string>
    decreases |rows|
  {
    if rows == [] then ks
    else
      var row := rows[|rows| - 1];
      var before := KeyOrder(ks, rows[..|rows| - 1], c);
      if WritesComponent(row, c) then AppendNew(before, Field(row, "Key").value) else before
  }

  lemma SetRowKeys(all: Grouped, c0: string, l0: string, k0: string, range: Option<string>, t: string,
                   c: string, l: string)
    ensures Keys(KeysOf(SetRow(all, c0, l0, k0, range, t), c, l)) ==
      if c == c0 && l == l0 then AppendNew(Keys(KeysOf(all, c, l)), k0) else Keys(KeysOf(all, c, l))
  {
    var locales := LocalesOf(all, c0);
    var keys := Get(locales, l0).GetOr([]);
    var ranges := Get(keys, k0).GetOr([]);
    var ranges' := if range.Some? then Put(ranges, range.value, t) else ranges;
    PutGet(all, c0, Put(locales, l0, Put(keys, k0, ranges')), c);
    PutGet(locales, l0, Put(keys, k0, ranges'), l);
    PutKeys(keys, k0, ranges');
  }

  /** The keys of `allTrans[c][locale]` after one sheet: the earlier ones,
      then each new key in the order the sheet first names it. */
  lemma {:induction false} GroupSheetKeys(all: Grouped, locale: string, rows: seq<Google.RowObject>, c: string, l: string)
    requires GroupSheet(all, locale, rows).Ok?
    ensures Keys(KeysOf(GroupSheet(all, locale, rows).value, c, l)) ==
      if l == locale then KeyOrder(Keys(KeysOf(all, c, l)), rows, c) else Keys(KeysOf(all, c, l))
    decreases |rows|
  {
    if rows != [] {
      var p := rows[..|rows| - 1];
      var row := rows[|rows| - 1];
      GroupSheetKeys(all, locale, p, c, l);
      if Kept(row) {
        SetRowKeys(GroupSheet(all, locale, p).value, Field(row, "Component").value, locale,
                   Field(row, "Key").value, Field(row, "Range"), Field(row, "Translation").value, c, l);
      }
    }
  }

  /** The messages of a block are in the order the keys first occur among
      the kept rows of that component in the locale's sheet. */
  lemma {:induction false} GroupDataKeys(data: ODict<string, seq<Google.RowObject>>, c: string, l: string)
    requires Distinct(Keys(data)) && GroupData(data).Ok?
    ensures Keys(Collapsed(KeysOf(GroupData(data).value, c, l))) == KeyOrder([], SheetOf(data, l), c)
    decreases |data|
  {
    if data != [] {
      var n := |data| - 1;
      var p := data[..n];
      SheetOfAppend(data, l);
      GroupDataKeys(p, c, l);
      GroupSheetKeys(GroupData(p).value, data[n].0, data[n].1, c, l);
      if l == data[n].0 {
        GroupDataContent(p, c, l, "", "");
        assert SheetOf(p, l) == [];
        assert KeysOf(GroupData(p).value, c, l) == [];
      }
    }
    assert Keys(Collapsed(KeysOf(GroupData(data).value, c, l))) == Keys(KeysOf(GroupData(data).value, c, l));
  }
}
