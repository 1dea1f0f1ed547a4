/** lib/extract.js: the part of the global dictionary that one source file
    contributes. Every message of every translation block becomes an entry
    keyed by `[lang, component, key]`; its text is stored as the `original`
    side of a cell pair. */
module Extract {
  import opened Wrappers
  import opened JsText
  import opened OrderedDict
  import opened Messages

  /** The blocks `getFileContent` hands over: the parser's output when it
      yields something that passes validation, no block at all otherwise.
      The parser and the schema validator are not modelled; `data` and
      `valid` are their verdicts. */
  function FileContent(data: Option<seq<LangBlock>>, valid: bool): seq<LangBlock> {
    if data.Some? && valid then data.value else []
  }

  /** `/\.<ext>$/i` for an ASCII extension. */
  predicate EndsWithIgnoringCase(s: string, ext: string) {
    EndsWith(Lower(s), ext)
  }

  /** A path `extractFile` knows how to read: `/\.js$/i` or `/\.vue$/i`. */
  predicate Parsable(filePath: string) {
    EndsWithIgnoringCase(filePath, ".js") || EndsWithIgnoringCase(filePath, ".vue")
  }

  /** What iterating over `undefined` throws. */
  const NotIterable := "content is not iterable"

  /** JavaScript objects have distinct keys: the message map of every block
      and every range map in it. */
  predicate WellFormed(content: seq<LangBlock>) {
    (forall b :: 0 <= b < |content| ==> Distinct(Keys(content[b].messages)))
    && (forall b, j ::
          (0 <= b < |content| && 0 <= j < |content[b].messages| && content[b].messages[j].1.Ranges?) ==>
          Distinct(Keys(content[b].messages[j].1.ranges)))
  }

  /** A range map with each text wrapped as `{original}`. */
  function Wrap(ranges: seq<(string, string)>): (cells: seq<(string, Cell)>)
    ensures |cells| == |ranges|
    ensures forall i :: 0 <= i < |ranges| ==> cells[i] == (ranges[i].0, Cell(Some(ranges[i].1), None))
  {
    seq(|ranges|, i requires 0 <= i < |ranges| => (ranges[i].0, Cell(Some(ranges[i].1), None)))
  }

  /** The dictionary value of one message. */
  function Convert(m: Entry): DictMessage {
    match m
    case Static(t) => StaticCells(Cell(Some(t), None))
    case Ranges(rs) => RangeCells(Wrap(rs))
  }

  function Lift(m: Option<Entry>): Option<DictMessage> {
    match m
    case Some(e) => Some(Convert(e))
    case None => None
  }

  /** The message `key` has in the last of the first `upto` blocks of
      language `lang` that defines it. */
  function Source(content: seq<LangBlock>, lang: string, key: string, upto: nat): Option<Entry>
    requires upto <= |content|
  {
    if upto == 0 then None
    else if content[upto - 1].lang == lang && key in Keys(content[upto - 1].messages) then
      Get(content[upto - 1].messages, key)
    else Source(content, lang, key, upto - 1)
  }

  /** What the dictionary of a file holds under `g`. */
  function Expected(content: seq<LangBlock>, component: string, g: GlobalKey): Option<DictMessage> {
    if g.component == component then Lift(Source(content, g.lang, g.key, |content|)) else None
  }

  /** What `out` holds under `g` once the messages of `block` whose keys are
      in `keys` have been written into `before`. */
  function WrittenAt(before: ODict<GlobalKey, DictMessage>, block: LangBlock, component: string,
                     keys: seq<string>, g: GlobalKey): Option<DictMessage>
  {
    if g.component == component && g.lang == block.lang && g.key in keys then
      Lift(Get(block.messages, g.key))
    else Get(before, g)
  }

  ghost predicate Written(out: ODict<GlobalKey, DictMessage>, before: ODict<GlobalKey, DictMessage>,
                    block: LangBlock, component: string, keys: seq<string>)
  {
    forall g :: Get(out, g) == WrittenAt(before, block, component, keys, g)
  }

  /** The global keys of a block's messages, in message order. */
  function BlockKeys(block: LangBlock, component: string): (ks: seq<GlobalKey>)
    ensures |ks| == |block.messages|
    ensures forall j :: 0 <= j < |ks| ==> ks[j] == GlobalKey(block.lang, component, block.messages[j].0)
  {
    seq(|block.messages|, j requires 0 <= j < |block.messages| => GlobalKey(block.lang, component, block.messages[j].0))
  }

  lemma BlockKeysStep(block: LangBlock, component: string, j: nat)
    requires j < |block.messages|
    ensures BlockKeys(block, component)[..j + 1] ==
      BlockKeys(block, component)[..j] + [GlobalKey(block.lang, component, block.messages[j].0)]
  {
  }

  /** The key order of a file's dictionary once its first `upto` blocks
      are written: block after block, a key met again keeps the place it
      got first. */
  function FileKeys(content: seq<LangBlock>, component: string, upto: nat): seq<GlobalKey>
    requires upto <= |content|
  {
    if upto == 0 then []
    else AddKeys(FileKeys(content, component, upto - 1), BlockKeys(content[upto - 1], component))
  }

  /** The file's keys are the keys of the file's blocks, once each. */
  lemma {:induction false} FileKeysSpec(content: seq<LangBlock>, component: string, upto: nat, g: GlobalKey)
    requires upto <= |content|
    ensures Distinct(FileKeys(content, component, upto))
    ensures g in FileKeys(content, component, upto) <==>
      g.component == component && exists b :: 0 <= b < upto && content[b].lang == g.lang && g.key in Keys(content[b].messages)
    decreases upto
  {
    if upto > 0 {
      var block := content[upto - 1];
      FileKeysSpec(content, component, upto - 1, g);
      AddKeysSpec(FileKeys(content, component, upto - 1), BlockKeys(block, component));
      if g in BlockKeys(block, component) {
        var j :| 0 <= j < |block.messages| && BlockKeys(block, component)[j] == g;
        assert Keys(block.messages)[j] == g.key;
      }
      if g.component == component && block.lang == g.lang && g.key in Keys(block.messages) {
        var j :| 0 <= j < |block.messages| && Keys(block.messages)[j] == g.key;
        assert BlockKeys(block, component)[j] == g;
      }
    }
  }

  /** `Object.entries(message)` wrapped range by range into `obj`. */
  method WrapRanges(ranges: seq<(string, string)>) returns (obj: seq<(string, Cell)>)
    requires Distinct(Keys(ranges))
    ensures obj == Wrap(ranges)
  {
    obj := [];
    var i := 0;
    while i < |ranges|
      invariant 0 <= i <= |ranges|
      invariant obj == Wrap(ranges[..i])
    {
      var range, original := ranges[i].0, ranges[i].1;
      assert range !in Keys(Wrap(ranges[..i]));
      PutNew(obj, range, Cell(Some(original), None));
      obj := Put(obj, range, Cell(Some(original), None));
      i := i + 1;
      assert obj == Wrap(ranges[..i]);
    }
    assert ranges[..i] == ranges;
  }

  /** The inner loop of `extractFile`: one block's messages written into
      `out`. */
  method ExtractBlock(out: ODict<GlobalKey, DictMessage>, block: LangBlock, component: string,
                      ghost content: seq<LangBlock>, ghost b: nat)
    returns (out': ODict<GlobalKey, DictMessage>)
    requires WellFormed(content) && b < |content| && content[b] == block
    requires Distinct(Keys(out))
    ensures Distinct(Keys(out'))
    ensures Keys(out') == AddKeys(Keys(out), BlockKeys(block, component))
    ensures Written(out', out, block, component, Keys(block.messages))
  {
    var msgs := block.messages;
    assert Distinct(Keys(msgs));
    out' := out;
    var j := 0;
    while j < |msgs|
      invariant 0 <= j <= |msgs|
      invariant Distinct(Keys(out'))
      invariant Keys(out') == AddKeys(Keys(out), BlockKeys(block, component)[..j])
      invariant Written(out', out, block, component, Keys(msgs[..j]))
    {
      var key, message := msgs[j].0, msgs[j].1;
      FindFirst(msgs, key, j);
      var value: DictMessage;
      if message.Static? {
        value := StaticCells(Cell(Some(message.text), None));
      } else {
        assert content[b].messages[j].1.Ranges?;
        var obj := WrapRanges(message.ranges);
        value := RangeCells(obj);
      }
      var gk := GlobalKey(block.lang, component, key);
      PutDistinct(out', gk, value);
      BlockKeysStep(block, component, j);
      PutAddKeys(out', Keys(out), BlockKeys(block, component)[..j], gk, value);
      assert Keys(msgs[..j + 1]) == Keys(msgs[..j]) + [key];
      forall g ensures Get(Put(out', gk, value), g) == WrittenAt(out, block, component, Keys(msgs[..j + 1]), g) {
        PutGet(out', gk, value, g);
      }
      out' := Put(out', gk, value);
      j := j + 1;
    }
    assert msgs[..j] == msgs;
    assert BlockKeys(block, component)[..j] == BlockKeys(block, component);
  }

  /** `extractFile(root, filePath)`, with `component` standing for
      `path.relative(root, filePath)`. A file that is neither `.js` nor
      `.vue` leaves `content` undefined, and the loop over it throws. */
  method ExtractFile(component: string, filePath: string, data: Option<seq<LangBlock>>, valid: bool)
    returns (r: Result<ODict<GlobalKey, DictMessage>, string>)
    requires data.Some? ==> WellFormed(data.value)
    ensures !Parsable(filePath) ==> r == Err(NotIterable)
    ensures Parsable(filePath) ==> r.Ok?
    ensures Parsable(filePath) && !(data.Some? && valid) ==> r == Ok([])
    ensures r.Ok? ==> Distinct(Keys(r.value))
    ensures r.Ok? ==> Keys(r.value) == FileKeys(FileContent(data, valid), component, |FileContent(data, valid)|)
    ensures r.Ok? ==> forall g :: Get(r.value, g) == Expected(FileContent(data, valid), component, g)
  {
    if !Parsable(filePath) {
      return Err(NotIterable);
    }
    var content := FileContent(data, valid);
    var out: ODict<GlobalKey, DictMessage> := [];
    var b := 0;
    while b < |content|
      invariant 0 <= b <= |content|
      invariant content == [] ==> out == []
      invariant Distinct(Keys(out))
      invariant Keys(out) == FileKeys(content, component, b)
      invariant forall g ::
        Get(out, g) == (if g.component == component then Lift(Source(content, g.lang, g.key, b)) else None)
    {
      out := ExtractBlock(out, content[b], component, content, b);
      assert Keys(out) == FileKeys(content, component, b + 1);
      b := b + 1;
    }
    return Ok(out);
  }

  /** The message found for `key` in language `lang` is the one of the last
      block of that language that defines `key`; there is none exactly when
      no block of that language defines it. */
  lemma {:induction false} SourceSpec(content: seq<LangBlock>, lang: string, key: string, upto: nat)
    requires upto <= |content|
    ensures Source(content, lang, key, upto).None? <==>
      forall b :: 0 <= b < upto ==> !(content[b].lang == lang && key in Keys(content[b].messages))
    ensures Source(content, lang, key, upto).Some? ==>
      exists b :: 0 <= b < upto && content[b].lang == lang &&
        Source(content, lang, key, upto) == Get(content[b].messages, key) &&
        forall b' :: b < b' < upto ==> !(content[b'].lang == lang && key in Keys(content[b'].messages))
    decreases upto
  {
    if upto > 0 {
      SourceSpec(content, lang, key, upto - 1);
    }
  }

  /** Every message of every block produces its global key, and a block
      that no later block of the same language overrides gives its value: a
      string message becomes `{original: message}`, a range map keeps
      exactly its ranges, in order, each text wrapped as `{original}`. */
  lemma LastBlockWins(content: seq<LangBlock>, component: string, b: nat, key: string)
    requires b < |content| && key in Keys(content[b].messages)
    requires forall b' :: b < b' < |content| ==>
      !(content[b'].lang == content[b].lang && key in Keys(content[b'].messages))
    ensures var m := Get(content[b].messages, key).value;
      var e := Expected(content, component, GlobalKey(content[b].lang, component, key));
      && e.Some?
      && (m.Static? ==> e.value == StaticCells(Cell(Some(m.text), None)))
      && (m.Ranges? ==>
            && e.value.RangeCells?
            && Keys(e.value.ranges) == Keys(m.ranges)
            && forall i :: 0 <= i < |m.ranges| ==> e.value.ranges[i].1 == Cell(Some(m.ranges[i].1), None))
  {
    LastBlockFrom(content, content[b].lang, b, key, |content|);
  }

  lemma {:induction false} LastBlockFrom(content: seq<LangBlock>, lang: string, b: nat, key: string, upto: nat)
    requires b < upto <= |content| && content[b].lang == lang && key in Keys(content[b].messages)
    requires forall b' :: b < b' < upto ==> !(content[b'].lang == lang && key in Keys(content[b'].messages))
    ensures Source(content, lang, key, upto) == Get(content[b].messages, key)
    decreases upto
  {
    if upto - 1 != b {
      LastBlockFrom(content, lang, b, key, upto - 1);
    }
  }
}
