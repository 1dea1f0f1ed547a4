/** lib/utils.js: `deepSet` (a write at the end of a path of nested
    objects), `vlangPath` (the `.vlg` file that holds a component's
    translations) and `mergeTranslations` (merging several lists of
    translation blocks). */
module Utils {
  import opened Wrappers
  import opened JsText
  import opened OrderedDict
  import opened Messages

  // ---------------------------------------------------------------------
  // Nested objects and deepSet
  // ---------------------------------------------------------------------

  /** A JavaScript value seen as a tree of plain objects: a non-object value
      at the leaves, objects (with their keys in insertion order) inside. */
  datatype Tree<V> = Leaf(value: V) | Node(children: ODict<string, Tree<V>>)

  /** `obj[p0][p1]...`: the value reached by following `path`; None when a
      key is missing or a non-object is in the way. */
  function Follow<V>(t: Tree<V>, path: seq<string>): Option<Tree<V>>
    decreases |path|
  {
    if path == [] then Some(t)
    else
      match t
      case Leaf(_) => None
      case Node(cs) =>
        match Get(cs, path[0])
        case None => None
        case Some(c) => Follow(c, path[1..])
  }

  /** `deepSet(obj, path, value)`: walks down `path`, creating an empty
      object for every missing intermediate key and reusing the existing
      ones, and stores `value` under the last key. An empty path changes
      nothing. Writing a property of a non-object throws a TypeError in
      strict mode: None. */
  function DeepSet<V>(t: Tree<V>, path: seq<string>, v: V): Option<Tree<V>>
    decreases |path|
  {
    if path == [] then Some(t)
    else
      match t
      case Leaf(_) => None
      case Node(cs) =>
        if |path| == 1 then Some(Node(Put(cs, path[0], Leaf(v))))
        else
          var child := Get(cs, path[0]).GetOr(Node([]));
          match DeepSet(child, path[1..], v)
          case None => None
          case Some(c) => Some(Node(Put(cs, path[0], c)))
  }

  /** Two paths that differ at some position they both have. */
  predicate Diverge(p: seq<string>, q: seq<string>) {
    exists i :: 0 <= i < |p| && i < |q| && p[i] != q[i]
  }

  /** Every intermediate that exists along `path` (the root included) is an
      object, so no write lands on a primitive. */
  predicate Writable<V>(t: Tree<V>, path: seq<string>) {
    forall k :: 0 <= k < |path| ==> Follow(t, path[..k]).None? || Follow(t, path[..k]).value.Node?
  }

  lemma FollowStep<V>(cs: ODict<string, Tree<V>>, path: seq<string>, k: nat)
    requires 1 <= k <= |path|
    ensures Follow(Node(cs), path[..k]) ==
      match Get(cs, path[0])
      case None => None
      case Some(c) => Follow(c, path[1..][..k - 1])
  {
    assert path[..k][0] == path[0];
    assert path[..k][1..] == path[1..][..k - 1];
  }

  lemma {:induction false} FollowEmptyNode<V>(path: seq<string>)
    requires path != []
    ensures Follow<V>(Node([]), path) == None
  {
  }

  /** deepSet succeeds exactly when no primitive value stands along the
      path. */
  lemma {:induction false} DeepSetDefined<V>(t: Tree<V>, path: seq<string>, v: V)
    ensures DeepSet(t, path, v).Some? <==> Writable(t, path)
    decreases |path|
  {
    if path == [] {
    } else {
      assert path[..0] == [];
      match t
      case Leaf(_) =>
        assert Follow(t, path[..0]) == Some(t);
      case Node(cs) =>
        if |path| == 1 {
        } else {
          var child := Get(cs, path[0]).GetOr(Node([]));
          DeepSetDefined(child, path[1..], v);
          if Get(cs, path[0]).Some? {
            forall k | 1 <= k < |path|
              ensures Follow(t, path[..k]) == Follow(child, path[1..][..k - 1])
            {
              FollowStep(cs, path, k);
            }
            if Writable(child, path[1..]) {
              forall k | 0 <= k < |path|
                ensures Follow(t, path[..k]).None? || Follow(t, path[..k]).value.Node?
              {
                if k > 0 {
                  assert Follow(t, path[..k]) == Follow(child, path[1..][..k - 1]);
                }
              }
            } else {
              var k :| 0 <= k < |path[1..]| && !(Follow(child, path[1..][..k]).None? || Follow(child, path[1..][..k]).value.Node?);
              assert Follow(t, path[..k + 1]) == Follow(child, path[1..][..k]);
            }
          } else {
            forall k | 1 <= k < |path|
              ensures Follow(t, path[..k]) == None
            {
              FollowStep(cs, path, k);
            }
            forall k | 0 <= k < |path[1..]|
              ensures Follow(child, path[1..][..k]).None? || Follow(child, path[1..][..k]).value.Node?
            {
              if k > 0 {
                FollowEmptyNode<V>(path[1..][..k]);
              }
            }
          }
        }
    }
  }

  /** After deepSet with a non-empty path, following the path from the root
      reaches the stored value. */
  lemma {:induction false} DeepSetReaches<V>(t: Tree<V>, path: seq<string>, v: V)
    requires path != [] && DeepSet(t, path, v).Some?
    ensures Follow(DeepSet(t, path, v).value, path) == Some(Leaf(v))
    decreases |path|
  {
    var cs := t.children;
    if |path| == 1 {
      PutGet(cs, path[0], Leaf(v), path[0]);
    } else {
      var child := Get(cs, path[0]).GetOr(Node([]));
      DeepSetReaches(child, path[1..], v);
      PutGet(cs, path[0], DeepSet(child, path[1..], v).value, path[0]);
    }
  }

  /** deepSet leaves every path that branches off its own path as it was:
      sibling entries survive. */
  lemma {:induction false} DeepSetElsewhere<V>(t: Tree<V>, path: seq<string>, v: V, q: seq<string>)
    requires DeepSet(t, path, v).Some? && Diverge(path, q)
    ensures Follow(DeepSet(t, path, v).value, q) == Follow(t, q)
    decreases |path|
  {
    var cs := t.children;
    var t' := DeepSet(t, path, v).value;
    var i :| 0 <= i < |path| && i < |q| && path[i] != q[i];
    if |path| == 1 {
      PutGet(cs, path[0], Leaf(v), q[0]);
    } else {
      var child := Get(cs, path[0]).GetOr(Node([]));
      var c' := DeepSet(child, path[1..], v).value;
      PutGet(cs, path[0], c', q[0]);
      if q[0] == path[0] {
        assert path[1..][i - 1] != q[1..][i - 1];
        DeepSetElsewhere(child, path[1..], v, q[1..]);
        if Get(cs, path[0]).None? {
          FollowEmptyNode<V>(q[1..]);
        }
      }
    }
  }

  /** Along its own path, deepSet reuses every object that already exists:
      such an object keeps all its other keys and values and its key order,
      and gains the next key of the path at the end if it lacked it. */
  lemma {:induction false} DeepSetAlong<V>(t: Tree<V>, path: seq<string>, v: V, k: nat, cs: ODict<string, Tree<V>>)
    requires DeepSet(t, path, v).Some? && k < |path|
    requires Follow(t, path[..k]) == Some(Node(cs))
    ensures Follow(DeepSet(t, path, v).value, path[..k]).Some?
    ensures Follow(DeepSet(t, path, v).value, path[..k]).value.Node?
    ensures var cs' := Follow(DeepSet(t, path, v).value, path[..k]).value.children;
      && (forall key :: key != path[k] ==> Get(cs', key) == Get(cs, key))
      && Keys(cs') == (if path[k] in Keys(cs) then Keys(cs) else Keys(cs) + [path[k]])
    decreases |path|
  {
    var tcs := t.children;
    var t' := DeepSet(t, path, v).value;
    if k == 0 {
      assert path[..0] == [];
      if |path| == 1 {
        forall key | key != path[0] ensures Get(t'.children, key) == Get(cs, key) {
          PutGet(tcs, path[0], Leaf(v), key);
        }
        PutKeys(tcs, path[0], Leaf(v));
      } else {
        var child := Get(tcs, path[0]).GetOr(Node([]));
        var c' := DeepSet(child, path[1..], v).value;
        forall key | key != path[0] ensures Get(t'.children, key) == Get(cs, key) {
          PutGet(tcs, path[0], c', key);
        }
        PutKeys(tcs, path[0], c');
      }
    } else {
      FollowStep(tcs, path, k);
      var child := Get(tcs, path[0]).value;
      assert path[1..][..k - 1] == path[..k][1..];
      if |path| == 1 {
      } else {
        var c' := DeepSet(child, path[1..], v).value;
        DeepSetAlong(child, path[1..], v, k - 1, cs);
        PutGet(tcs, path[0], c', path[0]);
        FollowStep(t'.children, path, k);
      }
    }
  }

  /** A tree of uniform depth: objects down to `depth`, values below. */
  predicate Shaped<V>(t: Tree<V>, depth: nat)
    decreases depth
  {
    if depth == 0 then t.Leaf?
    else t.Node? && forall i :: 0 <= i < |t.children| ==> Shaped(t.children[i].1, depth - 1)
  }

  lemma ShapedGet<V>(cs: ODict<string, Tree<V>>, depth: nat, key: string)
    requires Shaped(Node(cs), depth + 1)
    ensures Get(cs, key).Some? ==> Shaped(Get(cs, key).value, depth)
  {
  }

  lemma ShapedPut<V>(cs: ODict<string, Tree<V>>, depth: nat, key: string, c: Tree<V>)
    requires Shaped(Node(cs), depth + 1) && Shaped(c, depth)
    ensures Shaped(Node(Put(cs, key, c)), depth + 1)
  {
  }

  /** Writing a full-length path into a uniform tree always succeeds and
      keeps the tree uniform. */
  lemma {:induction false} DeepSetShaped<V>(t: Tree<V>, path: seq<string>, v: V)
    requires |path| >= 1 && Shaped(t, |path|)
    ensures DeepSet(t, path, v).Some? && Shaped(DeepSet(t, path, v).value, |path|)
    decreases |path|
  {
    var cs := t.children;
    if |path| == 1 {
      ShapedPut(cs, 0, path[0], Leaf(v));
    } else {
      ShapedGet(cs, |path| - 1, path[0]);
      var child := Get(cs, path[0]).GetOr(Node([]));
      DeepSetShaped(child, path[1..], v);
      ShapedPut(cs, |path| - 1, path[0], DeepSet(child, path[1..], v).value);
    }
  }

  // ---------------------------------------------------------------------
  // vlangPath
  // ---------------------------------------------------------------------

  /** `componentPath.replace(/\.(vue|js)$/, '') + '.vlg'`: one trailing
      `.vue` or `.js` (matched case-sensitively) gives way to `.vlg`. */
  function VlangPath(componentPath: string): string {
    var naked :=
      if EndsWith(componentPath, ".vue") then componentPath[..|componentPath| - 4]
      else if EndsWith(componentPath, ".js") then componentPath[..|componentPath| - 3]
      else componentPath;
    naked + ".vlg"
  }

  /** The three cases of vlangPath, each stated for the file name it
      applies to. */
  lemma VlangPathCases(base: string, other: string)
    requires !EndsWith(other, ".vue") && !EndsWith(other, ".js")
    ensures VlangPath(base + ".vue") == base + ".vlg"
    ensures VlangPath(base + ".js") == base + ".vlg"
    ensures VlangPath(other) == other + ".vlg"
  {
    var v := base + ".vue";
    assert v[|v| - 4..] == ".vue" && v[..|v| - 4] == base;
    var j := base + ".js";
    assert j[|j| - 3..] == ".js" && j[..|j| - 3] == base;
    assert !EndsWith(j, ".vue") by {
      assert j[|j| - 1] == 's';
    }
  }

  /** Only one extension is removed, and an upper-case one is kept. */
  lemma VlangPathExamples()
    ensures VlangPath("App.vue.vue") == "App.vue.vlg"
    ensures VlangPath("App.VUE") == "App.VUE.vlg"
    ensures VlangPath("x.ts") == "x.ts.vlg"
  {
    VlangPathCases("App.vue", "App.VUE");
    assert "App.vue" + ".vue" == "App.vue.vue";
    VlangPathCases("App.vue", "x.ts");
  }

  // ---------------------------------------------------------------------
  // mergeTranslations
  // ---------------------------------------------------------------------

  /** All blocks of all lists, in order. */
  function Flatten(stack: seq<seq<Block>>): seq<Block>
    decreases |stack|
  {
    if stack == [] then [] else Flatten(stack[..|stack| - 1]) + stack[|stack| - 1]
  }

  /** The locales of `bs`, each once, in order of first appearance. */
  function FirstLocales(bs: seq<Block>): seq<string>
    decreases |bs|
  {
    if bs == [] then []
    else
      var prev := FirstLocales(bs[..|bs| - 1]);
      if bs[|bs| - 1].locale in prev then prev else prev + [bs[|bs| - 1].locale]
  }

  /** The messages of every block of locale `l`, merged in order: a later
      block's value wins on a shared key. */
  function Collect(bs: seq<Block>, l: string): map<string, Entry>
    decreases |bs|
  {
    if bs == [] then map[]
    else
      var prev := Collect(bs[..|bs| - 1], l);
      if bs[|bs| - 1].locale == l then prev + bs[|bs| - 1].messages else prev
  }

  /** FirstLocales lists each locale of `bs` exactly once. */
  lemma {:induction false} FirstLocalesSpec(bs: seq<Block>)
    ensures Distinct(FirstLocales(bs))
    ensures forall l :: l in FirstLocales(bs) <==> l in ListLocales(bs)
    ensures bs != [] ==> FirstLocales(bs)[0] == bs[0].locale
    decreases |bs|
  {
    if bs != [] {
      var init := bs[..|bs| - 1];
      FirstLocalesSpec(init);
      assert ListLocales(bs) == ListLocales(init) + [bs[|bs| - 1].locale];
      if init == [] {
        assert FirstLocales(init) == [];
      } else {
        assert init[0] == bs[0];
      }
    }
  }

  /** Block `b` is one of locale `l` that defines `key`. */
  predicate Defines(b: Block, l: string, key: string) {
    b.locale == l && key in b.messages
  }

  /** `bs[i]` is the last block of locale `l` defining `key`. */
  predicate LastDefining(bs: seq<Block>, l: string, key: string, i: int) {
    0 <= i < |bs| && Defines(bs[i], l, key) && forall j :: i < j < |bs| ==> !Defines(bs[j], l, key)
  }

  /** What Collect holds for one key: present exactly when some block of the
      locale defines it, with the value of the last such block. */
  lemma {:induction false} CollectSpec(bs: seq<Block>, l: string, key: string)
    ensures key in Collect(bs, l) <==> exists i :: 0 <= i < |bs| && Defines(bs[i], l, key)
    ensures key in Collect(bs, l) ==>
      exists i :: LastDefining(bs, l, key, i) && Collect(bs, l)[key] == bs[i].messages[key]
    decreases |bs|
  {
    if bs != [] {
      var init := bs[..|bs| - 1];
      var last := bs[|bs| - 1];
      CollectSpec(init, l, key);
      assert forall i :: 0 <= i < |init| ==> init[i] == bs[i];
      if Defines(last, l, key) {
        assert LastDefining(bs, l, key, |bs| - 1);
      } else if key in Collect(init, l) {
        var i :| LastDefining(init, l, key, i) && Collect(init, l)[key] == init[i].messages[key];
        assert LastDefining(bs, l, key, i);
      }
    }
  }

  lemma {:induction false} CollectAbsent(bs: seq<Block>, l: string)
    requires l !in ListLocales(bs)
    ensures Collect(bs, l) == map[]
    decreases |bs|
  {
    if bs != [] {
      assert ListLocales(bs[..|bs| - 1]) == ListLocales(bs)[..|bs| - 1];
      CollectAbsent(bs[..|bs| - 1], l);
    }
  }

  /** The state mergeTranslations keeps: one block per locale seen so far,
      in order of first appearance, holding the merge of that locale's
      messages. */
  ghost predicate MergedSoFar(out: seq<Block>, seen: seq<Block>) {
    && ListLocales(out) == FirstLocales(seen)
    && forall i :: 0 <= i < |out| ==> out[i].messages == Collect(seen, out[i].locale)
  }

  lemma MergeStepFound(out: seq<Block>, seen: seq<Block>, next: Block, b: nat)
    requires MergedSoFar(out, seen) && b < |out| && out[b].locale == next.locale
    ensures MergedSoFar(out[b := Block(out[b].locale, out[b].messages + next.messages)], seen + [next])
  {
    FirstLocalesSpec(seen);
    var out' := out[b := Block(out[b].locale, out[b].messages + next.messages)];
    assert (seen + [next])[..|seen|] == seen;
    assert next.locale in FirstLocales(seen);
    assert ListLocales(out') == ListLocales(out);
    forall i | 0 <= i < |out'| ensures out'[i].messages == Collect(seen + [next], out'[i].locale) {
      if i != b {
        assert ListLocales(out)[i] != ListLocales(out)[b];
      }
    }
  }

  lemma MergeStepNew(out: seq<Block>, seen: seq<Block>, next: Block)
    requires MergedSoFar(out, seen)
    requires forall x :: 0 <= x < |out| ==> out[x].locale != next.locale
    ensures MergedSoFar(out + [next], seen + [next])
  {
    FirstLocalesSpec(seen);
    assert (seen + [next])[..|seen|] == seen;
    assert next.locale !in FirstLocales(seen) by {
      assert next.locale !in ListLocales(out);
    }
    assert next.locale !in ListLocales(seen);
    CollectAbsent(seen, next.locale);
    assert ListLocales(out + [next]) == ListLocales(out) + [next.locale];
  }

  lemma FlattenStep(stack: seq<seq<Block>>, s: nat)
    requires s < |stack|
    ensures Flatten(stack[..s + 1]) == Flatten(stack[..s]) + stack[s]
  {
    assert stack[..s + 1][..s] == stack[..s];
  }

  /** Seeing the first block twice at the start changes nothing. */
  lemma {:induction false} RepeatHead(b: Block, rest: seq<Block>)
    ensures FirstLocales([b, b] + rest) == FirstLocales([b] + rest)
    ensures forall l :: Collect([b, b] + rest, l) == Collect([b] + rest, l)
    decreases |rest|
  {
    if rest == [] {
      assert [b, b][..1] == [b];
      assert [b][..0] == [];
      forall l ensures Collect([b, b], l) == Collect([b], l) {
        assert Collect([b, b], l) == (if b.locale == l then Collect([b], l) + b.messages else Collect([b], l));
      }
    } else {
      var init := rest[..|rest| - 1];
      RepeatHead(b, init);
      assert ([b, b] + rest)[..|[b, b] + rest| - 1] == [b, b] + init;
      assert ([b] + rest)[..|[b] + rest| - 1] == [b] + init;
    }
  }

  /** One step of mergeTranslations: `next` is merged into the listed block
      of its locale, or appended when there is none. */
  method MergeBlock(out: seq<Block>, next: Block, ghost seen: seq<Block>) returns (out': seq<Block>)
    requires MergedSoFar(out, seen)
    ensures MergedSoFar(out', seen + [next])
  {
    var b := 0;
    while b < |out|
      invariant 0 <= b <= |out|
      invariant forall x :: 0 <= x < b ==> out[x].locale != next.locale
    {
      if out[b].locale == next.locale {
        MergeStepFound(out, seen, next, b);
        return out[b := Block(out[b].locale, out[b].messages + next.messages)];
      }
      b := b + 1;
    }
    MergeStepNew(out, seen, next);
    out' := out + [next];
  }

  /** `mergeTranslations(stack)`: the merged list starts with the first block
      of the first list; every block either merges its messages into the
      already-listed block of its locale (`Object.assign`) or is appended. The
      result has one block per locale, in order of first appearance, and each
      holds every key of that locale's blocks with the value of the last block
      defining it. */
  method MergeTranslations(stack: seq<seq<Block>>) returns (out: seq<Block>)
    requires |stack| > 0 && |stack[0]| > 0
    ensures ListLocales(out) == FirstLocales(Flatten(stack))
    ensures |out| >= 1 && Distinct(ListLocales(out)) && out[0].locale == stack[0][0].locale
    ensures forall i :: 0 <= i < |out| ==> out[i].messages == Collect(Flatten(stack), out[i].locale)
  {
    var b0 := stack[0][0];
    out := [b0];
    MergeFirst(b0);
    assert Flatten(stack[..0]) == [];
    var s := 0;
    while s < |stack|
      invariant 0 <= s <= |stack|
      invariant MergedSoFar(out, [b0] + Flatten(stack[..s]))
    {
      out := MergeList(out, stack[s], [b0] + Flatten(stack[..s]));
      FlattenStep(stack, s);
      assert [b0] + Flatten(stack[..s]) + stack[s] == [b0] + Flatten(stack[..s + 1]);
      s := s + 1;
    }
    assert stack[..s] == stack;
    MergeDone(stack, out);
  }

  lemma MergeFirst(b0: Block)
    ensures MergedSoFar([b0], [b0])
  {
    assert [b0][..0] == [];
    assert Collect([b0], b0.locale) == map[] + b0.messages == b0.messages;
  }

  /** The blocks of one list of the stack merged one after the other. */
  method MergeList(out: seq<Block>, source: seq<Block>, ghost before: seq<Block>) returns (out': seq<Block>)
    requires MergedSoFar(out, before)
    ensures MergedSoFar(out', before + source)
  {
    out' := out;
    var j := 0;
    assert before + source[..0] == before;
    while j < |source|
      invariant 0 <= j <= |source|
      invariant MergedSoFar(out', before + source[..j])
    {
      var next := source[j];
      out' := MergeBlock(out', next, before + source[..j]);
      assert before + source[..j + 1] == before + source[..j] + [next];
      j := j + 1;
    }
    assert source[..j] == source;
  }

  lemma MergeDone(stack: seq<seq<Block>>, out: seq<Block>)
    requires |stack| > 0 && |stack[0]| > 0
    requires MergedSoFar(out, [stack[0][0]] + Flatten(stack))
    ensures ListLocales(out) == FirstLocales(Flatten(stack))
    ensures |out| >= 1 && Distinct(ListLocales(out)) && out[0].locale == stack[0][0].locale
    ensures forall i :: 0 <= i < |out| ==> out[i].messages == Collect(Flatten(stack), out[i].locale)
  {
    var flat := Flatten(stack);
    HeadSeenTwice(stack);
    FlattenHead(stack);
    FirstLocalesSpec(flat);
    assert |ListLocales(out)| >= 1;
  }

  /** Starting the merge with the first block, which the stack lists again,
      changes nothing. */
  lemma HeadSeenTwice(stack: seq<seq<Block>>)
    requires |stack| > 0 && |stack[0]| > 0
    ensures FirstLocales([stack[0][0]] + Flatten(stack)) == FirstLocales(Flatten(stack))
    ensures forall l :: Collect([stack[0][0]] + Flatten(stack), l) == Collect(Flatten(stack), l)
  {
    var b0 := stack[0][0];
    var flat := Flatten(stack);
    FlattenHead(stack);
    assert flat == [b0] + flat[1..];
    RepeatHead(b0, flat[1..]);
    assert [b0] + flat == [b0, b0] + flat[1..];
  }

  lemma {:induction false} FlattenHead(stack: seq<seq<Block>>)
    requires |stack| > 0 && |stack[0]| > 0
    ensures |Flatten(stack)| > 0 && Flatten(stack)[0] == stack[0][0]
    decreases |stack|
  {
    if |stack| > 1 {
      FlattenHead(stack[..|stack| - 1]);
    } else {
      assert stack[..0] == [];
    }
  }
}
