/**
 * What the writer protocol produces for a whole element tree: the calls
 * XmlWriter::write issues for a tree (Xml.cpp:644-687), a reference text for a
 * tree, and the proof that running those calls produces exactly that text.
 */
module WriterTree {
  import opened Bytes
  import opened WriterSpec

  /** A document tree as the writer sees it. */
  datatype Tree = Element(name: Bytes, attributes: map<Bytes, Bytes>, value: Bytes, children: seq<Tree>)

  /** The AttributeName/AttributeValue pairs for the keys `ks` of `m`. */
  function AttrCalls(m: map<Bytes, Bytes>, ks: seq<Bytes>): seq<Call>
    requires forall i :: 0 <= i < |ks| ==> ks[i] in m
  {
    if ks == [] then [] else [AttrName(ks[0]), AttrValue(m[ks[0]])] + AttrCalls(m, ks[1..])
  }

  /**
   * The calls that write one element: NodeBegin, the attributes in
   * ascending key order, then Value and NodeEnd for a non-empty value,
   * otherwise every child in order and NodeEnd.
   */
  ghost function TreeCalls(t: Tree): seq<Call>
    decreases t, 1
  {
    HeadCalls(t) + TailCalls(t)
  }

  /** Value and NodeEnd, or the children and NodeEnd. */
  ghost function TailCalls(t: Tree): seq<Call>
    decreases t, 0
  {
    if t.value != [] then [Text(t.value), End] else ForestCalls(t.children) + [End]
  }

  /** NodeBegin and the attribute calls of one element. */
  ghost function HeadCalls(t: Tree): seq<Call>
  {
    [Begin(t.name)] + AttrCalls(t.attributes, SortedKeys(t.attributes.Keys))
  }

  ghost function ForestCalls(ts: seq<Tree>): seq<Call>
    decreases ts, 0
  {
    if ts == [] then [] else TreeCalls(ts[0]) + ForestCalls(ts[1..])
  }

  // ------------------------------------------------ the reference text

  function Indent(depth: nat, beautiful: bool): Bytes
  {
    if beautiful then Spaces(4 * depth) else []
  }

  /** ` name="escaped value"` */
  function AttrText(k: Bytes, v: Bytes): Bytes
  {
    " " + k + "=" + ("\"" + Escape(v) + "\"")
  }

  function AttrsText(m: map<Bytes, Bytes>, ks: seq<Bytes>): Bytes
    requires forall i :: 0 <= i < |ks| ==> ks[i] in m
  {
    if ks == [] then [] else AttrText(ks[0], m[ks[0]]) + AttrsText(m, ks[1..])
  }

  /** `<name` followed by the attributes in ascending key order. */
  ghost function StartTag(t: Tree): Bytes
  {
    "<" + t.name + AttrsText(t.attributes, SortedKeys(t.attributes.Keys))
  }

  /** `</name>`, then a newline when pretty-printing. */
  function EndTag(name: Bytes, beautiful: bool): Bytes
  {
    "</" + name + (">" + NewLine(beautiful))
  }

  /**
   * The text of a tree at nesting depth `depth`: `<a/>` for an element with
   * neither value nor children (XML 1.0, section 3.1), `<a>text</a>` for a
   * value, the children between `<a>` and `</a>` otherwise; pretty-printing
   * indents by four spaces per level and ends every tag line with a newline.
   */
  ghost function Serialize(t: Tree, depth: nat, beautiful: bool): Bytes
    decreases t, 1
  {
    Indent(depth, beautiful) + StartTag(t) + Body(t, depth, beautiful)
  }

  /** Everything after the start tag's name and attributes. */
  ghost function Body(t: Tree, depth: nat, beautiful: bool): Bytes
    decreases t, 0
  {
    if t.value != [] then ">" + Escape(t.value) + EndTag(t.name, beautiful)
    else if t.children == [] then "/>" + NewLine(beautiful)
    else ">" + NewLine(beautiful) + SerializeForest(t.children, depth + 1, beautiful)
         + (Indent(depth, beautiful) + EndTag(t.name, beautiful))
  }

  ghost function SerializeForest(ts: seq<Tree>, depth: nat, beautiful: bool): Bytes
    decreases ts, 0
  {
    if ts == [] then [] else Serialize(ts[0], depth, beautiful) + SerializeForest(ts[1..], depth, beautiful)
  }

  predicate LegalName(n: Bytes)
  {
    !IsReservedName(n) && IsNameChars(n)
  }

  /** Names legal and no control byte in any value: the trees the writer accepts without error. */
  ghost predicate WellFormed(t: Tree)
    decreases t
  {
    && LegalName(t.name)
    && (forall k :: k in t.attributes ==> LegalName(k) && !HasControl(t.attributes[k]))
    && !HasControl(t.value)
    && (t.value == [] ==> forall i :: 0 <= i < |t.children| ==> WellFormed(t.children[i]))
  }

  // ------------------------------------------------ one call at a time

  lemma LegalNameWrites(e: WriterError, n: Bytes)
    requires LegalName(n)
    ensures NameOk(n) && NameOut(n) == n && NameError(e, n) == e
  {
    assert !HasControl(n) by {
      forall i | 0 <= i < |n| ensures !IsControlCode(n[i]) { NameCharIsPlain(n[i], i == 0); }
    }
    NameBehaviour(e, n);
  }

  /** The parent may take a child element. */
  predicate AcceptsChild(stack: seq<Frame>)
  {
    stack == [] || Top(stack).cond == NodeBegin || Top(stack).cond == NodeChilds || Top(stack).cond == NodeEnd
  }

  /** The parent once NodeBegin has closed its start tag. */
  function Opened(stack: seq<Frame>): seq<Frame>
  {
    if stack != [] && Top(stack).cond == NodeBegin then SetTopCond(stack, NodeChilds) else stack
  }

  /** What NodeBegin writes to close the parent's start tag. */
  function Opener(stack: seq<Frame>, beautiful: bool): Bytes
  {
    if stack != [] && Top(stack).cond == NodeBegin then ">" + NewLine(beautiful) else []
  }

  /** The stack once the element on top of it has been written: its parent marked NodeEnd. */
  function Closed(stack: seq<Frame>): seq<Frame>
  {
    if stack == [] then [] else SetTopCond(stack, NodeEnd)
  }

  lemma BeginLegal(st: WriterState, name: Bytes, beautiful: bool)
    requires AcceptsChild(st.stack) && LegalName(name)
    ensures var r := BeginStep(st, name, beautiful);
      && r.ok && r.state.error == st.error
      && r.state.stack == Opened(st.stack) + [Frame(NodeBegin, name, {})]
      && r.state.out == st.out + Opener(st.stack, beautiful) + Indent(|st.stack|, beautiful) + "<" + name
  {
    LegalNameWrites(st.error, name);
    assert Spaces(0) == [];
  }

  lemma AttrLegal(st: WriterState, k: Bytes, v: Bytes, beautiful: bool)
    requires st.stack != [] && Top(st.stack).cond == NodeBegin && k !in Top(st.stack).attributes
    requires LegalName(k) && !HasControl(v)
    ensures var r := Run(st, [AttrName(k), AttrValue(v)], beautiful);
      && r.ok && r.state.error == st.error
      && r.state.stack == st.stack[..|st.stack| - 1] + [Top(st.stack).(attributes := Top(st.stack).attributes + {k})]
      && r.state.out == st.out + AttrText(k, v)
  {
    LegalNameWrites(st.error, k);
    AttributeValueQuoted(v);
    var s1 := AttrNameStep(st, k);
    assert s1.ok && s1.state.error == st.error;
    var s2 := AttrValueStep(s1.state, v);
    assert s2.ok && s2.state.error == st.error;
    assert s2.state.stack == st.stack[..|st.stack| - 1] + [Top(st.stack).(attributes := Top(st.stack).attributes + {k})];
    assert s2.state.out == st.out + " " + k + "=" + ("\"" + Escape(v) + "\"");
    Assoc4(st.out + " ", k, "=", "\"" + Escape(v) + "\"");
    Assoc(st.out, " ", k + "=" + ("\"" + Escape(v) + "\""));
    assert AttrText(k, v) == " " + (k + "=" + ("\"" + Escape(v) + "\"")) by {
      Assoc4(" ", k, "=", "\"" + Escape(v) + "\"");
    }
    assert [AttrName(k), AttrValue(v)] == [AttrName(k)] + [AttrValue(v)];
    RunCons(st, AttrName(k), [AttrValue(v)], beautiful);
    assert [AttrValue(v)] == [AttrValue(v)] + [];
    RunCons(s1.state, AttrValue(v), [], beautiful);
  }

  lemma TextLegal(st: WriterState, v: Bytes)
    requires st.stack != [] && Top(st.stack).cond == NodeBegin && !HasControl(v)
    ensures var r := TextStep(st, v);
      && r.ok && r.state.error == st.error
      && r.state.stack == SetTopCond(st.stack, NodeValue)
      && r.state.out == st.out + ">" + Escape(v)
  {
    UpToControlWhole(v);
    assert ValueOut(v, false) == Escape(v);
  }

  /** What NodeEnd writes for a frame in condition `c` at depth `depth`. */
  function EndText(c: Condition, name: Bytes, depth: nat, beautiful: bool): Bytes
  {
    if c == NodeBegin then "/>" + NewLine(beautiful)
    else if c == NodeEnd then Indent(depth, beautiful) + EndTag(name, beautiful)
    else EndTag(name, beautiful)
  }

  lemma EndLegal(st: WriterState, beautiful: bool)
    requires st.stack != [] && LegalName(Top(st.stack).name)
    requires Top(st.stack).cond == NodeBegin || Top(st.stack).cond == NodeValue || Top(st.stack).cond == NodeEnd
    ensures var r := EndStep(st, beautiful);
      && r.ok && r.state.error == st.error
      && r.state.stack == PopFrame(st.stack)
      && r.state.out == st.out + EndText(Top(st.stack).cond, Top(st.stack).name, |st.stack| - 1, beautiful)
  {
    if Top(st.stack).cond == NodeBegin {
      Assoc(st.out, "/>", NewLine(beautiful));
    } else {
      EndClosingTag(st, beautiful);
    }
  }

  lemma EndClosingTag(st: WriterState, beautiful: bool)
    requires st.stack != [] && LegalName(Top(st.stack).name)
    requires Top(st.stack).cond == NodeValue || Top(st.stack).cond == NodeEnd
    ensures var r := EndStep(st, beautiful);
      && r.ok && r.state.error == st.error
      && r.state.stack == PopFrame(st.stack)
      && r.state.out == st.out + EndText(Top(st.stack).cond, Top(st.stack).name, |st.stack| - 1, beautiful)
  {
    var top := Top(st.stack);
    LegalNameWrites(st.error, top.name);
    var pad: Bytes := if beautiful && top.cond == NodeEnd then Spaces(4 * (|st.stack| - 1)) else [];
    var tail: Bytes := ">" + NewLine(beautiful);
    assert EndStep(st, beautiful).state.out == st.out + (pad + "</" + top.name + tail);
    assert EndText(top.cond, top.name, |st.stack| - 1, beautiful) == pad + EndTag(top.name, beautiful);
    Assoc(pad, "</", top.name);
    Assoc(pad, "</" + top.name, tail);
  }

  // ------------------------------------------------ whole elements

  /** Distinct keys never already used on the frame: every pair is accepted. */
  lemma {:induction false} RunAttrs(st: WriterState, m: map<Bytes, Bytes>, ks: seq<Bytes>, beautiful: bool)
    requires st.stack != [] && Top(st.stack).cond == NodeBegin
    requires forall i :: 0 <= i < |ks| ==> ks[i] in m && ks[i] !in Top(st.stack).attributes
    requires forall i, j :: 0 <= i < j < |ks| ==> ks[i] != ks[j]
    requires forall k :: k in m ==> LegalName(k) && !HasControl(m[k])
    ensures var r := Run(st, AttrCalls(m, ks), beautiful);
      && r.ok && r.state.error == st.error
      && r.state.out == st.out + AttrsText(m, ks)
      && |r.state.stack| == |st.stack|
      && r.state.stack[..|st.stack| - 1] == st.stack[..|st.stack| - 1]
      && Top(r.state.stack).cond == NodeBegin && Top(r.state.stack).name == Top(st.stack).name
    decreases |ks|
  {
    if ks != [] {
      var k := ks[0];
      var pair := [AttrName(k), AttrValue(m[k])];
      var rest := AttrCalls(m, ks[1..]);
      AttrLegal(st, k, m[k], beautiful);
      var s2 := Run(st, pair, beautiful).state;
      assert s2.stack[..|s2.stack| - 1] == st.stack[..|st.stack| - 1];
      assert forall i :: 1 <= i < |ks| ==> ks[i] !in Top(s2.stack).attributes;
      RunAttrs(s2, m, ks[1..], beautiful);
      assert AttrCalls(m, ks) == pair + rest;
      RunAppend(st, pair, rest, beautiful);
      assert Run(st, AttrCalls(m, ks), beautiful) == Run(s2, rest, beautiful);
      Assoc(st.out, AttrText(k, m[k]), AttrsText(m, ks[1..]));
    }
  }

  /** The state once NodeBegin(t.name) and t's attribute calls have run. */
  lemma RunHead(st: WriterState, t: Tree, beautiful: bool)
    requires WellFormed(t) && AcceptsChild(st.stack)
    ensures var r := Run(st, HeadCalls(t), beautiful);
      && r.ok && r.state.error == st.error
      && r.state.out == st.out + Opener(st.stack, beautiful) + (Indent(|st.stack|, beautiful) + StartTag(t))
      && r.state.stack != [] && r.state.stack == Opened(st.stack) + [Top(r.state.stack)]
      && Top(r.state.stack).cond == NodeBegin && Top(r.state.stack).name == t.name
      && PopFrame(r.state.stack) == Closed(st.stack)
  {
    var ks := SortedKeys(t.attributes.Keys);
    SortedKeysAscending(t.attributes.Keys);
    forall i, j | 0 <= i < j < |ks| ensures ks[i] != ks[j] { LessIrreflexive(ks[i]); }
    BeginLegal(st, t.name, beautiful);
    var s1 := BeginStep(st, t.name, beautiful).state;
    RunCons(st, Begin(t.name), AttrCalls(t.attributes, ks), beautiful);
    RunAttrs(s1, t.attributes, ks, beautiful);
    var r := Run(s1, AttrCalls(t.attributes, ks), beautiful).state;
    assert s1.stack[..|st.stack|] == Opened(st.stack);
    assert r.stack[..|st.stack|] == s1.stack[..|st.stack|];
    OpenedPlusOne(st.stack, r.stack);
    var x := st.out + Opener(st.stack, beautiful);
    var ind := Indent(|st.stack|, beautiful);
    var at := AttrsText(t.attributes, ks);
    assert r.out == x + ind + "<" + t.name + at;
    Assoc4(x + ind, "<", t.name, at);
    Assoc(x, ind, StartTag(t));
  }

  lemma OpenedPlusOne(stack: seq<Frame>, r: seq<Frame>)
    requires |r| == |stack| + 1 && r[..|stack|] == Opened(stack)
    ensures r == Opened(stack) + [Top(r)] && PopFrame(r) == Closed(stack)
  {
    assert r == r[..|stack|] + [Top(r)];
    PopAfterOpened(stack, Top(r));
  }

  lemma PopAfterOpened(stack: seq<Frame>, f: Frame)
    ensures PopFrame(Opened(stack) + [f]) == Closed(stack)
    ensures Closed(Opened(stack) + [f]) == Opened(stack) + [f.(cond := NodeEnd)]
  {
    assert (Opened(stack) + [f])[..|stack|] == Opened(stack);
  }

  /** Value then NodeEnd on an element whose start tag is open. */
  lemma CloseWithValue(h: WriterState, v: Bytes, beautiful: bool)
    requires h.stack != [] && Top(h.stack).cond == NodeBegin && LegalName(Top(h.stack).name) && !HasControl(v)
    ensures var r := Run(h, [Text(v), End], beautiful);
      && r.ok && r.state.error == h.error && r.state.stack == PopFrame(h.stack)
      && r.state.out == h.out + (">" + Escape(v) + EndTag(Top(h.stack).name, beautiful))
  {
    TextLegal(h, v);
    var h2 := TextStep(h, v).state;
    EndLegal(h2, beautiful);
    assert [Text(v), End] == [Text(v)] + [End];
    RunCons(h, Text(v), [End], beautiful);
    assert [End] == [End] + [];
    RunCons(h2, End, [], beautiful);
    assert PopFrame(h2.stack) == PopFrame(h.stack) by {
      assert h2.stack[..|h2.stack| - 1] == h.stack[..|h.stack| - 1];
    }
    Assoc(h.out + ">", Escape(v), EndTag(Top(h.stack).name, beautiful));
    Assoc(h.out, ">", Escape(v));
    Assoc(h.out, ">" + Escape(v), EndTag(Top(h.stack).name, beautiful));
  }

  /** NodeEnd on an element with neither value nor children. */
  lemma CloseEmpty(h: WriterState, beautiful: bool)
    requires h.stack != [] && Top(h.stack).cond == NodeBegin && LegalName(Top(h.stack).name)
    ensures var r := Run(h, [End], beautiful);
      && r.ok && r.state.error == h.error && r.state.stack == PopFrame(h.stack)
      && r.state.out == h.out + ("/>" + NewLine(beautiful))
  {
    EndLegal(h, beautiful);
    assert [End] == [End] + [];
    RunCons(h, End, [], beautiful);
  }

  /** The children, then NodeEnd, on an element whose start tag is open. */
  lemma {:induction false} CloseWithChildren(h: WriterState, cs: seq<Tree>, beautiful: bool)
    requires h.stack != [] && Top(h.stack).cond == NodeBegin && LegalName(Top(h.stack).name)
    requires cs != [] && forall i :: 0 <= i < |cs| ==> WellFormed(cs[i])
    ensures var r := Run(h, ForestCalls(cs) + [End], beautiful);
      && r.ok && r.state.error == h.error && r.state.stack == PopFrame(h.stack)
      && r.state.out == h.out + (">" + NewLine(beautiful) + SerializeForest(cs, |h.stack|, beautiful)
                                 + (Indent(|h.stack| - 1, beautiful) + EndTag(Top(h.stack).name, beautiful)))
    decreases cs, 2
  {
    RunAppend(h, ForestCalls(cs), [End], beautiful);
    RunForest(h, cs, beautiful);
    var f := Run(h, ForestCalls(cs), beautiful).state;
    CloseAfterChildren(f, beautiful);
    SetTopThenPop(h.stack, NodeEnd);
    var open: Bytes := ">" + NewLine(beautiful);
    var kids := SerializeForest(cs, |h.stack|, beautiful);
    var close := Indent(|h.stack| - 1, beautiful) + EndTag(Top(h.stack).name, beautiful);
    assert f.out == h.out + (open + kids);
    Assoc(h.out, open + kids, close);
  }

  /** NodeEnd on an element whose children have been written. */
  lemma CloseAfterChildren(f: WriterState, beautiful: bool)
    requires f.stack != [] && Top(f.stack).cond == NodeEnd && LegalName(Top(f.stack).name)
    ensures var r := Run(f, [End], beautiful);
      && r.ok && r.state.error == f.error && r.state.stack == PopFrame(f.stack)
      && r.state.out == f.out + (Indent(|f.stack| - 1, beautiful) + EndTag(Top(f.stack).name, beautiful))
  {
    EndLegal(f, beautiful);
    assert [End] == [End] + [];
    RunCons(f, End, [], beautiful);
  }

  lemma SetTopThenPop(stack: seq<Frame>, c: Condition)
    requires stack != []
    ensures PopFrame(SetTopCond(stack, c)) == PopFrame(stack)
  {
    var r := SetTopCond(stack, c);
    assert r[..|r| - 1] == stack[..|stack| - 1];
  }

  /**
   * Writing a well-formed tree through the protocol succeeds, leaves the
   * stack as it found it (the parent marked NodeEnd) and appends exactly
   * the reference text.
   */
  lemma {:induction false} RunTree(st: WriterState, t: Tree, beautiful: bool)
    requires WellFormed(t) && AcceptsChild(st.stack)
    ensures var r := Run(st, TreeCalls(t), beautiful);
      && r.ok && r.state.error == st.error
      && r.state.stack == Closed(st.stack)
      && r.state.out == st.out + Opener(st.stack, beautiful) + Serialize(t, |st.stack|, beautiful)
    decreases t, 1
  {
    var d := |st.stack|;
    RunAppend(st, HeadCalls(t), TailCalls(t), beautiful);
    RunHead(st, t, beautiful);
    var h := Run(st, HeadCalls(t), beautiful).state;
    RunTail(h, t, beautiful);
    var body := Body(t, d, beautiful);
    Assoc(st.out + Opener(st.stack, beautiful), Indent(d, beautiful) + StartTag(t), body);
  }

  /** The calls after the start tag, on an element whose start tag is open. */
  lemma {:induction false} RunTail(h: WriterState, t: Tree, beautiful: bool)
    requires WellFormed(t)
    requires h.stack != [] && Top(h.stack).cond == NodeBegin && Top(h.stack).name == t.name
    ensures var r := Run(h, TailCalls(t), beautiful);
      && r.ok && r.state.error == h.error && r.state.stack == PopFrame(h.stack)
      && r.state.out == h.out + Body(t, |h.stack| - 1, beautiful)
    decreases t, 0
  {
    if t.value != [] {
      CloseWithValue(h, t.value, beautiful);
    } else if t.children == [] {
      CloseEmpty(h, beautiful);
    } else {
      CloseWithChildren(h, t.children, beautiful);
    }
  }

  lemma {:induction false} RunForest(st: WriterState, ts: seq<Tree>, beautiful: bool)
    requires forall i :: 0 <= i < |ts| ==> WellFormed(ts[i])
    requires st.stack != [] && AcceptsChild(st.stack)
    ensures var r := Run(st, ForestCalls(ts), beautiful);
      && r.ok && r.state.error == st.error
      && r.state.stack == (if ts == [] then st.stack else Closed(st.stack))
      && r.state.out == st.out + (if ts == [] then [] else Opener(st.stack, beautiful) + SerializeForest(ts, |st.stack|, beautiful))
    decreases ts, 0
  {
    if ts == [] {
      assert st.out + [] == st.out;
    } else {
      RunTree(st, ts[0], beautiful);
      RunAppend(st, TreeCalls(ts[0]), ForestCalls(ts[1..]), beautiful);
      var s1 := Run(st, TreeCalls(ts[0]), beautiful).state;
      RunForest(s1, ts[1..], beautiful);
      ClosedAgain(st.stack);
      var first := Serialize(ts[0], |st.stack|, beautiful);
      var others := SerializeForest(ts[1..], |st.stack|, beautiful);
      assert SerializeForest(ts, |st.stack|, beautiful) == first + others;
      ForestJoin(st.out, Opener(st.stack, beautiful), first, others);
    }
  }

  lemma ClosedAgain(stack: seq<Frame>)
    requires stack != []
    ensures Closed(Closed(stack)) == Closed(stack) && Opener(Closed(stack), false) == [] && Opener(Closed(stack), true) == []
  {
  }

  lemma ForestJoin(out: Bytes, o: Bytes, first: Bytes, others: Bytes)
    ensures out + o + first + (if others == [] then [] else [] + others) == out + (o + (first + others))
    ensures out + o + first + [] == out + (o + first)
  {
    if others == [] {
      assert first + others == first;
    } else {
      assert [] + others == others;
    }
    Assoc(out, o, first);
    Assoc(out + o, first, others);
    Assoc(o, first, others);
    Assoc(out, o, first + others);
  }

  /**
   * Writing a well-formed root to a writer with an empty stack succeeds,
   * leaves the stack empty and appends exactly the reference text.
   */
  lemma WriteDocument(st: WriterState, t: Tree, beautiful: bool)
    requires WellFormed(t) && st.stack == []
    ensures var r := Run(st, TreeCalls(t), beautiful);
      r.ok && r.state.stack == [] && r.state.out == st.out + Serialize(t, 0, beautiful) && r.state.error == st.error
  {
    RunTree(st, t, beautiful);
    assert Opener(st.stack, beautiful) == [];
    assert st.out + Opener(st.stack, beautiful) == st.out;
  }

  /**
   * However the names and values look, a tree's calls that all succeed
   * close every element they open: the stack ends as it began, the parent
   * marked NodeEnd.
   */
  lemma {:induction false} RunTreeBalanced(st: WriterState, t: Tree, beautiful: bool)
    requires StackShape(st.stack)
    requires Run(st, TreeCalls(t), beautiful).ok
    ensures |Run(st, TreeCalls(t), beautiful).state.stack| == |st.stack|
  {
    RunDepth(st, TreeCalls(t), beautiful);
    TreeCallsCount(t);
  }

  lemma CountAppend(xs: seq<Call>, ys: seq<Call>, begin: bool)
    ensures Count(xs + ys, begin) == Count(xs, begin) + Count(ys, begin)
    decreases |xs|
  {
    if xs == [] {
      assert xs + ys == ys;
    } else {
      assert (xs + ys)[1..] == xs[1..] + ys;
      CountAppend(xs[1..], ys, begin);
    }
  }

  lemma {:induction false} AttrCallsCount(m: map<Bytes, Bytes>, ks: seq<Bytes>, begin: bool)
    requires forall i :: 0 <= i < |ks| ==> ks[i] in m
    ensures Count(AttrCalls(m, ks), begin) == 0
    decreases |ks|
  {
    if ks != [] {
      AttrCallsCount(m, ks[1..], begin);
      CountAppend([AttrName(ks[0]), AttrValue(m[ks[0]])], AttrCalls(m, ks[1..]), begin);
      assert [AttrName(ks[0]), AttrValue(m[ks[0]])][1..] == [AttrValue(m[ks[0]])];
    }
  }

  /** A tree's calls hold as many NodeBegin as NodeEnd calls. */
  lemma {:induction false} TreeCallsCount(t: Tree)
    ensures Count(TreeCalls(t), true) == Count(TreeCalls(t), false)
    decreases t, 1
  {
    var ks := SortedKeys(t.attributes.Keys);
    var attrs := AttrCalls(t.attributes, ks);
    var tail := TailCalls(t);
    forall begin: bool ensures Count(TreeCalls(t), begin) == Count([Begin(t.name)], begin) + Count(attrs, begin) + Count(tail, begin) {
      CountAppend(HeadCalls(t), tail, begin);
      CountAppend([Begin(t.name)], attrs, begin);
      CountOne(Begin(t.name), begin);
    }
    AttrCallsCount(t.attributes, ks, true);
    AttrCallsCount(t.attributes, ks, false);
    if t.value != [] {
      assert tail == [Text(t.value)] + [End];
      forall begin: bool ensures Count(tail, begin) == Count([Text(t.value)], begin) + Count([End], begin) {
        CountAppend([Text(t.value)], [End], begin);
      }
    } else {
      ForestCallsCount(t.children);
      CountAppend(ForestCalls(t.children), [End], true);
      CountAppend(ForestCalls(t.children), [End], false);
    }
    CountOne(Text(t.value), true);
    CountOne(Text(t.value), false);
    CountOne(End, true);
    CountOne(End, false);
    CountOne(Begin(t.name), true);
    CountOne(Begin(t.name), false);
  }

  lemma CountOne(c: Call, begin: bool)
    ensures Count([c], begin) == if (begin && c.Begin?) || (!begin && c.End?) then 1 else 0
  {
    assert [c][1..] == [];
  }

  lemma {:induction false} ForestCallsCount(ts: seq<Tree>)
    ensures Count(ForestCalls(ts), true) == Count(ForestCalls(ts), false)
    decreases ts, 0
  {
    if ts != [] {
      TreeCallsCount(ts[0]);
      ForestCallsCount(ts[1..]);
      CountAppend(TreeCalls(ts[0]), ForestCalls(ts[1..]), true);
      CountAppend(TreeCalls(ts[0]), ForestCalls(ts[1..]), false);
    }
  }

  // --------------------------------------------------------- examples

  /**
   * writeName's three outcomes seen through NodeBegin: an illegal name
   * character is written and only sets "Invalid name"; a reserved name
   * writes nothing after '<' and fails; a control byte cuts the name short
   * and fails. A failed NodeBegin pushes no frame.
   */
  lemma BeginIllegalName(st: WriterState, name: Bytes, beautiful: bool)
    requires AcceptsChild(st.stack)
    requires !IsReservedName(name) && !HasControl(name) && !IsNameChars(name)
    ensures var r := BeginStep(st, name, beautiful);
      && r.ok && r.state.error == InvalidName
      && r.state.stack == Opened(st.stack) + [Frame(NodeBegin, name, {})]
      && r.state.out == st.out + Opener(st.stack, beautiful) + Indent(|st.stack|, beautiful) + "<" + name
  {
    NameBehaviour(st.error, name);
    assert Spaces(0) == [];
  }

  lemma BeginReservedName(st: WriterState, name: Bytes, beautiful: bool)
    requires AcceptsChild(st.stack) && IsReservedName(name)
    ensures var r := BeginStep(st, name, beautiful);
      && !r.ok && r.state.error == InvalidName
      && r.state.stack == Opened(st.stack)
      && r.state.out == st.out + Opener(st.stack, beautiful) + Indent(|st.stack|, beautiful) + "<"
  {
    NameBehaviour(st.error, name);
    assert Spaces(0) == [];
    var o := st.out + Opener(st.stack, beautiful) + Indent(|st.stack|, beautiful) + "<";
    assert o + [] == o;
  }

  lemma BeginControlName(st: WriterState, name: Bytes, beautiful: bool)
    requires AcceptsChild(st.stack) && !IsReservedName(name) && HasControl(name)
    ensures var r := BeginStep(st, name, beautiful);
      && !r.ok && r.state.error == ControlCharacterDetect
      && r.state.stack == Opened(st.stack)
      && r.state.out == st.out + Opener(st.stack, beautiful) + Indent(|st.stack|, beautiful) + "<" + UpToControl(name)
      && |UpToControl(name)| < |name| && IsControlCode(name[|UpToControl(name)|])
  {
    assert Spaces(0) == [];
  }
}
