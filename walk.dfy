/**
 * What XmlWriter::write (Xml.cpp:636-690) sees when it walks a graph of
 * XmlData records: the tree unfolded from the root, where a child that is
 * already on the path from the root is passed over. The walker's stack of
 * (record, visited, child position) frames is given the calls it still has
 * to issue, so that the loop can be proved against WriterTree.TreeCalls.
 */
module Walk {
  import opened Bytes
  import opened WriterSpec
  import opened WriterTree
  import opened Dom

  /** The fields of one XmlData record that XmlWriter::write reads. */
  datatype Record = Record(name: Bytes, attributes: map<Bytes, Bytes>, value: Bytes, childs: seq<XmlData>)

  /** The records reachable from the root, each with its fields as the walk begins. */
  type Graph = map<XmlData, Record>

  ghost function View(d: XmlData): Record
    reads d
  {
    Record(d.name, d.attributes, d.value, d.childs)
  }

  /** The graph of the records `repr` as they stand in the heap. */
  ghost function Snapshot(repr: set<XmlData>): (g: Graph)
    reads repr
    ensures g.Keys == repr && forall d :: d in repr ==> g[d] == View(d)
  {
    map d | d in repr :: View(d)
  }

  /** Every record of `g` holds the fields `g` gives it. */
  ghost predicate Mirrors(g: Graph)
    reads g.Keys
  {
    forall d :: d in g ==> g[d] == View(d)
  }

  /** Every child of a record in `g` is in `g`. */
  ghost predicate ClosedUnder(g: Graph)
  {
    forall d :: d in g ==> forall i :: 0 <= i < |g[d].childs| ==> g[d].childs[i] in g
  }

  lemma CardStep(repr: set<XmlData>, anc: set<XmlData>, d: XmlData)
    requires d in repr && d !in anc
    ensures |repr - (anc + {d})| < |repr - anc|
  {
    assert repr - (anc + {d}) == (repr - anc) - {d};
  }

  /**
   * The tree the walker writes from `d`, given the records `anc` already on
   * its path: `d`'s own fields, and the children that are not in `anc + {d}`.
   */
  ghost function ToTree(g: Graph, d: XmlData, anc: set<XmlData>): Tree
    requires ClosedUnder(g) && d in g && anc <= g.Keys && d !in anc
    decreases |g.Keys - anc|, 0
  {
    CardStep(g.Keys, anc, d);
    Element(g[d].name, g[d].attributes, g[d].value, Kids(g, g[d].childs, 0, anc + {d}))
  }

  /** The trees of `cs[k..]`, leaving out every child in `anc`. */
  ghost function Kids(g: Graph, cs: seq<XmlData>, k: nat, anc: set<XmlData>): seq<Tree>
    requires ClosedUnder(g) && anc <= g.Keys && k <= |cs|
    requires forall i :: 0 <= i < |cs| ==> cs[i] in g
    decreases |g.Keys - anc|, 1, |cs| - k
  {
    if k == |cs| then []
    else (if cs[k] in anc then [] else [ToTree(g, cs[k], anc)]) + Kids(g, cs, k + 1, anc)
  }

  /** One entry of the walker's stack: record, visited flag, next child position. */
  datatype WalkFrame = WalkFrame(data: XmlData, visited: bool, next: nat)

  function Last(fs: seq<WalkFrame>): WalkFrame
    requires fs != []
  {
    fs[|fs| - 1]
  }

  function Below(fs: seq<WalkFrame>): seq<WalkFrame>
    requires fs != []
  {
    fs[..|fs| - 1]
  }

  /** The records on the walker's stack. */
  function DataOf(fs: seq<WalkFrame>): set<XmlData>
    decreases |fs|
  {
    if fs == [] then {} else DataOf(Below(fs)) + {Last(fs).data}
  }

  lemma {:induction false} DataOfIndex(fs: seq<WalkFrame>, x: XmlData)
    ensures x in DataOf(fs) <==> exists i :: 0 <= i < |fs| && fs[i].data == x
    decreases |fs|
  {
    if fs != [] {
      DataOfIndex(Below(fs), x);
      if x in DataOf(Below(fs)) {
        var i :| 0 <= i < |Below(fs)| && Below(fs)[i].data == x;
        assert fs[i].data == x;
      }
      if exists i :: 0 <= i < |fs| && fs[i].data == x {
        var i :| 0 <= i < |fs| && fs[i].data == x;
        if i < |fs| - 1 {
          assert Below(fs)[i].data == x;
        }
      }
    }
  }

  /**
   * The walker's stack: records of `g`, no record twice, child positions
   * within their lists.
   */
  ghost predicate FramesOk(g: Graph, fs: seq<WalkFrame>)
    decreases |fs|
  {
    && ClosedUnder(g)
    && DataOf(fs) <= g.Keys
    && (fs != [] ==>
          && FramesOk(g, Below(fs))
          && Last(fs).data in g
          && Last(fs).data !in DataOf(Below(fs))
          && Last(fs).next <= |g[Last(fs).data].childs|)
  }

  /** The calls still due for the frame on top of `fs`. */
  ghost function TopCalls(g: Graph, fs: seq<WalkFrame>): seq<Call>
    requires FramesOk(g, fs) && fs != []
  {
    var f := Last(fs);
    var anc := DataOf(Below(fs));
    if !f.visited then TreeCalls(ToTree(g, f.data, anc))
    else ForestCalls(Kids(g, g[f.data].childs, f.next, anc + {f.data})) + [End]
  }

  /** The calls the walker still has to issue for the frames `fs`. */
  ghost function Pending(g: Graph, fs: seq<WalkFrame>): seq<Call>
    requires FramesOk(g, fs)
    decreases |fs|
  {
    if fs == [] then [] else TopCalls(g, fs) + Pending(g, Below(fs))
  }

  /** One step of the children walk: child `k` (unless on the path), then the rest. */
  lemma KidsStep(g: Graph, cs: seq<XmlData>, k: nat, anc: set<XmlData>)
    requires ClosedUnder(g) && anc <= g.Keys && k < |cs|
    requires forall i :: 0 <= i < |cs| ==> cs[i] in g
    ensures ForestCalls(Kids(g, cs, k, anc))
         == (if cs[k] in anc then [] else TreeCalls(ToTree(g, cs[k], anc))) + ForestCalls(Kids(g, cs, k + 1, anc))
  {
    var rest := Kids(g, cs, k + 1, anc);
    if cs[k] in anc {
      assert Kids(g, cs, k, anc) == rest;
      assert [] + ForestCalls(rest) == ForestCalls(rest);
    } else {
      var t := ToTree(g, cs[k], anc);
      assert Kids(g, cs, k, anc) == [t] + rest;
      ForestCons(t, rest);
    }
  }

  lemma KidsSkip(g: Graph, cs: seq<XmlData>, k: nat, anc: set<XmlData>)
    requires ClosedUnder(g) && anc <= g.Keys && k < |cs| && cs[k] in anc
    requires forall i :: 0 <= i < |cs| ==> cs[i] in g
    ensures ForestCalls(Kids(g, cs, k, anc)) == ForestCalls(Kids(g, cs, k + 1, anc))
  {
    assert Kids(g, cs, k, anc) == Kids(g, cs, k + 1, anc);
  }

  /** What is left to do for the frame on top, as a function of its fields. */
  ghost function TopCount(g: Graph, fs: seq<WalkFrame>): nat
    requires FramesOk(g, fs)
  {
    if fs == [] then 0 else |g[Last(fs).data].childs| - Last(fs).next
  }

  /**
   * The order in which the walk gets closer to its end: fewer calls due,
   * or as many and more records on the stack, or as many and fewer
   * children left on top.
   */
  ghost predicate Progress(g: Graph, after: seq<WalkFrame>, before: seq<WalkFrame>)
    requires FramesOk(g, after) && FramesOk(g, before)
  {
    || |Pending(g, after)| < |Pending(g, before)|
    || (&& |Pending(g, after)| == |Pending(g, before)|
        && (|| |g.Keys - DataOf(after)| < |g.Keys - DataOf(before)|
            || (|g.Keys - DataOf(after)| == |g.Keys - DataOf(before)| && TopCount(g, after) < TopCount(g, before))))
  }

  lemma ProgressAfterOpen(g: Graph, hs: seq<WalkFrame>, gs: seq<WalkFrame>, fs: seq<WalkFrame>)
    requires FramesOk(g, hs) && FramesOk(g, gs) && FramesOk(g, fs)
    requires Progress(g, hs, gs) && |Pending(g, gs)| < |Pending(g, fs)|
    ensures Progress(g, hs, fs)
  {
  }

  /**
   * The search of XmlWriter::write over its whole stack for the child about
   * to be entered, stopping at the first frame that holds it.
   */
  method OnStack(fs: seq<WalkFrame>, child: XmlData) returns (found: bool)
    ensures found <==> child in DataOf(fs)
  {
    var count := 0;
    var i := 0;
    while i < |fs|
      invariant 0 <= i <= |fs|
      invariant count == 0
      invariant forall j :: 0 <= j < i ==> fs[j].data != child
    {
      if fs[i].data == child {
        count := count + 1;
        break;
      }
      i := i + 1;
    }
    DataOfIndex(fs, child);
    found := count != 0;
  }

  /**
   * The walker's step on a visited top with a child left: move past the
   * child, and enter it unless it is already on the stack.
   */
  method NextChild(fs: seq<WalkFrame>, ghost g: Graph) returns (gs: seq<WalkFrame>)
    requires FramesOk(g, fs) && fs != [] && Last(fs).visited
    requires Last(fs).next < |g[Last(fs).data].childs| && Mirrors(g)
    ensures FramesOk(g, gs) && gs != [] && Pending(g, gs) == Pending(g, fs)
    ensures Progress(g, gs, fs)
  {
    var top := Last(fs);
    var child := top.data.childs[top.next];
    assert g[top.data] == View(top.data);
    var found := OnStack(fs, child);
    PendingAdvance(g, fs);
    gs := Below(fs) + [top.(next := top.next + 1)];
    if !found {
      PendingPush(g, fs);
      gs := gs + [WalkFrame(child, false, 0)];
    } else {
      PendingSkip(g, fs);
    }
  }

  // ------------------------------------------------ one loop step at a time

  lemma PendingStart(g: Graph, root: XmlData)
    requires ClosedUnder(g) && root in g
    ensures FramesOk(g, [WalkFrame(root, false, 0)])
    ensures Pending(g, [WalkFrame(root, false, 0)]) == TreeCalls(ToTree(g, root, {}))
  {
    var fs := [WalkFrame(root, false, 0)];
    assert Below(fs) == [] && Last(fs) == WalkFrame(root, false, 0);
    assert DataOf(Below(fs)) == {};
    assert FramesOk(g, fs);
    assert Pending(g, fs) == TreeCalls(ToTree(g, root, {})) + [];
  }

  /**
   * An unvisited frame on top: NodeBegin, the attributes in key order, then
   * either Value and NodeEnd, or the children and NodeEnd.
   */
  lemma PendingUnvisited(g: Graph, fs: seq<WalkFrame>)
    requires FramesOk(g, fs) && fs != [] && !Last(fs).visited
    ensures var d := Last(fs).data;
      Pending(g, fs) == [Begin(g[d].name)] + AttrCalls(g[d].attributes, SortedKeys(g[d].attributes.Keys))
                           + TailCalls(ToTree(g, d, DataOf(Below(fs)))) + Pending(g, Below(fs))
  {
    var d := Last(fs).data;
    var t := ToTree(g, d, DataOf(Below(fs)));
    assert TreeCalls(t) == [Begin(g[d].name)] + AttrCalls(g[d].attributes, SortedKeys(g[d].attributes.Keys)) + TailCalls(t);
  }

  lemma TailOfValue(g: Graph, d: XmlData, anc: set<XmlData>)
    requires ClosedUnder(g) && d in g && anc <= g.Keys && d !in anc && g[d].value != []
    ensures TailCalls(ToTree(g, d, anc)) == [Text(g[d].value), End]
  {
  }

  /**
   * Everything the walker needs about an unvisited top `d`: its calls are
   * the head calls, then `tail` (Value and NodeEnd, or the children and
   * NodeEnd), then `below`; after a value the frame is popped, otherwise it
   * is marked visited with `tail` still due.
   */
  lemma OpenPlan(g: Graph, fs: seq<WalkFrame>) returns (tail: seq<Call>, below: seq<Call>)
    requires FramesOk(g, fs) && fs != [] && !Last(fs).visited
    ensures var d := Last(fs).data;
      && FramesOk(g, Below(fs)) && below == Pending(g, Below(fs))
      && Pending(g, fs) == [Begin(g[d].name)] + AttrCalls(g[d].attributes, SortedKeys(g[d].attributes.Keys)) + tail + below
      && (g[d].value != [] ==> tail == [Text(g[d].value), End])
      && (g[d].value == [] ==>
            var gs := Below(fs) + [WalkFrame(d, true, 0)];
            FramesOk(g, gs) && Pending(g, gs) == tail + below)
  {
    var d := Last(fs).data;
    PendingUnvisited(g, fs);
    tail := TailCalls(ToTree(g, d, DataOf(Below(fs))));
    below := Pending(g, Below(fs));
    if g[d].value != [] {
      TailOfValue(g, d, DataOf(Below(fs)));
    } else {
      PendingMarkVisited(g, fs);
    }
  }

  /** Marking the top visited when its value is empty: its children and NodeEnd remain. */
  lemma PendingMarkVisited(g: Graph, fs: seq<WalkFrame>)
    requires FramesOk(g, fs) && fs != [] && !Last(fs).visited && g[Last(fs).data].value == []
    ensures var gs := Below(fs) + [WalkFrame(Last(fs).data, true, 0)];
      FramesOk(g, gs) && DataOf(gs) == DataOf(fs) &&
      TailCalls(ToTree(g, Last(fs).data, DataOf(Below(fs)))) + Pending(g, Below(fs)) == Pending(g, gs)
  {
    var d := Last(fs).data;
    var gs := Below(fs) + [WalkFrame(d, true, 0)];
    assert Below(gs) == Below(fs) && Last(gs) == WalkFrame(d, true, 0);
    assert DataOf(gs) == DataOf(fs);
    assert FramesOk(g, gs);
    var t := ToTree(g, d, DataOf(Below(fs)));
    assert t.children == Kids(g, g[d].childs, 0, DataOf(Below(fs)) + {d});
    assert TopCalls(g, gs) == TailCalls(t);
  }

  /** Taking the next child of a visited top: the stack stays well formed. */
  lemma PendingAdvance(g: Graph, fs: seq<WalkFrame>)
    requires FramesOk(g, fs) && fs != [] && Last(fs).visited
    requires Last(fs).next < |g[Last(fs).data].childs|
    ensures var f := Last(fs);
      var gs := Below(fs) + [f.(next := f.next + 1)];
      && Below(gs) == Below(fs) && Last(gs) == f.(next := f.next + 1)
      && FramesOk(g, gs) && DataOf(gs) == DataOf(fs) && TopCount(g, gs) < TopCount(g, fs)
  {
    var f := Last(fs);
    var gs := Below(fs) + [f.(next := f.next + 1)];
    assert Below(gs) == Below(fs) && Last(gs) == f.(next := f.next + 1);
    assert DataOf(gs) == DataOf(fs);
  }

  /** A child already on the stack is passed over: nothing is left to do for it. */
  lemma PendingSkip(g: Graph, fs: seq<WalkFrame>)
    requires FramesOk(g, fs) && fs != [] && Last(fs).visited
    requires Last(fs).next < |g[Last(fs).data].childs|
    requires g[Last(fs).data].childs[Last(fs).next] in DataOf(fs)
    ensures var f := Last(fs);
      var gs := Below(fs) + [f.(next := f.next + 1)];
      FramesOk(g, gs) && Pending(g, gs) == Pending(g, fs)
  {
    var f := Last(fs);
    var gs := Below(fs) + [f.(next := f.next + 1)];
    PendingAdvance(g, fs);
    var anc := DataOf(fs);
    var cs := g[f.data].childs;
    TopVisited(g, fs, f.data, f.next);
    TopVisited(g, gs, f.data, f.next + 1);
    KidsSkip(g, cs, f.next, anc);
  }

  /** The calls due for a visited top: its remaining children, then NodeEnd. */
  lemma TopVisited(g: Graph, fs: seq<WalkFrame>, d: XmlData, next: nat)
    requires FramesOk(g, fs) && fs != [] && Last(fs) == WalkFrame(d, true, next)
    ensures d in g && next <= |g[d].childs|
    ensures Pending(g, fs) == ForestCalls(Kids(g, g[d].childs, next, DataOf(fs))) + [End] + Pending(g, Below(fs))
  {
  }

  /** A child not on the stack is pushed as an unvisited frame: the stack stays well formed. */
  lemma PushShape(g: Graph, gs: seq<WalkFrame>, child: XmlData)
    requires FramesOk(g, gs) && gs != [] && child in g && child !in DataOf(gs)
    ensures var hs := gs + [WalkFrame(child, false, 0)];
      && Below(hs) == gs && Last(hs) == WalkFrame(child, false, 0)
      && FramesOk(g, hs) && DataOf(hs) == DataOf(gs) + {child}
      && |g.Keys - DataOf(hs)| < |g.Keys - DataOf(gs)|
  {
    var hs := gs + [WalkFrame(child, false, 0)];
    assert Below(hs) == gs && Last(hs) == WalkFrame(child, false, 0);
    CardStep(g.Keys, DataOf(gs), child);
  }

  /** The calls due for an unvisited top: its whole tree. */
  lemma TopUnvisited(g: Graph, fs: seq<WalkFrame>)
    requires FramesOk(g, fs) && fs != [] && !Last(fs).visited
    ensures Pending(g, fs) == TreeCalls(ToTree(g, Last(fs).data, DataOf(Below(fs)))) + Pending(g, Below(fs))
  {
  }

  /** A child not on the stack is pushed as an unvisited frame; nothing else changes. */
  lemma PendingPush(g: Graph, fs: seq<WalkFrame>)
    requires FramesOk(g, fs) && fs != [] && Last(fs).visited
    requires Last(fs).next < |g[Last(fs).data].childs|
    requires g[Last(fs).data].childs[Last(fs).next] !in DataOf(fs)
    ensures var f := Last(fs);
      var child := g[f.data].childs[f.next];
      var hs := Below(fs) + [f.(next := f.next + 1)] + [WalkFrame(child, false, 0)];
      && FramesOk(g, hs) && Pending(g, hs) == Pending(g, fs)
      && |g.Keys - DataOf(hs)| < |g.Keys - DataOf(fs)|
  {
    var f := Last(fs);
    var child := g[f.data].childs[f.next];
    var gs := Below(fs) + [f.(next := f.next + 1)];
    var hs := gs + [WalkFrame(child, false, 0)];
    PendingAdvance(g, fs);
    PushShape(g, gs, child);
    var anc := DataOf(fs);
    TopVisited(g, fs, f.data, f.next);
    TopVisited(g, gs, f.data, f.next + 1);
    TopUnvisited(g, hs);
    KidsStep(g, g[f.data].childs, f.next, anc);
    var tc := TreeCalls(ToTree(g, child, anc));
    var fc := ForestCalls(Kids(g, g[f.data].childs, f.next + 1, anc));
    var rest := Pending(g, Below(fs));
    assert Pending(g, fs) == tc + fc + [End] + rest;
    assert Pending(g, gs) == fc + [End] + rest;
    assert Pending(g, hs) == tc + (fc + [End] + rest);
    Assoc(tc, fc, [End]);
    Assoc(tc, fc + [End], rest);
  }

  /** A visited top with no children left: only its NodeEnd remains. */
  lemma PendingClose(g: Graph, fs: seq<WalkFrame>)
    requires FramesOk(g, fs) && fs != [] && Last(fs).visited
    requires Last(fs).next == |g[Last(fs).data].childs|
    ensures FramesOk(g, Below(fs)) && Pending(g, fs) == [End] + Pending(g, Below(fs))
    ensures Progress(g, Below(fs), fs)
  {
    var f := Last(fs);
    assert Kids(g, g[f.data].childs, f.next, DataOf(Below(fs)) + {f.data}) == [];
    assert TopCalls(g, fs) == [End];
  }

  lemma ForestCons(t: Tree, ts: seq<Tree>)
    ensures ForestCalls([t] + ts) == TreeCalls(t) + ForestCalls(ts)
  {
    assert ([t] + ts)[0] == t && ([t] + ts)[1..] == ts;
  }

  // ------------------------------------------------ the attribute order

  /** The least key is the head of the key order, and the rest follow. */
  lemma AttrCallsLeast(m: map<Bytes, Bytes>, keys: set<Bytes>, k: Bytes)
    requires keys <= m.Keys && IsLeast(k, keys)
    ensures AttrCalls(m, SortedKeys(keys)) == [AttrName(k), AttrValue(m[k])] + AttrCalls(m, SortedKeys(keys - {k}))
  {
    LeastUnique(k, Least(keys), keys);
    var ks := SortedKeys(keys);
    assert ks == [k] + SortedKeys(keys - {k});
    assert ks[0] == k && ks[1..] == SortedKeys(keys - {k});
  }

  /** The walker's attribute loop, one key at a time, ahead of the calls `rest`. */
  lemma AttrStep(m: map<Bytes, Bytes>, keys: set<Bytes>, k: Bytes, rest: seq<Call>)
    requires keys <= m.Keys && IsLeast(k, keys)
    ensures AttrCalls(m, SortedKeys(keys)) + rest
         == [AttrName(k)] + ([AttrValue(m[k])] + (AttrCalls(m, SortedKeys(keys - {k})) + rest))
  {
    AttrCallsLeast(m, keys, k);
    var more := AttrCalls(m, SortedKeys(keys - {k}));
    assert [AttrName(k), AttrValue(m[k])] == [AttrName(k)] + [AttrValue(m[k])];
    Assoc4([AttrName(k)], [AttrValue(m[k])], more, rest);
    Assoc([AttrValue(m[k])], more, rest);
  }

  lemma AttrDone(m: map<Bytes, Bytes>, rest: seq<Call>)
    ensures AttrCalls(m, SortedKeys({})) + rest == rest
  {
    assert SortedKeys({}) == [];
  }

  // ------------------------------------------------ running the calls

  /** Where a run stands: still to go through `rest` from `st`, or stopped at `st`. */
  ghost predicate Reaches(goal: Step, st: WriterState, ok: bool, rest: seq<Call>, beautiful: bool)
  {
    if ok then goal == Run(st, rest, beautiful) else goal == Step(st, false)
  }

  /** One call of a run: it succeeds and the run goes on, or it fails and the run ends there. */
  lemma Resume(goal: Step, pre: WriterState, c: Call, rest: seq<Call>, beautiful: bool, post: Step)
    requires goal == Run(pre, [c] + rest, beautiful) && post == Apply(pre, c, beautiful)
    ensures Reaches(goal, post.state, post.ok, rest, beautiful)
  {
    RunCons(pre, c, rest, beautiful);
  }
}
