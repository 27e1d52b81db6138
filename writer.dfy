/**
 * The writer classes: XmlStringBufferWriter (Xml.cpp:382-392) and
 * XmlSAXWriter (Xml.cpp:422-630). Every protocol method changes the writer's
 * fields and the sink's text exactly as the step functions of WriterSpec say.
 */
module Writer {
  import opened Bytes
  import opened WriterSpec
  import opened WriterTree
  import opened Dom
  import opened Walk

  /** The string sink: every byte is appended, and the count follows the text. */
  class StringBufferWriter {
    var xml: Bytes
    var count: nat

    /** The byte count is the length of the text collected so far. */
    predicate Valid()
      reads this
    {
      count == |xml|
    }

    constructor()
      ensures Valid() && xml == []
    {
      xml := [];
      count := 0;
    }

    /** Appends one byte; a string sink never runs out of room. */
    method Write(ch: Byte) returns (ok: bool)
      requires Valid()
      modifies this
      ensures Valid() && ok && xml == old(xml) + [ch]
    {
      count := count + 1;
      xml := xml + [ch];
      ok := true;
    }

    function WriteCount(): (n: nat)
      requires Valid()
      reads this
      ensures n == |xml|
    {
      count
    }

    function Result(): (r: Bytes)
      reads this
      ensures Valid() ==> |r| == WriteCount()
    {
      xml
    }
  }

  /**
   * XmlSAXWriter: the frame stack, the sink, the pretty-printing flag and
   * the error text. No frame is ever left holding a name that failed.
   */
  class SaxWriter {
    var stack: seq<Frame>
    var buffer: StringBufferWriter?
    var beautiful: bool
    var error: WriterError

    /** A sink is set; every protocol call requires one. */
    predicate Ready()
      reads this, buffer
    {
      buffer != null && buffer.Valid()
    }

    /** The abstract state the step functions work on. */
    function State(): WriterState
      requires buffer != null
      reads this, buffer
    {
      WriterState(stack, buffer.xml, error)
    }

    constructor()
      ensures stack == [] && buffer == null && !beautiful && error == NoError
    {
      stack := [];
      buffer := null;
      beautiful := false;
      error := NoError;
    }

    /** The error text; reading it leaves it in place. */
    function Error(): WriterError
      reads this
    {
      error
    }

    /** Drops every open frame and directs the output to `b`. */
    method SetBuffer(b: StringBufferWriter, beautiful: bool)
      modifies this
      ensures stack == [] && buffer == b && this.beautiful == beautiful && error == old(error)
    {
      stack := [];
      buffer := b;
      this.beautiful := beautiful;
    }

    // ------------------------------------------------ the byte writers

    method WriteChar(ch: Byte) returns (ok: bool)
      requires Ready()
      modifies this, buffer
      ensures Ready() && buffer == old(buffer) && stack == old(stack) && beautiful == old(beautiful)
      ensures ok == !IsControlCode(ch)
      ensures buffer.xml == if ok then old(buffer.xml) + [ch] else old(buffer.xml)
      ensures error == if ok then old(error) else ControlCharacterDetect
    {
      if IsControlCode(ch) {
        error := ControlCharacterDetect;
        return false;
      }
      ok := buffer.Write(ch);
      error := if ok then error else BufferEnding;
    }

    method WriteSpace(count: int)
      requires Ready()
      modifies this, buffer
      ensures Ready() && buffer == old(buffer) && stack == old(stack) && beautiful == old(beautiful)
      ensures buffer.xml == old(buffer.xml) + Spaces(if count < 0 then 0 else count) && error == old(error)
    {
      var i := 0;
      while i < count
        invariant Ready() && buffer == old(buffer) && stack == old(stack) && beautiful == old(beautiful)
        invariant 0 <= i && (count >= 0 ==> i <= count) && (count < 0 ==> i == 0)
        invariant buffer.xml == old(buffer.xml) + Spaces(i) && error == old(error)
      {
        var _ := WriteChar(' ');
        assert Spaces(i) + [' '] == Spaces(i + 1);
        i := i + 1;
      }
      assert buffer.xml == old(buffer.xml) + Spaces(if count < 0 then 0 else count);
    }

    /**
     * writeName: a reserved name fails before anything is written; every
     * other byte is checked against the name-character rule (a miss only
     * sets "Invalid name") and written, stopping at a control byte.
     */
    method WriteName(name: Bytes) returns (ok: bool)
      requires Ready()
      modifies this, buffer
      ensures Ready() && buffer == old(buffer) && stack == old(stack) && beautiful == old(beautiful)
      ensures ok == NameOk(name)
      ensures buffer.xml == old(buffer.xml) + NameOut(name)
      ensures error == NameError(old(error), name)
    {
      var i := 0;
      if |name| >= 3 {
        var xml: Bytes := "xml";
        while i < 3
          invariant 0 <= i <= 3
          invariant forall j :: 0 <= j < i ==> ToLower(name[j]) == xml[j]
        {
          if xml[i] != ToLower(name[i]) {
            break;
          }
          i := i + 1;
        }
      }
      if i == 3 {
        error := InvalidName;
        return false;
      }
      assert !IsReservedName(name);
      i := 0;
      while i < |name|
        invariant Ready() && buffer == old(buffer) && stack == old(stack) && beautiful == old(beautiful)
        invariant 0 <= i <= |name|
        invariant !HasControl(name[..i])
        invariant buffer.xml == old(buffer.xml) + name[..i]
        invariant error == if IsNameChars(name[..i]) then old(error) else InvalidName
      {
        var c := name[i];
        NameCharsSnoc(name, i);
        if IsSpace(c) || (i == 0 && !IsAlpha(c)) || (!IsAlpha(c) && c != ':' && c != '-' && c != '_' && c != '.') {
          error := InvalidName;
        }
        var w := WriteChar(c);
        if !w {
          UpToControlAt(name, i);
          return false;
        }
        NoControlSnoc(name, i);
        assert name[..i + 1] == name[..i] + [c];
        i := i + 1;
      }
      assert name[..i] == name;
      UpToControlWhole(name);
      return true;
    }

    /** writeString: every byte, stopping at a control byte. */
    method WriteString(s: Bytes) returns (ok: bool)
      requires Ready()
      modifies this, buffer
      ensures Ready() && buffer == old(buffer) && stack == old(stack) && beautiful == old(beautiful)
      ensures ok == !HasControl(s) && buffer.xml == old(buffer.xml) + UpToControl(s)
      ensures error == ValueError(old(error), s)
    {
      var i := 0;
      while i < |s|
        invariant Ready() && buffer == old(buffer) && stack == old(stack) && beautiful == old(beautiful)
        invariant 0 <= i <= |s|
        invariant !HasControl(s[..i]) && buffer.xml == old(buffer.xml) + s[..i] && error == old(error)
      {
        var w := WriteChar(s[i]);
        if !w {
          UpToControlAt(s, i);
          return false;
        }
        NoControlSnoc(s, i);
        assert s[..i + 1] == s[..i] + [s[i]];
        i := i + 1;
      }
      assert s[..i] == s;
      UpToControlWhole(s);
      return true;
    }

    /** One byte of writeValue: a special becomes its entity, any other byte is written as is. */
    method WriteEscaped(c: Byte) returns (ok: bool)
      requires Ready()
      modifies this, buffer
      ensures Ready() && buffer == old(buffer) && stack == old(stack) && beautiful == old(beautiful)
      ensures ok == !IsControlCode(c)
      ensures buffer.xml == if ok then old(buffer.xml) + Entity(c) else old(buffer.xml)
      ensures error == if ok then old(error) else ControlCharacterDetect
    {
      if IsRawSpecial(c) {
        EntityIsPlain(c);
        ok := WriteString(Entity(c));
        UpToControlWhole(Entity(c));
      } else {
        ok := WriteChar(c);
        assert Entity(c) == [c];
      }
    }

    /**
     * writeValue: the five specials become entities, every other byte is
     * written as is; an attribute value is quoted. A control byte stops it.
     */
    method WriteValue(value: Bytes, isAttribute: bool) returns (ok: bool)
      requires Ready()
      modifies this, buffer
      ensures Ready() && buffer == old(buffer) && stack == old(stack) && beautiful == old(beautiful)
      ensures ok == !HasControl(value)
      ensures buffer.xml == old(buffer.xml) + ValueOut(value, isAttribute)
      ensures error == ValueError(old(error), value)
    {
      var q: Bytes := if isAttribute then "\"" else [];
      if isAttribute {
        var _ := WriteChar('"');
      }
      assert buffer.xml == old(buffer.xml) + q;
      var i := 0;
      while i < |value|
        invariant Ready() && buffer == old(buffer) && stack == old(stack) && beautiful == old(beautiful)
        invariant 0 <= i <= |value|
        invariant !HasControl(value[..i]) && error == old(error)
        invariant buffer.xml == old(buffer.xml) + q + Escape(value[..i])
      {
        var c := value[i];
        var w := WriteEscaped(c);
        if !w {
          UpToControlAt(value, i);
          ValueOutAtControl(value, isAttribute, i);
          Assoc(old(buffer.xml), q, Escape(value[..i]));
          return false;
        }
        EscapeSnoc(value[..i], c);
        NoControlSnoc(value, i);
        assert value[..i + 1] == value[..i] + [c];
        Assoc(old(buffer.xml) + q, Escape(value[..i]), Entity(c));
        i := i + 1;
      }
      assert value[..i] == value;
      UpToControlWhole(value);
      ghost var o := buffer.xml;
      if isAttribute {
        var _ := WriteChar('"');
      }
      assert buffer.xml == o + q;
      assert ValueOut(value, isAttribute) == q + Escape(value) + q;
      Assoc4(old(buffer.xml), q, Escape(value), q);
      return true;
    }

    // ------------------------------------------------ the five calls

    /** NodeBegin: see BeginStep. */
    method NodeBegin(name: Bytes) returns (ok: bool)
      requires Ready()
      modifies this, buffer
      ensures Ready() && buffer == old(buffer) && beautiful == old(beautiful)
      ensures var r := BeginStep(old(State()), name, beautiful);
        ok == r.ok && stack == r.state.stack && buffer.xml == r.state.out && error == r.state.error
    {
      if stack != [] && (Top(stack).cond == NodeValue || Top(stack).cond == NodeAttribute) {
        error := InvalidOperation;
        return false;
      }
      ghost var opens := stack != [] && Top(stack).cond == Condition.NodeBegin;
      ghost var pad: Bytes := if beautiful && stack != [] then Spaces(4 * |stack|) else [];
      if stack != [] {
        if Top(stack).cond == Condition.NodeBegin {
          var _ := WriteChar('>');
          ghost var o1 := buffer.xml;
          if beautiful {
            var _ := WriteChar('\n');
          }
          assert buffer.xml == o1 + NewLine(beautiful);
          Assoc(old(buffer.xml), ">", NewLine(beautiful));
          stack := SetTopCond(stack, NodeChilds);
        }
        ghost var o2 := buffer.xml;
        if beautiful {
          WriteSpace(4 * |stack|);
        }
        assert buffer.xml == o2 + pad;
      }
      ghost var o := buffer.xml;
      assert o == old(buffer.xml) + (if opens then ">" + NewLine(beautiful) else []) + pad;
      var _ := WriteChar('<');
      ok := WriteName(name);
      assert buffer.xml == o + "<" + NameOut(name);
      if ok {
        stack := stack + [Frame(Condition.NodeBegin, name, {})];
      }
    }

    /** AttributeName: see AttrNameStep. */
    method AttributeName(name: Bytes) returns (ok: bool)
      requires Ready()
      modifies this, buffer
      ensures Ready() && buffer == old(buffer) && beautiful == old(beautiful)
      ensures var r := AttrNameStep(old(State()), name);
        ok == r.ok && stack == r.state.stack && buffer.xml == r.state.out && error == r.state.error
    {
      if stack == [] || Top(stack).cond != Condition.NodeBegin || name in Top(stack).attributes {
        error := InvalidOperation;
        return false;
      }
      var _ := WriteChar(' ');
      ok := WriteName(name);
      if ok {
        var top := Top(stack);
        stack := stack[..|stack| - 1] + [Frame(NodeAttribute, top.name, top.attributes + {name})];
      }
    }

    /** AttributeValue: see AttrValueStep. */
    method AttributeValue(value: Bytes) returns (ok: bool)
      requires Ready()
      modifies this, buffer
      ensures Ready() && buffer == old(buffer) && beautiful == old(beautiful)
      ensures var r := AttrValueStep(old(State()), value);
        ok == r.ok && stack == r.state.stack && buffer.xml == r.state.out && error == r.state.error
    {
      if stack == [] || Top(stack).cond != NodeAttribute {
        error := InvalidOperation;
        return false;
      }
      var _ := WriteChar('=');
      ok := WriteValue(value, true);
      if ok {
        stack := SetTopCond(stack, Condition.NodeBegin);
      }
    }

    /** Value: see TextStep. */
    method Value(value: Bytes) returns (ok: bool)
      requires Ready()
      modifies this, buffer
      ensures Ready() && buffer == old(buffer) && beautiful == old(beautiful)
      ensures var r := TextStep(old(State()), value);
        ok == r.ok && stack == r.state.stack && buffer.xml == r.state.out && error == r.state.error
    {
      if stack == [] || Top(stack).cond != Condition.NodeBegin {
        error := InvalidOperation;
        return false;
      }
      var _ := WriteChar('>');
      ok := WriteValue(value, false);
      if ok {
        stack := SetTopCond(stack, NodeValue);
      }
    }

    /** The closing tag of a frame that holds a value or children: indentation, "</", name, ">". */
    method WriteEndTag(name: Bytes, indent: nat) returns (ok: bool)
      requires Ready()
      modifies this, buffer
      ensures Ready() && buffer == old(buffer) && stack == old(stack) && beautiful == old(beautiful)
      ensures ok == NameOk(name) && error == NameError(old(error), name)
      ensures buffer.xml == old(buffer.xml) + (Spaces(indent) + "</" + NameOut(name) + (if ok then ">" + NewLine(beautiful) else []))
    {
      ghost var o := buffer.xml;
      if indent > 0 {
        WriteSpace(indent);
      }
      assert buffer.xml == o + Spaces(indent);
      var _ := WriteChar('<');
      var _ := WriteChar('/');
      assert buffer.xml == o + Spaces(indent) + "</";
      ok := WriteName(name);
      ghost var p := Spaces(indent) + "</" + NameOut(name);
      Assoc4(o, Spaces(indent), "</", NameOut(name));
      assert buffer.xml == o + p;
      if !ok {
        assert p + [] == p;
        return false;
      }
      var _ := WriteChar('>');
      ghost var o2 := buffer.xml;
      assert o2 == o + p + ">";
      if beautiful {
        var _ := WriteChar('\n');
      }
      assert buffer.xml == o2 + NewLine(beautiful);
      Assoc(o + p, ">", NewLine(beautiful));
      Assoc(o, p, ">" + NewLine(beautiful));
    }

    /** NodeEnd: see EndStep. */
    method NodeEnd() returns (ok: bool)
      requires Ready()
      modifies this, buffer
      ensures Ready() && buffer == old(buffer) && beautiful == old(beautiful)
      ensures var r := EndStep(old(State()), beautiful);
        ok == r.ok && stack == r.state.stack && buffer.xml == r.state.out && error == r.state.error
    {
      if stack == [] || Top(stack).cond == NodeAttribute || Top(stack).cond == NodeChilds {
        error := InvalidOperation;
        return false;
      }
      var top := Top(stack);
      ghost var o := buffer.xml;
      if top.cond == Condition.NodeBegin {
        var _ := WriteChar('/');
        var _ := WriteChar('>');
        assert buffer.xml == o + "/>";
        if beautiful {
          var _ := WriteChar('\n');
        }
        assert buffer.xml == o + "/>" + NewLine(beautiful);
      } else {
        var indent := if beautiful && top.cond == Condition.NodeEnd then 4 * (|stack| - 1) else 0;
        ok := WriteEndTag(top.name, indent);
        if !ok {
          return false;
        }
      }
      stack := PopFrame(stack);
      ok := true;
    }

    // ------------------------------------------------ XmlWriter::write

    /** One call of the protocol, as XmlWriter::write issues it on the way to `goal`. */
    method Issue(c: Call, ghost rest: seq<Call>, ghost goal: Step) returns (ok: bool)
      requires Ready() && Reaches(goal, State(), true, [c] + rest, beautiful)
      modifies this, buffer
      ensures Ready() && buffer == old(buffer) && beautiful == old(beautiful)
      ensures Reaches(goal, State(), ok, rest, beautiful)
    {
      ghost var pre := State();
      ghost var post := Apply(pre, c, beautiful);
      match c
      case Begin(n) => ok := NodeBegin(n);
      case AttrName(n) => ok := AttributeName(n);
      case AttrValue(v) => ok := AttributeValue(v);
      case Text(v) => ok := Value(v);
      case End => ok := NodeEnd();
      assert ok == post.ok && State() == post.state;
      Resume(goal, pre, c, rest, beautiful, post);
    }

    /** The attributes of one record in key order, each as AttributeName then AttributeValue. */
    method WriteAttributes(m: map<Bytes, Bytes>, ghost rest: seq<Call>, ghost goal: Step) returns (ok: bool)
      requires Ready() && Reaches(goal, State(), true, AttrCalls(m, SortedKeys(m.Keys)) + rest, beautiful)
      modifies this, buffer
      ensures Ready() && buffer == old(buffer) && beautiful == old(beautiful)
      ensures Reaches(goal, State(), ok, rest, beautiful)
    {
      var keys := m.Keys;
      while keys != {}
        invariant Ready() && buffer == old(buffer) && beautiful == old(beautiful)
        invariant keys <= m.Keys
        invariant Reaches(goal, State(), true, AttrCalls(m, SortedKeys(keys)) + rest, beautiful)
        decreases |keys|
      {
        LeastExists(keys);
        var k :| k in keys && IsLeast(k, keys);
        AttrStep(m, keys, k, rest);
        ghost var tail := AttrCalls(m, SortedKeys(keys - {k})) + rest;
        ok := Issue(AttrName(k), [AttrValue(m[k])] + tail, goal);
        if !ok {
          return;
        }
        ok := Issue(AttrValue(m[k]), tail, goal);
        if !ok {
          return;
        }
        keys := keys - {k};
      }
      AttrDone(m, rest);
      ok := true;
    }

    /**
     * The part of XmlWriter::write's loop for a record met the first time:
     * NodeBegin, its attributes, and for a record with a value, Value and
     * NodeEnd. What is left is `tail` (the children and NodeEnd) and `below`,
     * or `below` alone after a value.
     */
    method Open(d: XmlData, ghost tail: seq<Call>, ghost below: seq<Call>, ghost goal: Step) returns (ok: bool)
      requires Ready() && (d.value != [] ==> tail == [Text(d.value), End])
      requires Reaches(goal, State(), true,
                       [Begin(d.name)] + AttrCalls(d.attributes, SortedKeys(d.attributes.Keys)) + tail + below, beautiful)
      modifies this, buffer
      ensures Ready() && buffer == old(buffer) && beautiful == old(beautiful)
      ensures Reaches(goal, State(), ok, if d.value != [] then below else tail + below, beautiful)
    {
      ghost var attrs := AttrCalls(d.attributes, SortedKeys(d.attributes.Keys));
      Assoc4([Begin(d.name)], attrs, tail, below);
      Assoc(attrs, tail, below);
      ok := Issue(Begin(d.name), attrs + (tail + below), goal);
      if !ok {
        return;
      }
      ok := WriteAttributes(d.attributes, tail + below, goal);
      if !ok || d.value == [] {
        return;
      }
      assert tail + below == [Text(d.value)] + ([End] + below);
      ok := Issue(Text(d.value), [End] + below, goal);
      if !ok {
        return;
      }
      ok := Issue(End, below, goal);
    }

    /**
     * XmlWriter::write: a record without a name is refused before anything
     * changes; otherwise the writer issues exactly the calls of the tree
     * unfolded from `root` (children already on the path passed over), and
     * ends where running those calls ends.
     */
    method Write(b: StringBufferWriter, root: XmlData, beautiful: bool, ghost repr: set<XmlData>) returns (ok: bool)
      requires b.Valid() && root in repr && ClosedUnder(Snapshot(repr))
      modifies this, b
      ensures root.name == [] ==> !ok && unchanged(this) && unchanged(b)
      ensures root.name != [] ==> Ready() && buffer == b && this.beautiful == beautiful
      ensures root.name != [] ==>
        var r := Run(WriterState([], old(b.xml), old(error)), TreeCalls(ToTree(old(Snapshot(repr)), root, {})), beautiful);
        ok == r.ok && stack == r.state.stack && b.xml == r.state.out && error == r.state.error
      ensures root.name != [] && WellFormed(ToTree(old(Snapshot(repr)), root, {})) ==>
        ok && stack == [] && b.xml == old(b.xml) + Serialize(ToTree(old(Snapshot(repr)), root, {}), 0, beautiful)
        && error == old(error)
      ensures root.name != [] && ok ==> stack == []
    {
      if root.name == [] {
        return false;
      }
      ghost var g := Snapshot(repr);
      ghost var s0 := WriterState([], b.xml, error);
      if WellFormed(ToTree(g, root, {})) {
        WriteDocument(s0, ToTree(g, root, {}), beautiful);
      }
      var frames := [WalkFrame(root, false, 0)];
      SetBuffer(b, beautiful);
      PendingStart(g, root);
      ghost var goal := Run(State(), Pending(g, frames), beautiful);
      ok := WalkFrames(frames, g, goal);
      assert goal == Step(State(), ok);
      if ok {
        RunTreeBalanced(s0, ToTree(g, root, {}), beautiful);
      }
    }

    /** The loop of XmlWriter::write over its stack of frames. */
    method WalkFrames(frames: seq<WalkFrame>, ghost g: Graph, ghost goal: Step) returns (ok: bool)
      requires Ready() && FramesOk(g, frames) && Mirrors(g)
      requires Reaches(goal, State(), true, Pending(g, frames), beautiful)
      modifies this, buffer
      ensures Ready() && buffer == old(buffer) && beautiful == old(beautiful)
      ensures goal == Step(State(), ok)
    {
      var frames := frames;
      while frames != []
        invariant Ready() && buffer == old(buffer) && beautiful == old(beautiful)
        invariant FramesOk(g, frames) && Mirrors(g)
        invariant Reaches(goal, State(), true, Pending(g, frames), beautiful)
        decreases |Pending(g, frames)|, |g.Keys - DataOf(frames)|, TopCount(g, frames)
      {
        ok, frames := WalkStep(frames, g, goal);
        if !ok {
          return;
        }
      }
      assert Pending(g, frames) == [];
      ok := true;
    }

    /**
     * One turn of the loop of XmlWriter::write: open the top record if it is
     * new, then, unless it had a value, move to its next child or close it.
     */
    method WalkStep(fs: seq<WalkFrame>, ghost g: Graph, ghost goal: Step) returns (ok: bool, gs: seq<WalkFrame>)
      requires Ready() && FramesOk(g, fs) && fs != [] && Mirrors(g)
      requires Reaches(goal, State(), true, Pending(g, fs), beautiful)
      modifies this, buffer
      ensures Ready() && buffer == old(buffer) && beautiful == old(beautiful) && Mirrors(g)
      ensures !ok ==> goal == Step(State(), false)
      ensures ok ==> FramesOk(g, gs) && Reaches(goal, State(), true, Pending(g, gs), beautiful) && Progress(g, gs, fs)
    {
      if Last(fs).visited {
        ok, gs := WalkChildren(fs, g, goal);
        return;
      }
      ok, gs := WalkOpen(fs, g, goal);
      if !ok || Last(fs).data.value != [] {
        return;
      }
      ghost var marked := gs;
      ok, gs := WalkChildren(gs, g, goal);
      if ok {
        ProgressAfterOpen(g, gs, marked, fs);
      }
    }

    /** A record met the first time: its head calls, and a pop or the mark `visited`. */
    method WalkOpen(fs: seq<WalkFrame>, ghost g: Graph, ghost goal: Step) returns (ok: bool, gs: seq<WalkFrame>)
      requires Ready() && FramesOk(g, fs) && fs != [] && !Last(fs).visited && Mirrors(g)
      requires Reaches(goal, State(), true, Pending(g, fs), beautiful)
      modifies this, buffer
      ensures Ready() && buffer == old(buffer) && beautiful == old(beautiful) && Mirrors(g)
      ensures !ok ==> goal == Step(State(), false)
      ensures ok ==> FramesOk(g, gs) && Reaches(goal, State(), true, Pending(g, gs), beautiful)
      ensures ok ==> |Pending(g, gs)| < |Pending(g, fs)|
      ensures ok ==> gs == if Last(fs).data.value != [] then Below(fs) else Below(fs) + [WalkFrame(Last(fs).data, true, 0)]
    {
      var d := Last(fs).data;
      assert g[d] == View(d);
      ghost var tail, below := OpenPlan(g, fs);
      ok := Open(d, tail, below, goal);
      gs := if d.value != [] then Below(fs) else Below(fs) + [WalkFrame(d, true, 0)];
    }

    /** A visited record: enter or pass over its next child, or close it. */
    method WalkChildren(fs: seq<WalkFrame>, ghost g: Graph, ghost goal: Step) returns (ok: bool, gs: seq<WalkFrame>)
      requires Ready() && FramesOk(g, fs) && fs != [] && Last(fs).visited && Mirrors(g)
      requires Reaches(goal, State(), true, Pending(g, fs), beautiful)
      modifies this, buffer
      ensures Ready() && buffer == old(buffer) && beautiful == old(beautiful) && Mirrors(g)
      ensures !ok ==> goal == Step(State(), false)
      ensures ok ==> FramesOk(g, gs) && Reaches(goal, State(), true, Pending(g, gs), beautiful) && Progress(g, gs, fs)
    {
      var top := Last(fs);
      assert g[top.data] == View(top.data);
      if top.next < |top.data.childs| {
        gs := NextChild(fs, g);
        assert Reaches(goal, State(), true, Pending(g, gs), beautiful);
        ok := true;
      } else {
        ok, gs := WalkClose(fs, g, goal);
      }
    }

    /** A visited record with no child left: NodeEnd, and its frame is popped. */
    method WalkClose(fs: seq<WalkFrame>, ghost g: Graph, ghost goal: Step) returns (ok: bool, gs: seq<WalkFrame>)
      requires Ready() && FramesOk(g, fs) && fs != [] && Last(fs).visited
      requires Last(fs).next == |g[Last(fs).data].childs|
      requires Reaches(goal, State(), true, Pending(g, fs), beautiful)
      modifies this, buffer
      ensures Ready() && buffer == old(buffer) && beautiful == old(beautiful)
      ensures !ok ==> goal == Step(State(), false)
      ensures ok ==> FramesOk(g, gs) && Reaches(goal, State(), true, Pending(g, gs), beautiful) && Progress(g, gs, fs)
    {
      PendingClose(g, fs);
      ok := Issue(End, Pending(g, Below(fs)), goal);
      gs := Below(fs);
    }
  }

  // ------------------------------------------------ helper facts

  lemma NameCharsSnoc(s: Bytes, i: nat)
    requires i < |s|
    ensures IsNameChars(s[..i + 1]) <==> IsNameChars(s[..i]) && IsNameChar(s[i], i == 0)
  {
    var p := s[..i + 1];
    assert forall j :: 0 <= j < i ==> p[j] == s[..i][j];
    if IsNameChars(s[..i]) && IsNameChar(s[i], i == 0) {
      forall j | 0 <= j < |p| ensures IsNameChar(p[j], j == 0) {
        if j < i { assert p[j] == s[..i][j]; }
      }
    }
    if IsNameChars(p) {
      assert IsNameChar(p[i], i == 0);
      forall j | 0 <= j < i ensures IsNameChar(s[..i][j], j == 0) {
        assert p[j] == s[..i][j];
      }
    }
  }

  lemma NoControlSnoc(s: Bytes, i: nat)
    requires i < |s| && !HasControl(s[..i]) && !IsControlCode(s[i])
    ensures !HasControl(s[..i + 1])
  {
    var p := s[..i + 1];
    forall j | 0 <= j < |p| ensures !IsControlCode(p[j]) {
      if j < i { assert p[j] == s[..i][j]; }
    }
  }

  /** The first control byte is where writing stops. */
  lemma {:induction false} UpToControlAt(s: Bytes, i: nat)
    requires i < |s| && !HasControl(s[..i]) && IsControlCode(s[i])
    ensures UpToControl(s) == s[..i] && HasControl(s)
  {
    assert HasControl(s);
  }

  lemma EntityIsPlain(c: Byte)
    requires IsRawSpecial(c)
    ensures !HasControl(Entity(c))
  {
    var e := Entity(c);
    forall j | 0 <= j < |e| ensures !IsControlCode(e[j]) {
    }
  }

  lemma ValueOutAtControl(value: Bytes, isAttribute: bool, i: nat)
    requires i < |value| && UpToControl(value) == value[..i] && HasControl(value)
    ensures ValueOut(value, isAttribute) == (if isAttribute then "\"" else []) + Escape(value[..i])
  {
    var q: Bytes := if isAttribute then "\"" else [];
    assert ValueOut(value, isAttribute) == q + Escape(value[..i]) + [];
  }
}
