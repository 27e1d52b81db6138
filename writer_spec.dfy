/**
 * The XmlSAXWriter protocol (Xml.cpp:439-630) as pure functions on a value
 * state: the frame stack, the bytes the sink holds, and the error text. The
 * class in writer.dfy is proved to change its fields exactly as these
 * functions say; the lemmas here state what the protocol promises.
 */
module WriterSpec {
  import opened Bytes

  /** The writer's per-frame state (the enum `Сondition`, Xml.h:195-202). */
  datatype Condition = NodeBegin | NodeAttribute | NodeValue | NodeChilds | NodeEnd

  /** A frame: condition, element name, attribute names written so far (Xml.h:204). */
  datatype Frame = Frame(cond: Condition, name: Bytes, attributes: set<Bytes>)

  /** The error text `_error` (Xml.cpp:422-426); NoError is the empty string. */
  datatype WriterError = NoError | InvalidOperation | InvalidName | ControlCharacterDetect | BufferEnding

  datatype WriterState = WriterState(stack: seq<Frame>, out: Bytes, error: WriterError)

  /** The state after one call, and the call's boolean result. */
  datatype Step = Step(state: WriterState, ok: bool)

  /** The five protocol calls. */
  datatype Call =
    | Begin(name: Bytes)
    | AttrName(name: Bytes)
    | AttrValue(value: Bytes)
    | Text(value: Bytes)
    | End

  function Top(stack: seq<Frame>): Frame
    requires stack != []
  {
    stack[|stack| - 1]
  }

  function SetTopCond(stack: seq<Frame>, c: Condition): (r: seq<Frame>)
    requires stack != []
    ensures |r| == |stack| && r[..|r| - 1] == stack[..|stack| - 1]
    ensures Top(r) == Top(stack).(cond := c)
  {
    stack[..|stack| - 1] + [Top(stack).(cond := c)]
  }

  function Spaces(n: nat): (r: Bytes)
    ensures |r| == n && forall i :: 0 <= i < n ==> r[i] == ' '
  {
    seq(n, i => ' ')
  }

  function NewLine(beautiful: bool): Bytes
  {
    if beautiful then "\n" else []
  }

  // ---------------------------------------------------------------- names

  /** writeName succeeds: the name is not reserved and holds no control byte. */
  predicate NameOk(name: Bytes)
  {
    !IsReservedName(name) && !HasControl(name)
  }

  /** The bytes writeName sends to the sink. */
  function NameOut(name: Bytes): Bytes
  {
    if IsReservedName(name) then [] else UpToControl(name)
  }

  /** `_error` after writeName: an illegal name character only sets the text. */
  function NameError(e: WriterError, name: Bytes): WriterError
  {
    if IsReservedName(name) then InvalidName
    else if HasControl(name) then ControlCharacterDetect
    else if !IsNameChars(name) then InvalidName
    else e
  }

  /** writeName's contract (Xml.cpp:462-496). */
  lemma NameBehaviour(e: WriterError, name: Bytes)
    ensures IsReservedName(name) ==> !NameOk(name) && NameOut(name) == [] && NameError(e, name) == InvalidName
    ensures !IsReservedName(name) && !HasControl(name) ==> NameOk(name) && NameOut(name) == name
    ensures !IsReservedName(name) && !HasControl(name) && !IsNameChars(name) ==> NameError(e, name) == InvalidName
    ensures NameOk(name) && IsNameChars(name) ==> NameError(e, name) == e
    ensures HasControl(name) ==> !NameOk(name) && forall i :: 0 <= i < |NameOut(name)| ==> !IsControlCode(NameOut(name)[i])
  {
    if !IsReservedName(name) && !HasControl(name) {
      UpToControlWhole(name);
    }
  }

  // ------------------------------------------------------------- escaping

  /** The replacement of one byte (the five predefined entities of XML 1.0, section 4.6). */
  function Entity(c: Byte): Bytes
  {
    if c == '<' then "&lt;"
    else if c == '>' then "&gt;"
    else if c == '&' then "&amp;"
    else if c == '"' then "&quot;"
    else if c == '\'' then "&apos;"
    else [c]
  }

  function Escape(s: Bytes): Bytes
  {
    if s == [] then [] else Entity(s[0]) + Escape(s[1..])
  }

  /** The bytes writeValue sends to the sink (Xml.cpp:504-528). */
  function ValueOut(value: Bytes, isAttribute: bool): Bytes
  {
    var q: Bytes := if isAttribute then "\"" else [];
    q + Escape(UpToControl(value)) + (if HasControl(value) then [] else q)
  }

  function ValueError(e: WriterError, value: Bytes): WriterError
  {
    if HasControl(value) then ControlCharacterDetect else e
  }

  predicate IsRawSpecial(c: Byte)
  {
    c == '<' || c == '>' || c == '"' || c == '\'' || c == '&'
  }

  /** An escaped text never holds < > " ' raw, and escaping adds no control byte. */
  lemma {:induction false} EscapeHasNoRawSpecials(s: Bytes)
    ensures forall i :: 0 <= i < |Escape(s)| ==> Escape(s)[i] != '<' && Escape(s)[i] != '>' && Escape(s)[i] != '"' && Escape(s)[i] != '\''
    ensures !HasControl(s) ==> !HasControl(Escape(s))
  {
    if s != [] {
      EscapeHasNoRawSpecials(s[1..]);
      var e := Escape(s);
      assert e == Entity(s[0]) + Escape(s[1..]);
      if !HasControl(s) {
        assert !IsControlCode(s[0]);
        assert !HasControl(s[1..]) by {
          forall i | 0 <= i < |s[1..]| ensures !IsControlCode(s[1..][i]) { assert s[1..][i] == s[i + 1]; }
        }
        forall i | 0 <= i < |e| ensures !IsControlCode(e[i]) {
          if i >= |Entity(s[0])| { assert e[i] == Escape(s[1..])[i - |Entity(s[0])|]; }
        }
      }
    }
  }

  /** `ent` occurs in `e` at index `i`. */
  predicate EntityAt(e: Bytes, i: nat, ent: Bytes)
  {
    i + |ent| <= |e| && e[i..i + |ent|] == ent
  }

  /** One of the five entities occurs in `e` at index `i`. */
  predicate SomeEntityAt(e: Bytes, i: nat)
  {
    EntityAt(e, i, "&lt;") || EntityAt(e, i, "&gt;") || EntityAt(e, i, "&amp;") ||
    EntityAt(e, i, "&quot;") || EntityAt(e, i, "&apos;")
  }

  /** An entity found after a prefix is found at the shifted index of the whole. */
  lemma EntityAtShift(h: Bytes, t: Bytes, j: nat, ent: Bytes)
    ensures EntityAt(t, j, ent) ==> EntityAt(h + t, |h| + j, ent)
  {
    if EntityAt(t, j, ent) {
      assert (h + t)[|h| + j..|h| + j + |ent|] == t[j..j + |ent|];
    }
  }

  /** A '&' inside the replacement of one byte is the start of that entity. */
  lemma AmpersandInEntity(c: Byte, t: Bytes, i: nat)
    requires i < |Entity(c)| && Entity(c)[i] == '&'
    ensures SomeEntityAt(Entity(c) + t, i)
  {
    var e := Entity(c) + t;
    if c == '<' { assert e[0..4] == "&lt;"; }
    else if c == '>' { assert e[0..4] == "&gt;"; }
    else if c == '&' { assert e[0..5] == "&amp;"; }
    else if c == '"' { assert e[0..6] == "&quot;"; }
    else if c == '\'' { assert e[0..6] == "&apos;"; }
  }

  /** A '&' after a prefix of the escaped text keeps the entity it starts. */
  lemma AmpersandAfter(h: Bytes, t: Bytes, j: nat)
    requires SomeEntityAt(t, j)
    ensures SomeEntityAt(h + t, |h| + j)
  {
    EntityAtShift(h, t, j, "&lt;");
    EntityAtShift(h, t, j, "&gt;");
    EntityAtShift(h, t, j, "&amp;");
    EntityAtShift(h, t, j, "&quot;");
    EntityAtShift(h, t, j, "&apos;");
  }

  /** Every '&' of an escaped text starts one of the five entities. */
  lemma {:induction false} EscapeAmpersandStartsEntity(s: Bytes)
    ensures forall i :: 0 <= i < |Escape(s)| && Escape(s)[i] == '&' ==> SomeEntityAt(Escape(s), i)
  {
    if s != [] {
      EscapeAmpersandStartsEntity(s[1..]);
      var h := Entity(s[0]);
      var t := Escape(s[1..]);
      assert Escape(s) == h + t;
      forall i | 0 <= i < |h + t| && (h + t)[i] == '&' ensures SomeEntityAt(h + t, i) {
        if i < |h| {
          AmpersandInEntity(s[0], t, i);
        } else {
          assert t[i - |h|] == '&';
          AmpersandAfter(h, t, i - |h|);
        }
      }
    }
  }

  /** Bytes other than the five specials are copied unchanged. */
  lemma {:induction false} EscapePlain(s: Bytes)
    requires forall i :: 0 <= i < |s| ==> !IsRawSpecial(s[i])
    ensures Escape(s) == s
  {
    if s != [] {
      EscapePlain(s[1..]);
      assert s == [s[0]] + s[1..];
    }
  }

  /**
   * A decoder for the five entities, used only to show that escaping loses
   * no information.
   */
  function Unescape(s: Bytes): Bytes
    decreases |s|
  {
    if s == [] then []
    else if |s| >= 4 && s[..4] == "&lt;" then "<" + Unescape(s[4..])
    else if |s| >= 4 && s[..4] == "&gt;" then ">" + Unescape(s[4..])
    else if |s| >= 5 && s[..5] == "&amp;" then "&" + Unescape(s[5..])
    else if |s| >= 6 && s[..6] == "&quot;" then "\"" + Unescape(s[6..])
    else if |s| >= 6 && s[..6] == "&apos;" then "'" + Unescape(s[6..])
    else [s[0]] + Unescape(s[1..])
  }

  lemma UnescapeEntity(c: Byte, rest: Bytes)
    ensures Unescape(Entity(c) + rest) == [c] + Unescape(rest)
  {
    var s := Entity(c) + rest;
    var n := |Entity(c)|;
    assert s[..n] == Entity(c) && s[n..] == rest;
    assert s[0] == Entity(c)[0];
    if c == '<' {
      assert s[..4] == "&lt;" && s[4..] == rest;
    } else if c == '>' {
      assert s[1] == 'g' && s[..4][1] == 'g';
      assert s[..4] == "&gt;" && s[4..] == rest;
    } else if c == '&' {
      assert s[1] == 'a' && s[..4][1] == 'a';
      assert s[..5] == "&amp;" && s[5..] == rest;
    } else if c == '"' {
      assert s[1] == 'q' && s[..4][1] == 'q' && s[..5][1] == 'q';
      assert s[..6] == "&quot;" && s[6..] == rest;
    } else if c == '\'' {
      assert s[1] == 'a' && s[..4][1] == 'a' && s[..5][2] == 'p' && s[..6][1] == 'a';
      assert s[..6] == "&apos;" && s[6..] == rest;
    } else {
      assert Entity(c) == [c] && s[0] == c && c != '&';
      assert s[1..] == rest;
      if |s| >= 4 { assert s[..4][0] == c; }
      if |s| >= 5 { assert s[..5][0] == c; }
      if |s| >= 6 { assert s[..6][0] == c; }
    }
  }

  /** Escaping is lossless: the entity decoder recovers the original text. */
  lemma {:induction false} EscapeRoundTrip(s: Bytes)
    ensures Unescape(Escape(s)) == s
  {
    if s != [] {
      EscapeRoundTrip(s[1..]);
      UnescapeEntity(s[0], Escape(s[1..]));
      assert s == [s[0]] + s[1..];
    }
  }

  lemma EscapeInjective(s: Bytes, t: Bytes)
    requires Escape(s) == Escape(t)
    ensures s == t
  {
    EscapeRoundTrip(s);
    EscapeRoundTrip(t);
  }

  /** Escaping one more byte appends that byte's replacement. */
  lemma {:induction false} EscapeSnoc(s: Bytes, c: Byte)
    ensures Escape(s + [c]) == Escape(s) + Entity(c)
  {
    if s == [] {
      assert s + [c] == [c];
      assert Escape([c]) == Entity(c) + Escape([]);
    } else {
      EscapeSnoc(s[1..], c);
      var u := s + [c];
      assert u[0] == s[0] && u[1..] == s[1..] + [c];
      assert Escape(u) == Entity(u[0]) + Escape(u[1..]);
      Assoc(Entity(s[0]), Escape(s[1..]), Entity(c));
    }
  }

  /**
   * An attribute value free of control bytes is written as one '"', the
   * escaped body (which holds no raw '"'), and one closing '"'.
   */
  lemma UpToControlWhole(s: Bytes)
    requires !HasControl(s)
    ensures UpToControl(s) == s
  {
    var r := UpToControl(s);
    assert |r| == |s|;
    assert r == s[..|s|];
  }

  lemma AttributeValueQuoted(value: Bytes)
    requires !HasControl(value)
    ensures ValueOut(value, true) == "\"" + Escape(value) + "\""
    ensures forall i :: 0 <= i < |Escape(value)| ==> Escape(value)[i] != '"'
  {
    UpToControlWhole(value);
    EscapeHasNoRawSpecials(value);
  }

  /** A control byte stops writeValue: what reaches the sink precedes it, and holds none. */
  lemma ValueStopsAtControl(value: Bytes, isAttribute: bool)
    requires HasControl(value)
    ensures !HasControl(ValueOut(value, isAttribute))
  {
    EscapeHasNoRawSpecials(UpToControl(value));
    var o := ValueOut(value, isAttribute);
    var q: Bytes := if isAttribute then "\"" else [];
    assert o == q + Escape(UpToControl(value));
    forall i | 0 <= i < |o| ensures !IsControlCode(o[i]) {
      if i >= |q| { assert o[i] == Escape(UpToControl(value))[i - |q|]; }
    }
  }

  // ------------------------------------------------------ the five calls

  /** NodeBegin (Xml.cpp:541-565). */
  function BeginStep(st: WriterState, name: Bytes, beautiful: bool): Step
  {
    if st.stack != [] && (Top(st.stack).cond == NodeValue || Top(st.stack).cond == NodeAttribute) then
      Step(st.(error := InvalidOperation), false)
    else
      var opens := st.stack != [] && Top(st.stack).cond == NodeBegin;
      var stack1 := if opens then SetTopCond(st.stack, NodeChilds) else st.stack;
      var closeParent: Bytes := if opens then ">" + NewLine(beautiful) else [];
      var pad := if beautiful && st.stack != [] then Spaces(4 * |st.stack|) else [];
      var ok := NameOk(name);
      Step(WriterState(if ok then stack1 + [Frame(NodeBegin, name, {})] else stack1,
                       st.out + closeParent + pad + "<" + NameOut(name), NameError(st.error, name)), ok)
  }

  /** AttributeName (Xml.cpp:567-579). */
  function AttrNameStep(st: WriterState, name: Bytes): Step
  {
    if st.stack == [] || Top(st.stack).cond != NodeBegin || name in Top(st.stack).attributes then
      Step(st.(error := InvalidOperation), false)
    else
      var top := Top(st.stack);
      var ok := NameOk(name);
      var stack1 := if ok then st.stack[..|st.stack| - 1] + [Frame(NodeAttribute, top.name, top.attributes + {name})]
                    else st.stack;
      Step(WriterState(stack1, st.out + " " + NameOut(name), NameError(st.error, name)), ok)
  }

  /** AttributeValue (Xml.cpp:581-592). */
  function AttrValueStep(st: WriterState, value: Bytes): Step
  {
    if st.stack == [] || Top(st.stack).cond != NodeAttribute then
      Step(st.(error := InvalidOperation), false)
    else
      var ok := !HasControl(value);
      Step(WriterState(if ok then SetTopCond(st.stack, NodeBegin) else st.stack,
                       st.out + "=" + ValueOut(value, true), ValueError(st.error, value)), ok)
  }

  /** Value (Xml.cpp:594-605). */
  function TextStep(st: WriterState, value: Bytes): Step
  {
    if st.stack == [] || Top(st.stack).cond != NodeBegin then
      Step(st.(error := InvalidOperation), false)
    else
      var ok := !HasControl(value);
      Step(WriterState(if ok then SetTopCond(st.stack, NodeValue) else st.stack,
                       st.out + ">" + ValueOut(value, false), ValueError(st.error, value)), ok)
  }

  /** The stack after the top frame is closed: popped, and the parent marked NodeEnd. */
  function PopFrame(stack: seq<Frame>): (r: seq<Frame>)
    requires stack != []
    ensures |r| == |stack| - 1
  {
    var rest := stack[..|stack| - 1];
    if rest == [] then [] else SetTopCond(rest, NodeEnd)
  }

  /** NodeEnd (Xml.cpp:607-630). */
  function EndStep(st: WriterState, beautiful: bool): Step
  {
    if st.stack == [] || Top(st.stack).cond == NodeAttribute || Top(st.stack).cond == NodeChilds then
      Step(st.(error := InvalidOperation), false)
    else
      var top := Top(st.stack);
      if top.cond == NodeBegin then
        Step(WriterState(PopFrame(st.stack), st.out + "/>" + NewLine(beautiful), st.error), true)
      else
        var pad := if beautiful && top.cond == NodeEnd then Spaces(4 * (|st.stack| - 1)) else [];
        var ok := NameOk(top.name);
        var body := pad + "</" + NameOut(top.name) + (if ok then ">" + NewLine(beautiful) else []);
        Step(WriterState(if ok then PopFrame(st.stack) else st.stack, st.out + body,
                         NameError(st.error, top.name)), ok)
  }

  function Apply(st: WriterState, c: Call, beautiful: bool): Step
  {
    match c
    case Begin(n) => BeginStep(st, n, beautiful)
    case AttrName(n) => AttrNameStep(st, n)
    case AttrValue(v) => AttrValueStep(st, v)
    case Text(v) => TextStep(st, v)
    case End => EndStep(st, beautiful)
  }

  /** A sequence of calls, stopping at the first that returns false. */
  function Run(st: WriterState, calls: seq<Call>, beautiful: bool): Step
    decreases |calls|
  {
    if calls == [] then Step(st, true)
    else
      var s := Apply(st, calls[0], beautiful);
      if s.ok then Run(s.state, calls[1..], beautiful) else s
  }

  function Then(s: Step, calls: seq<Call>, beautiful: bool): Step
  {
    if s.ok then Run(s.state, calls, beautiful) else s
  }

  lemma RunCons(st: WriterState, c: Call, rest: seq<Call>, beautiful: bool)
    ensures Run(st, [c] + rest, beautiful) == Then(Apply(st, c, beautiful), rest, beautiful)
  {
    assert ([c] + rest)[0] == c && ([c] + rest)[1..] == rest;
  }

  lemma {:induction false} RunAppend(st: WriterState, xs: seq<Call>, ys: seq<Call>, beautiful: bool)
    ensures Run(st, xs + ys, beautiful) == Then(Run(st, xs, beautiful), ys, beautiful)
    decreases |xs|
  {
    if xs == [] {
      assert xs + ys == ys;
    } else {
      assert (xs + ys)[0] == xs[0] && (xs + ys)[1..] == xs[1..] + ys;
      var s := Apply(st, xs[0], beautiful);
      if s.ok { RunAppend(s.state, xs[1..], ys, beautiful); }
    }
  }

  // ------------------------------------------------ what the protocol keeps

  /** The call is out of order for the top frame: "Invalid operation". */
  predicate OutOfOrder(stack: seq<Frame>, c: Call)
  {
    match c
    case Begin(_) => stack != [] && (Top(stack).cond == NodeValue || Top(stack).cond == NodeAttribute)
    case AttrName(n) => stack == [] || Top(stack).cond != NodeBegin || n in Top(stack).attributes
    case AttrValue(_) => stack == [] || Top(stack).cond != NodeAttribute
    case Text(_) => stack == [] || Top(stack).cond != NodeBegin
    case End => stack == [] || Top(stack).cond == NodeAttribute || Top(stack).cond == NodeChilds
  }

  /**
   * A call out of order fails with "Invalid operation", writes nothing and
   * leaves the stack alone; a call in order never reports that error.
   */
  lemma OutOfOrderWritesNothing(st: WriterState, c: Call, beautiful: bool)
    requires st.error != InvalidOperation
    ensures OutOfOrder(st.stack, c) <==> Apply(st, c, beautiful).state.error == InvalidOperation
    ensures OutOfOrder(st.stack, c) ==> Apply(st, c, beautiful) == Step(st.(error := InvalidOperation), false)
  {
  }

  /**
   * The stack shape every reachable state has: frames below the top are
   * NodeChilds or NodeEnd (they hold an open child), and every frame's name
   * was written without failure.
   */
  predicate StackShape(stack: seq<Frame>)
  {
    && (forall i :: 0 <= i < |stack| - 1 ==> stack[i].cond == NodeChilds || stack[i].cond == NodeEnd)
    && (forall i :: 0 <= i < |stack| ==> NameOk(stack[i].name))
  }

  /** Every call keeps the stack shape, and changes the depth by at most one. */
  lemma ApplyKeepsShape(st: WriterState, c: Call, beautiful: bool)
    requires StackShape(st.stack)
    ensures StackShape(Apply(st, c, beautiful).state.stack)
    ensures var s := Apply(st, c, beautiful).state;
      |s.stack| == |st.stack| + (if Apply(st, c, beautiful).ok && c.Begin? then 1
                                 else if Apply(st, c, beautiful).ok && c.End? then -1 else 0)
  {
    match c
    case Begin(n) => BeginKeepsShape(st, n, beautiful);
    case AttrName(n) => AttrNameKeepsShape(st, n);
    case AttrValue(v) => TopCondKeepsShape(st.stack, AttrValueStep(st, v).state.stack);
    case Text(v) => TopCondKeepsShape(st.stack, TextStep(st, v).state.stack);
    case End => EndKeepsShape(st, beautiful);
  }

  lemma AttrNameKeepsShape(st: WriterState, n: Bytes)
    requires StackShape(st.stack)
    ensures var r := AttrNameStep(st, n).state.stack; StackShape(r) && |r| == |st.stack|
  {
    var r := AttrNameStep(st, n).state.stack;
    if r != st.stack {
      var top := Top(st.stack);
      var below := st.stack[..|st.stack| - 1];
      assert r == below + [Frame(NodeAttribute, top.name, top.attributes + {n})];
      assert r[..|r| - 1] == below;
      TopCondKeepsShape(st.stack, r);
    }
  }

  /** Changing only the top frame's condition and attributes keeps the shape. */
  lemma TopCondKeepsShape(stack: seq<Frame>, r: seq<Frame>)
    requires StackShape(stack)
    requires r == stack || (stack != [] && |r| == |stack| && r[..|r| - 1] == stack[..|stack| - 1] && Top(r).name == Top(stack).name)
    ensures StackShape(r)
  {
    if r != stack {
      assert forall i :: 0 <= i < |r| - 1 ==> r[i] == r[..|r| - 1][i];
    }
  }

  lemma BeginKeepsShape(st: WriterState, n: Bytes, beautiful: bool)
    requires StackShape(st.stack)
    ensures var r := BeginStep(st, n, beautiful);
      StackShape(r.state.stack) && |r.state.stack| == |st.stack| + (if r.ok then 1 else 0)
  {
    if !OutOfOrder(st.stack, Begin(n)) {
      var s1 := if st.stack != [] && Top(st.stack).cond == NodeBegin then SetTopCond(st.stack, NodeChilds) else st.stack;
      TopCondKeepsShape(st.stack, s1);
      assert BeginStep(st, n, beautiful).state.stack == if NameOk(n) then s1 + [Frame(NodeBegin, n, {})] else s1;
      if NameOk(n) {
        PushKeepsShape(s1, Frame(NodeBegin, n, {}));
      }
    }
  }

  lemma PushKeepsShape(stack: seq<Frame>, f: Frame)
    requires StackShape(stack) && NameOk(f.name)
    requires stack == [] || Top(stack).cond == NodeChilds || Top(stack).cond == NodeEnd
    ensures StackShape(stack + [f])
  {
    assert forall i :: 0 <= i < |stack| ==> (stack + [f])[i] == stack[i];
  }

  lemma EndKeepsShape(st: WriterState, beautiful: bool)
    requires StackShape(st.stack)
    ensures var r := EndStep(st, beautiful);
      StackShape(r.state.stack) && |r.state.stack| == |st.stack| - (if r.ok then 1 else 0)
  {
    var r := EndStep(st, beautiful);
    if r.ok {
      var rest := st.stack[..|st.stack| - 1];
      assert forall i :: 0 <= i < |rest| ==> rest[i] == st.stack[i];
      assert StackShape(rest);
      if rest != [] {
        assert r.state.stack == SetTopCond(rest, NodeEnd);
        TopCondKeepsShape(rest, r.state.stack);
      }
    }
  }

  function Count(calls: seq<Call>, begin: bool): nat
  {
    if calls == [] then 0
    else (if (begin && calls[0].Begin?) || (!begin && calls[0].End?) then 1 else 0) + Count(calls[1..], begin)
  }

  /**
   * Depth accounting: after a sequence of calls that all succeed, the depth
   * grew by the number of NodeBegin calls minus the number of NodeEnd calls.
   */
  lemma {:induction false} RunDepth(st: WriterState, calls: seq<Call>, beautiful: bool)
    requires StackShape(st.stack)
    requires Run(st, calls, beautiful).ok
    ensures StackShape(Run(st, calls, beautiful).state.stack)
    ensures |Run(st, calls, beautiful).state.stack| + Count(calls, false) == |st.stack| + Count(calls, true)
    decreases |calls|
  {
    if calls != [] {
      ApplyKeepsShape(st, calls[0], beautiful);
      RunDepth(Apply(st, calls[0], beautiful).state, calls[1..], beautiful);
    }
  }

  /** Attribute names are unique per element, whatever the DOM holds. */
  lemma AttributeNameTwice(st: WriterState, x: Bytes, v: Bytes, beautiful: bool)
    requires st.stack != [] && Top(st.stack).cond == NodeBegin && x !in Top(st.stack).attributes
    requires NameOk(x) && !HasControl(v)
    ensures var r := Run(st, [AttrName(x), AttrValue(v), AttrName(x)], beautiful);
      !r.ok && r.state.error == InvalidOperation && r.state.out == st.out + " " + NameOut(x) + "=" + ("\"" + Escape(v) + "\"")
  {
    AttributeValueQuoted(v);
    var s1 := AttrNameStep(st, x);
    assert s1.ok;
    var s2 := AttrValueStep(s1.state, v);
    assert s2.ok;
    assert x in Top(s2.state.stack).attributes;
    var s3 := AttrNameStep(s2.state, x);
    assert !s3.ok && s3.state.out == s2.state.out;
    RunCons(st, AttrName(x), [AttrValue(v), AttrName(x)], beautiful);
    RunCons(s1.state, AttrValue(v), [AttrName(x)], beautiful);
    RunCons(s2.state, AttrName(x), [], beautiful);
  }
}
