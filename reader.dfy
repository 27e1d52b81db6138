/**
 * The reader classes: the string-view cursor XmlStringViewBufferReader
 * (Xml.cpp:7-18) and the SAX reader XmlSAXReader with readyNodeName and
 * parse (Xml.cpp:77-286). Each loop is proved to do what the functions of
 * ReaderSpec say.
 */
module Reader {
  import opened Bytes
  import opened ReaderSpec

  /** One more than the largest std::size_t. */
  const SizeRange: int := 0x1_0000_0000_0000_0000

  /**
   * A cursor over a byte string: `pos` is the index of the byte last read,
   * -1 before the first call of Next.
   */
  class StringViewReader {
    const xml: Bytes
    var pos: int

    constructor(xml: Bytes)
      ensures this.xml == xml && pos == -1
    {
      this.xml := xml;
      pos := -1;
    }

    /** Moves to the next byte; false exactly when that is the end of the input. */
    method Next() returns (more: bool)
      modifies this
      ensures pos == old(pos) + 1 && (more <==> pos != |xml|)
    {
      pos := pos + 1;
      more := pos != |xml|;
    }

    /** The byte under the cursor, and 0 at the end of the input. */
    function Value(): (b: Byte)
      requires 0 <= pos <= |xml|
      reads this
      ensures pos < |xml| ==> b == xml[pos]
      ensures pos == |xml| ==> b == 0 as char
    {
      if pos == |xml| then 0 as char else xml[pos]
    }

    /** The cursor as a std::size_t: the long long position, -1 wrapping to the largest size. */
    function Offset(): (o: nat)
      requires -1 <= pos
      reads this
      ensures 0 <= pos ==> o == pos
      ensures pos == -1 ==> o == SizeRange - 1
    {
      if pos < 0 then pos + SizeRange else pos
    }
  }

  /**
   * The SAX reader: the error text of the last parse and, for the callbacks
   * whose only effect is console output, the log of the calls made.
   */
  class SaxReader {
    var error: ReadError
    var events: seq<Event>

    constructor()
      ensures error == NoMessage && events == []
    {
      error := NoMessage;
      events := [];
    }

    /** The error text; being const, reading it leaves it in place. */
    function Error(): ReadError
      reads this
    {
      error
    }

    // ------------------------------------------------ the callbacks

    method XmlBegin()
      modifies this
      ensures events == old(events) + [Event.XmlBegin] && error == old(error)
    {
      events := events + [Event.XmlBegin];
    }

    method XmlEnd()
      modifies this
      ensures events == old(events) + [Event.XmlEnd] && error == old(error)
    {
      events := events + [Event.XmlEnd];
    }

    method NodeBegin(name: Bytes)
      modifies this
      ensures events == old(events) + [Event.NodeBegin(name)] && error == old(error)
    {
      events := events + [Event.NodeBegin(name)];
    }

    method AttributeName(name: Bytes)
      modifies this
      ensures events == old(events) + [Event.AttributeName(name)] && error == old(error)
    {
      events := events + [Event.AttributeName(name)];
    }

    method AttributeValue(value: Bytes)
      modifies this
      ensures events == old(events) + [Event.AttributeValue(value)] && error == old(error)
    {
      events := events + [Event.AttributeValue(value)];
    }

    method Value(value: Bytes)
      modifies this
      ensures events == old(events) + [Event.Value(value)] && error == old(error)
    {
      events := events + [Event.Value(value)];
    }

    method NodeEnd()
      modifies this
      ensures events == old(events) + [Event.NodeEnd] && error == old(error)
    {
      events := events + [Event.NodeEnd];
    }

    // ------------------------------------------------ readyNodeName and parse

    /**
     * readyNodeName: reads a tag name after the '<' under the cursor and
     * reports it, leaving the cursor where the name ended. The depth stack
     * is parse's local, passed in and handed back.
     */
    method ReadyNodeName(depth: seq<ReaderType>, buffer: StringViewReader) returns (ok: bool, pushed: seq<ReaderType>)
      requires -1 <= buffer.pos < |buffer.xml|
      modifies this, buffer
      ensures var r := ReadName(buffer.xml, old(buffer.pos), []);
        ok == !r.Failed? && buffer.pos == r.pos && pushed == Push(depth, r) &&
        events == old(events) + NameEvents(r) &&
        error == (if r.Failed? then r.error else old(error))
    {
      ghost var goal := ReadName(buffer.xml, buffer.pos, []);
      var name: Bytes := [];
      var more := buffer.Next();
      while more
        invariant 0 <= buffer.pos <= |buffer.xml| && (more <==> buffer.pos != |buffer.xml|)
        invariant ReadName(buffer.xml, buffer.pos - 1, name) == goal
        invariant events == old(events) && error == old(error)
        decreases |buffer.xml| - buffer.pos
      {
        var ch := buffer.Value();
        if IsControlCode(ch) {
          error := ControlCharacter(buffer.Offset());
          return false, depth;
        }
        if IsSpace(ch) {
          if |name| > 0 {
            NodeBegin(name);
            return true, depth + [ReaderType.NodeBegin];
          } else {
            error := NoMessage;
            return false, depth;
          }
        }
        if ch == '/' {
          if |name| > 0 {
            more := buffer.Next();
            if !more {
              break;
            }
            if buffer.Value() != '>' {
              error := NoMessage;
              return false, depth;
            }
            NodeBegin(name);
            NodeEnd();
            return true, depth;
          } else {
            error := NoMessage;
            return false, depth;
          }
        }
        if ch == '>' {
          if |name| > 0 {
            NodeBegin(name);
            return true, depth + [ReaderType.NodeValue];
          } else {
            error := NoMessage;
            return false, depth;
          }
        }
        if !IsNameChar(ch, |name| == 0) {
          error := NoMessage;
          return false, depth;
        }
        name := name + [ch];
        more := buffer.Next();
      }
      error := NoMessage;
      return false, depth;
    }

    /**
     * parse: reads the input byte by byte from the cursor, handing every
     * '<' where an element may start to ReadyNodeName, and fails on a
     * control byte, on a stray byte outside any element, or on an element
     * still open at the end.
     */
    method Parse(buffer: StringViewReader) returns (ok: bool)
      requires -1 <= buffer.pos < |buffer.xml|
      modifies this, buffer
      ensures var r := ParseFrom(buffer.xml, old(buffer.pos), [], old(events), old(error));
        ok == r.ok && buffer.pos == r.pos && events == r.events && error == r.error
    {
      ghost var goal := ParseFrom(buffer.xml, buffer.pos, [], events, error);
      var depth: seq<ReaderType> := [];
      var more := buffer.Next();
      while more
        invariant 0 <= buffer.pos <= |buffer.xml| && (more <==> buffer.pos != |buffer.xml|)
        invariant ParseFrom(buffer.xml, buffer.pos - 1, depth, events, error) == goal
        decreases |buffer.xml| - buffer.pos
      {
        var ch := buffer.Value();
        if IsSpace(ch) {
        } else if IsControlCode(ch) {
          error := ControlCharacter(buffer.Offset());
          return false;
        } else if depth == [] {
          if ch == '<' {
            XmlBegin();
            var named;
            named, depth := ReadyNodeName(depth, buffer);
            if !named {
              return false;
            }
          } else {
            error := InvalidEntry(ch, buffer.Offset());
            return false;
          }
        } else if ch == '<' {
          if depth[|depth| - 1] == ReaderType.NodeValue {
            var named;
            named, depth := ReadyNodeName(depth, buffer);
            if !named {
              return false;
            }
          } else {
            error := NoMessage;
          }
        } else if ch == '>' || ch == '/' {
          if depth[|depth| - 1] != ReaderType.NodeBegin {
            error := NoMessage;
          }
        } else if ch == '=' {
          if depth[|depth| - 1] != ReaderType.NodeAttribute {
            error := NoMessage;
          }
        } else if ch == '\'' || ch == '"' {
          if depth[|depth| - 1] != ReaderType.NodeAttributeValue {
            error := NoMessage;
          }
        } else if depth[|depth| - 1] != ReaderType.NodeBegin {
          error := NoMessage;
        }
        more := buffer.Next();
      }
      if depth != [] {
        error := NoMessage;
        return false;
      }
      return true;
    }
  }
}
