# XMLParser core in Dafny

A verified model of the core of XMLParser, a small C++ XML library (`Xml.h`, `Xml.cpp`). It covers:

- **Bytes** (`bytes.dfy`): the byte classes the library relies on:
  - `isControlCode`;
  - the C-locale `isspace`, `isalpha` and `tolower`;
  - the narrow name-character rule;
  - the reserved `xml` prefix;
  - `std::string`'s `operator<`, with the ascending key order that `std::map` iterates in.
- **Dom** (`dom.dfy`): `XmlNode`/`XmlData`. A node handle is a reference to one `XmlData` object, so two handles alias one record, just as the `shared_ptr` does. These mutate the record in place:
  - the attribute accessors;
  - `setValue`, `setChilds`, `addChild` and `removeChild`;
  - `copy`.

  The children are put in order by a stable sort by name, which stands for `std::list::sort`.
- **WriterSpec** (`writer_spec.dfy`): the `XmlSAXWriter` protocol as a pure state machine. It keeps a frame stack of `(Сondition, name, attribute names)`, the bytes written so far and the error kind. Each of the five protocol calls is a step function. The lemmas about escaping, names and call order live here.
- **WriterTree** (`writer_tree.dfy`): an element tree as a value. It gives the calls `XmlWriter::write` makes for a tree and the text they produce. For a well-formed tree it proves that the call sequence is accepted and yields exactly that text.
- **Writer** (`writer.dfy`): the imperative classes:
  - the string sink `XmlStringBufferWriter`;
  - `XmlSAXWriter`, whose helpers (`writeChar`, `writeSpace`, `writeName`, `writeString`, `writeValue`) and protocol calls are loops over the sink, each proved equal to its step in WriterSpec;
  - `XmlWriter::write`: the iterative walk over an explicit frame list. It is written as a method `Write` of the writer class, because `XmlWriter` derives from `XmlSAXWriter` and adds nothing but this walk. It is proved to issue exactly the calls of the tree that the records reachable from the root unfold to, skipping a child that is already on the frame list.
- **Walk** (`walk.dfy`): what the walk needs:
  - the record graph;
  - its unfolding into a tree that cuts at ancestors;
  - the pending-call bookkeeping for the frame list;
  - the ancestor search.
- **ReaderSpec** (`reader_spec.dfy`): `readyNodeName` and `XmlSAXReader::parse` as recursive functions over the input. Beside them are the lemmas about what `parse` reports and which inputs it accepts.
- **Reader** (`reader.dfy`): the string-view cursor `XmlStringViewBufferReader` and the reader class. The reader's loops in `readyNodeName` and `parse` are proved equal to the ReaderSpec functions. The callbacks, whose only effect in the library is console output, append to an event log.

Bytes are `char`s below 256 (`Bytes.Byte`), and strings are sequences of them. Error texts are kept as error kinds: the writer's five constants, and for the reader the message kind with its offset and byte.

## Model

| member | source | states |
|---|---|---|
| Bytes.IsControlCode | Xml.cpp:3 | `isControlCode`: bytes 0-8, 14-31 and 127; blanks 9-13 and every printable byte are not control codes (its consequences are stated by UpToControl and NameCharIsPlain) |
| Bytes.UpToControl | Xml.cpp:3 | the longest prefix without a control byte (0-8, 14-31, 127); it is shorter than the input exactly when the input has a control byte, and the byte after it is one |
| Bytes.ToLower | Xml.cpp:472 | lower-cases exactly the letters A-Z and leaves every other byte alone |
| Bytes.IsSpace | Xml.cpp:486 | `std::isspace` in the C locale: the blank and the bytes 9-13 (NameCharIsPlain states that no name byte is one) |
| Bytes.IsAlpha | Xml.cpp:486 | `std::isalpha` in the C locale: the letters A-Z and a-z |
| Bytes.IsNameChar | Xml.cpp:486 | the name rule of `writeName` and `readyNodeName`: a letter, or after the first position also ':', '-', '_' or '.' (NameCharIsPlain states what it excludes) |
| Bytes.IsReservedName | Xml.cpp:466-480 | the first three bytes lower-case to "xml", in any mix of cases (NameBehaviour and BeginReservedName state its effect) |
| Bytes.NameCharIsPlain | Xml.cpp:486 | a legal name byte is never a control byte, a blank, '/', '>' or '<' |
| Bytes.Less | Xml.cpp:378 | `std::string`'s `operator<`: lexicographic on unsigned byte values, a proper prefix first (its order laws are the three rows below) |
| Bytes.LessTrichotomy | Xml.cpp:378 | the byte-string order used by `operator<` and `std::map` is total: less, equal or greater |
| Bytes.LessTransitive | Xml.cpp:378 | the byte-string order is transitive |
| Bytes.LessAsymmetric | Xml.cpp:378 | the byte-string order is asymmetric |
| Bytes.SortedKeys | Xml.cpp:650-654 | the key sequence of an attribute map holds every key exactly once |
| Bytes.SortedKeysAscending | Xml.cpp:650-654 | the keys come in strictly ascending order, the iteration order of `std::map` |
| Dom.NodeLess | Xml.cpp:378 | `XmlNode::operator<` compares the names only (the sort rows below state what ordering by it gives) |
| Dom.Insert | Xml.cpp:342 | one insertion step of the stable sort adds the element and keeps the multiset |
| Dom.SortByName | Xml.cpp:342 | sorting the children is a permutation of them |
| Dom.InsertSorted | Xml.cpp:342 | inserting into a sorted list keeps it sorted |
| Dom.SortSorted | Xml.cpp:342 | the children after `sort()` are ascending by name |
| Dom.SortStable | Xml.cpp:342 | the sort is stable: children with one name keep their relative order |
| Dom.SortIdempotent | Xml.cpp:374-375 | sorting a sorted list changes nothing, so the re-sort in `removeChild` leaves the list as it is |
| Dom.Named | Xml.cpp:349-354 | `child(name)` returns only children with that name, taken from the list |
| Dom.ContainsIffNamed | Xml.cpp:344-354 | `containsChild(name)` holds exactly when `child(name)` is non-empty |
| Dom.AddChildNamed | Xml.cpp:355-362 | after `addChild`, sorted or not, `child(name)` is the old result plus the new node at its end |
| Dom.AddAttributeLaws | Xml.cpp:312 | after `addAttribute` the key maps to the new value, the count grows only for a new key, and other keys are unchanged |
| Dom.RemoveAttributeLaws | Xml.cpp:313 | after `removeAttribute` the key is gone, the count drops only if it was there, and other keys are unchanged |
| Dom.RemoveSkipping | Xml.cpp:363-376 | the erase loop as written keeps only children of the list, and never more of them |
| Dom.EraseNamed | Xml.cpp:365-373 | the erase loop as written, with its extra step after each erase, leaves `RemoveSkipping` of the list and counts the erased children |
| Dom.RemoveKeepsOthers | Xml.cpp:363-376 | even as written, `removeChild` keeps every child with another name, in order |
| Dom.RemoveAllWhenApart | Xml.cpp:363-376 | as written, all children with the name go when no two of them are neighbours |
| Dom.RemoveKeepsSorted | Xml.cpp:363-376 | as written, the result of a sorted list is still sorted |
| Dom.RemoveSkippingKeepsNeighbour | Xml.cpp:366-372 | of two neighbouring children with the name, the loop as written keeps the second, while the intended removal keeps neither |
| Dom.RemoveAgreesWhenApart | Xml.cpp:363-376 | without two neighbouring matches, the loop as written and the intended removal agree |
| Dom.RemoveNamed | Xml.cpp:363-376 | the intended removal keeps only children of the list |
| Dom.RemoveNamedRemovesAll | Xml.cpp:363-376 | the intended removal leaves no child with the name and drops exactly the children with it |
| Dom.RemoveNamedKeepsOthers | Xml.cpp:363-376 | the intended removal keeps every child with another name, in order |
| Dom.RemoveNamedSorted | Xml.cpp:374-375 | the intended removal keeps a sorted list sorted |
| Dom.EraseAll | Xml.cpp:365-373 | the corrected erase loop leaves `RemoveNamed` of the list and counts the erased children |
| Dom.XmlData.constructor | Xml.cpp:291-295 | `XmlNode(name, sort)`: a record with that name and flag, no value, no attributes, no children |
| Dom.XmlData.Empty | Xml.cpp:290 | `XmlNode()`: an empty name and `sort` false, so the node is invalid |
| Dom.XmlData.IsValid | Xml.cpp:297 | a node is valid exactly when its name is non-empty (Empty states the default node is not; AddChild refuses an invalid one) |
| Dom.XmlData.Copy | Xml.cpp:298-303 | `copy()` allocates a new record equal field for field; the child handles are shared |
| Dom.XmlData.AttributesCount | Xml.cpp:304 | the number of keys in the attribute map (AddAttributeLaws and RemoveAttributeLaws state how it changes) |
| Dom.XmlData.ContainsAttribute | Xml.cpp:310 | the key is in the attribute map (AttributeValue and RemoveAttribute are stated with it) |
| Dom.XmlData.AttributeValue | Xml.cpp:311 | the value stored for a present key, and the empty string for a missing one |
| Dom.XmlData.SetAttributes | Xml.cpp:309 | replaces the attribute map and nothing else |
| Dom.XmlData.AddAttribute | Xml.cpp:312 | inserts or overwrites the key, and only the attribute map changes |
| Dom.XmlData.RemoveAttribute | Xml.cpp:313 | erases the key, and only the attribute map changes |
| Dom.XmlData.ClearAttributes | Xml.cpp:314 | empties the attribute map and nothing else |
| Dom.XmlData.IsValue | Xml.cpp:316 | the value is non-empty |
| Dom.XmlData.SetValue | Xml.cpp:319-333 | sets the value and clears the children, keeping value and children exclusive |
| Dom.XmlData.SetChilds | Xml.cpp:338-343 | clears the value and stores the children, sorted by name when the record sorts |
| Dom.XmlData.IsChilds | Xml.cpp:334 | the child list is non-empty |
| Dom.XmlData.ChildsCount | Xml.cpp:335 | the length of the child list |
| Dom.XmlData.ContainsChild | Xml.cpp:344-348 | true exactly when some child has the name |
| Dom.XmlData.Child | Xml.cpp:349-354 | the children with the name, in list order |
| Dom.XmlData.AddChild | Xml.cpp:355-362 | refuses a node with an empty name and changes nothing; otherwise clears the value and appends the node, then sorts when asked |
| Dom.XmlData.RemoveChild | Xml.cpp:363-376 | removes every child with the name and keeps the rest in order and sorted (the corrected loop; see Findings) |
| WriterSpec.SetTopCond | Xml.cpp:554 | changing the top frame's condition leaves the frames below it untouched |
| WriterSpec.Spaces | Xml.cpp:456-460 | `writeSpace(n)` text: exactly n blanks |
| WriterSpec.NameOut | Xml.cpp:462-496 | the bytes `writeName` sends: nothing for a reserved name, else the name up to its first control byte (NameBehaviour states the cases) |
| WriterSpec.ValueOut | Xml.cpp:504-528 | the bytes `writeValue` sends: the escaped text up to the first control byte, in quotes for an attribute, the closing quote only without a control byte (AttributeValueQuoted and ValueStopsAtControl state its properties) |
| WriterSpec.NameBehaviour | Xml.cpp:462-496 | a reserved `xml` name fails with "Invalid name" and writes nothing; a name without control bytes is written whole; a character outside the name rule only sets "Invalid name" and still succeeds; a control byte stops the write before it |
| WriterSpec.EscapeHasNoRawSpecials | Xml.cpp:504-528 | the escaped text holds no raw '<', '>', '"' or ''', and escaping adds no control byte |
| WriterSpec.EscapeAmpersandStartsEntity | Xml.cpp:508-524 | every '&' of an escaped text starts one of the five entities "&lt;", "&gt;", "&amp;", "&quot;" and "&apos;" |
| WriterSpec.EscapePlain | Xml.cpp:522 | a text without the five special bytes is written unchanged |
| WriterSpec.EscapeRoundTrip | Xml.cpp:508-524 | undoing the five predefined entities of section 4.6 of XML 1.0 on the escaped text gives back the input |
| WriterSpec.EscapeInjective | Xml.cpp:508-524 | two different values never escape to the same text |
| WriterSpec.AttributeValueQuoted | Xml.cpp:504-528 | an attribute value is written as one '"', the escaped value and one '"', with no '"' inside |
| WriterSpec.ValueStopsAtControl | Xml.cpp:504-528 | what is written of a value that has a control byte contains no control byte |
| WriterSpec.BeginStep | Xml.cpp:541-565 | `NodeBegin` on the stack, output and error: refused inside an attribute or a value, else closes the parent's start tag, writes '<' and the name and pushes a frame (BeginLegal, ApplyKeepsShape and the name rows state its cases) |
| WriterSpec.AttrNameStep | Xml.cpp:567-579 | `AttributeName`: only on a NodeBegin frame and for a name not yet used there; writes the blank and the name and marks the frame NodeAttribute (AttrLegal, AttributeNameTwice) |
| WriterSpec.AttrValueStep | Xml.cpp:581-592 | `AttributeValue`: only on a NodeAttribute frame; writes '=' and the quoted escaped value and returns the frame to NodeBegin (AttrLegal) |
| WriterSpec.TextStep | Xml.cpp:594-605 | `Value`: only on a NodeBegin frame; writes '>' and the escaped text and marks the frame NodeValue (TextLegal) |
| WriterSpec.EndStep | Xml.cpp:607-630 | `NodeEnd`: refused on an empty stack, in an attribute or with children pending; writes "/>" or the closing tag and pops (EndLegal, EndClosingTag) |
| WriterSpec.OutOfOrderWritesNothing | Xml.cpp:541-613 | a call in a state that does not allow it fails with "Invalid operation", and leaves the stack and the output as they were; no other failure sets that error |
| WriterSpec.ApplyKeepsShape | Xml.cpp:541-630 | each call keeps the frame stack well formed: only the top frame may be NodeBegin, NodeAttribute or NodeValue, and all names are writable; a successful Begin pushes one frame and a successful End pops one |
| WriterSpec.RunDepth | Xml.cpp:541-630 | after a successful run of calls the stack depth is the start depth plus the NodeBegin calls minus the NodeEnd calls |
| WriterSpec.AttributeNameTwice | Xml.cpp:567-579 | a second `AttributeName` with a name already written in the element fails with "Invalid operation" after the first pair was written |
| WriterSpec.RunAppend | Xml.cpp:541-630 | running two call sequences one after the other is running their concatenation |
| WriterTree.LegalNameWrites | Xml.cpp:462-496 | a legal name is written verbatim and leaves the error as it was |
| WriterTree.BeginLegal | Xml.cpp:541-565 | `NodeBegin` with a legal name where a child may start closes the parent's start tag with '>', writes '<' and the name, and pushes a fresh NodeBegin frame |
| WriterTree.AttrLegal | Xml.cpp:567-592 | an attribute pair with a new legal name and a clean value writes ` name="escaped"` and records the name in the top frame |
| WriterTree.TextLegal | Xml.cpp:594-605 | `Value` on an element just begun writes '>' and the escaped text, and marks the frame NodeValue |
| WriterTree.EndLegal | Xml.cpp:607-630 | `NodeEnd` on a NodeBegin frame writes "/>", and on a NodeValue or NodeEnd frame writes "</name>"; it pops the frame |
| WriterTree.EndClosingTag | Xml.cpp:619-623 | `NodeEnd` after a value or after children writes the closing tag, indented when pretty-printing after children |
| WriterTree.CloseWithValue | Xml.cpp:656-661 | an element with a value is written as '>', the escaped value and its closing tag |
| WriterTree.CloseEmpty | Xml.cpp:615 | an element with neither value nor children is closed with "/>" |
| WriterTree.CloseWithChildren | Xml.cpp:664-686 | an element with children is written as '>', each child in list order, then its closing tag |
| WriterTree.RunAttrs | Xml.cpp:650-654 | distinct legal attribute names with clean values are all accepted and written in the given order |
| WriterTree.RunTree | Xml.cpp:636-690 | the calls for a well-formed tree are all accepted and write exactly its serialization |
| WriterTree.RunForest | Xml.cpp:667-683 | the calls for a list of children write their serializations one after another |
| WriterTree.WriteDocument | Xml.cpp:636-690 | from an empty stack, a well-formed tree is written whole, with the stack empty again and the error unchanged |
| WriterTree.RunTreeBalanced | Xml.cpp:636-690 | whenever the calls for any tree succeed, the stack ends at the depth it started from |
| WriterTree.TreeCallsCount | Xml.cpp:636-690 | the calls for a tree hold as many NodeBegin calls as NodeEnd calls |
| WriterTree.BeginIllegalName | Xml.cpp:484-496 | `NodeBegin` with a name that breaks the character rule still writes it and opens the element, with the error set to "Invalid name" |
| WriterTree.BeginReservedName | Xml.cpp:466-480 | `NodeBegin` with a reserved `xml` name fails with "Invalid name" after writing only '<' |
| WriterTree.BeginControlName | Xml.cpp:484-491 | `NodeBegin` with a control byte in the name fails with "Control character detection", having written the name up to that byte |
| Writer.StringBufferWriter.constructor | Xml.cpp:382 | a new sink holds nothing |
| Writer.StringBufferWriter.Write | Xml.cpp:384-389 | appends the byte, counts it and always succeeds |
| Writer.StringBufferWriter.WriteCount | Xml.cpp:391 | the count equals the number of bytes written |
| Writer.StringBufferWriter.Result | Xml.cpp:393 | the bytes written so far, as many as `writeCount()` reports |
| Writer.SaxWriter.constructor | Xml.cpp:530 | a fresh writer has no buffer, pretty-printing off, an empty stack and no error |
| Writer.SaxWriter.Error | Xml.cpp:532 | the error text, read without changing it |
| Writer.SaxWriter.SetBuffer | Xml.cpp:534-539 | installs the sink and the flag and empties the stack |
| Writer.SaxWriter.WriteChar | Xml.cpp:439-454 | a control byte writes nothing and sets "Control character detection"; any other byte is appended once |
| Writer.SaxWriter.WriteSpace | Xml.cpp:456-460 | appends max(count, 0) blanks |
| Writer.SaxWriter.WriteName | Xml.cpp:462-496 | writes and reports exactly what `NameOut`, `NameOk` and `NameError` say (see NameBehaviour) |
| Writer.SaxWriter.WriteString | Xml.cpp:498-502 | writes the text up to its first control byte and succeeds exactly when it has none |
| Writer.SaxWriter.WriteEscaped | Xml.cpp:510-523 | writes one byte or its entity, refusing a control byte |
| Writer.SaxWriter.WriteValue | Xml.cpp:504-528 | writes the escaped value, quoted for an attribute, stopping at the first control byte, and succeeds exactly when there is none |
| Writer.SaxWriter.NodeBegin | Xml.cpp:541-565 | the new stack, output and error are those of `BeginStep` on the old ones |
| Writer.SaxWriter.AttributeName | Xml.cpp:567-579 | the new stack, output and error are those of `AttrNameStep` |
| Writer.SaxWriter.AttributeValue | Xml.cpp:581-592 | the new stack, output and error are those of `AttrValueStep` |
| Writer.SaxWriter.Value | Xml.cpp:594-605 | the new stack, output and error are those of `TextStep` |
| Writer.SaxWriter.WriteEndTag | Xml.cpp:621-625 | writes the indent, "</", the name, and when the name is accepted '>' and the newline |
| Writer.SaxWriter.NodeEnd | Xml.cpp:607-630 | the new stack, output and error are those of `EndStep` |
| Writer.SaxWriter.WriteAttributes | Xml.cpp:650-654 | issues `AttributeName` and `AttributeValue` for each key in ascending order, stopping at the first failure |
| Writer.SaxWriter.Open | Xml.cpp:646-665 | opens an unvisited record: `NodeBegin`, its attributes, and for a value `Value` and `NodeEnd` |
| Writer.SaxWriter.WalkOpen | Xml.cpp:646-665 | the frame list after opening is the frames below (record done) or the record marked visited |
| Writer.SaxWriter.WalkChildren | Xml.cpp:667-683 | advances the child iterator and pushes the child unless its record is already on the frame list |
| Writer.SaxWriter.WalkClose | Xml.cpp:685-686 | issues `NodeEnd` for a record whose children are done and pops it |
| Writer.SaxWriter.WalkFrames | Xml.cpp:644-687 | the walk loop ends in exactly the state the pending calls of the initial frames lead to |
| Writer.SaxWriter.Write | Xml.cpp:636-690 | an empty root name fails with nothing changed; otherwise the writer ends in the state reached by the calls of the root's unfolded tree, and for a well-formed tree succeeds with an empty stack and writes exactly its serialization; whenever it succeeds the stack is empty |
| Walk.OnStack | Xml.cpp:670-679 | true exactly when the child's record is on the frame list |
| Walk.NextChild | Xml.cpp:669 | advancing the child iterator leaves the pending calls as they were and makes progress |
| Walk.PendingStart | Xml.cpp:641 | the initial frame list has the calls of the root's whole tree still pending |
| Walk.PendingPush | Xml.cpp:681 | pushing a child not on the list keeps the pending calls and shrinks the set of records not on the list |
| Walk.PendingSkip | Xml.cpp:672-682 | skipping a child already on the list keeps the pending calls: that child contributes none |
| ReaderSpec.ReadName | Xml.cpp:77-166 | `readyNodeName` from a cursor: the cursor only moves forward; a name that is not a failure is non-empty and stops before the end (ReadNameOutcome and ReadNameShape state the rest) |
| ReaderSpec.Placeholder | Xml.cpp:208-274 | the branches for a byte inside an element keep the error or clear it to an empty message, and clear it for '<', '=' and quotes while the top is NodeBegin or NodeValue |
| ReaderSpec.OpenTag | Xml.cpp:195-214 | a '<' runs `readyNodeName`; a failure stops `parse` there, otherwise parsing resumes after the name, the cursor moving forward |
| ReaderSpec.ParseFrom | Xml.cpp:177-286 | `parse` from a cursor: the cursor only moves forward (ParseOutcome, ParseErrorLocated and ParseAccepts state what it computes) |
| ReaderSpec.ReadNameOutcome | Xml.cpp:77-166 | `readyNodeName` opens an element only as NodeBegin or NodeValue, and a control-byte error points at a control byte of the input |
| ReaderSpec.ReadNameShape | Xml.cpp:77-166 | a successful `readyNodeName` has read a legal non-empty name right after the '<' |
| ReaderSpec.ParseOutcome | Xml.cpp:177-286 | `parse` succeeds only at the end of the input with an empty depth stack and the error it began with; started inside an element it never succeeds |
| ReaderSpec.ParseErrorLocated | Xml.cpp:185-214 | a control-byte error names the offset of a control byte, and an invalid-entry error names the offset and the byte found there, which is never blank, control or '<' |
| ReaderSpec.DepthNeverPops | Xml.cpp:177-286 | nothing in `parse` pops the depth stack |
| ReaderSpec.ParsePieces | Xml.cpp:177-286 | an input made of blanks and empty elements `<name/>` parses, logging XmlBegin, NodeBegin(name) and NodeEnd for each element |
| ReaderSpec.ParsedPieces | Xml.cpp:177-286 | every input that parses is made of blanks and empty elements, and the event log is theirs |
| ReaderSpec.ParseAccepts | Xml.cpp:177-286 | `parse` of a whole input succeeds exactly when the input is a sequence of blanks and empty elements `<name/>` |
| Reader.StringViewReader.constructor | Xml.h:34 | the cursor starts at -1 |
| Reader.StringViewReader.Next | Xml.cpp:9-14 | moves one byte on and is false exactly at the end of the input |
| Reader.StringViewReader.Value | Xml.cpp:16 | the byte under the cursor, and 0 at the end |
| Reader.StringViewReader.Offset | Xml.cpp:18 | the cursor as an unsigned size: the index itself, and -1 wrapped to the largest size |
| Reader.SaxReader.constructor | Xml.cpp:172 | no error text and an empty event log |
| Reader.SaxReader.Error | Xml.cpp:175 | the error text, read without changing it |
| Reader.SaxReader.XmlBegin | Xml.h:84 | logs XmlBegin and nothing else |
| Reader.SaxReader.XmlEnd | Xml.h:85 | logs XmlEnd and nothing else |
| Reader.SaxReader.NodeBegin | Xml.h:87 | logs NodeBegin with the name and nothing else |
| Reader.SaxReader.AttributeName | Xml.h:88 | logs AttributeName with the name and nothing else |
| Reader.SaxReader.AttributeValue | Xml.h:89 | logs AttributeValue with the value and nothing else |
| Reader.SaxReader.Value | Xml.h:90 | logs Value with the value and nothing else |
| Reader.SaxReader.NodeEnd | Xml.h:91 | logs NodeEnd and nothing else |
| Reader.SaxReader.ReadyNodeName | Xml.cpp:77-166 | the loop leaves the cursor, the depth stack, the log and the error exactly as `ReadName` says |
| Reader.SaxReader.Parse | Xml.cpp:177-286 | the loop's result, cursor, log and error are exactly those of `ParseFrom` |

## Left out

- File readers and writers (`XmlFileBufferReader`, `XmlFileBufferWriter`, `XmlWriter::writeToFile`): stream I/O.
- The `std::string` conveniences `XmlWriter::write(std::string&, …)` and `write(const XmlNode&)`: thin wrappers around the sink version.
- Console output of the reader callbacks: each callback appends to an event log instead.
- The `stop` flag, `stopParse` and the `Operation` parameter of `parse`: nothing reads them.
- Locale: `isspace`, `isalpha` and `tolower` are taken with their C-locale ASCII meaning.
- Error texts: kinds only. The reader keeps the message kind with its offset and byte; the text `makeError` formats is not modelled.
- `checkBuffer` and "Invalid buffer": nothing calls it, so a present sink is a precondition (`Ready`) of the writer's members.
- "Buffer ending": the string sink never refuses a byte, so that error cannot arise with it; the sink interface is not modelled for other writers.
- The declared but undefined `nodeName()`, and the plain `value()`, `childs()` and `attributes()` accessors: they hand out the fields, which the model reads directly.
- Reader.SaxReader.Parse: requires the cursor to be before the end. Calling `next()` again after it has returned false moves past the input, which the source does not define.
- Reader.SaxReader.ReadyNodeName: the depth stack is passed in and handed back, instead of by reference. The never-reached `return false` after its loop is the end-of-input branch here.
- The reader's placeholder branches inside elements only overwrite the error text with an empty message. They are modelled exactly so and not extended.
- Dom.XmlData.Copy: the code copies the record and thus shares the child handles (a shallow copy), and the model does the same.
- Reader.SaxReader.Error and Writer.SaxWriter.Error: both have no `ensures`. `error()` is `const`, so its `std::move` copies the text and leaves it in place.
- Reader.StringViewReader.Offset: this is the 0-based index, as the code computes it. `std::size_t` is taken as 64 bits (`SizeRange`), so -1 wraps to 2^64 - 1; other widths are not modelled.
- Writer.SaxWriter.Write: the record graph is a ghost parameter: the set of records reachable from the root, closed under children. The walk's iterators are indices into the child lists.
- Dom.XmlData.RemoveChild: models the removal as intended, erasing every child with the name. The code as written passes over the child after each erased one; that behaviour is `Dom.EraseNamed` (see Findings).

## Findings

| source | as written | input that shows it | evidently intended | confidence | as-written member | corrected member |
|---|---|---|---|---|---|---|
| Xml.cpp:366-372 | after `erase` the loop assigns the returned iterator and then increments it, so the child following an erased child is never examined; when the erased child is the last one, the increment runs past `end()` | children `a`, `a` and `removeChild("a")`: the second `a` stays | every child with the name is removed and the others are kept in order | not executed | Dom.EraseNamed | Dom.EraseAll |
