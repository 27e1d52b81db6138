/**
 * The document tree (Xml.h:94-151, Xml.cpp:290-378). An XmlNode is a shared
 * handle to one XmlData record; here the handle is a reference to an
 * `XmlData` object, so two handles to one record see each other's changes.
 * The name and the sort flag are fixed when the record is made.
 */
module Dom {
  import opened Bytes

  // ------------------------------------------------ order on children

  /** XmlNode::operator< (Xml.cpp:378): by name. */
  predicate NodeLess(a: XmlData, b: XmlData)
  {
    Less(a.name, b.name)
  }

  /** Ascending by name, equal names allowed. */
  predicate Sorted(cs: seq<XmlData>)
  {
    forall i, j :: 0 <= i < j < |cs| ==> LessEq(cs[i].name, cs[j].name)
  }

  /** The children with the given name, in list order. */
  function Named(cs: seq<XmlData>, name: Bytes): (r: seq<XmlData>)
    ensures |r| <= |cs|
    ensures forall i :: 0 <= i < |r| ==> r[i].name == name && r[i] in cs
  {
    if cs == [] then []
    else (if cs[0].name == name then [cs[0]] else []) + Named(cs[1..], name)
  }

  /**
   * Inserts `x` after every element whose name is not greater than its own:
   * the step of a stable sort that takes elements in list order.
   */
  function Insert(s: seq<XmlData>, x: XmlData): (r: seq<XmlData>)
    ensures |r| == |s| + 1 && multiset(r) == multiset(s) + multiset{x}
  {
    if s == [] then [x]
    else if NodeLess(x, s[0]) then [x] + s
    else
      assert s == [s[0]] + s[1..];
      [s[0]] + Insert(s[1..], x)
  }

  /** std::list::sort with operator<: a stable sort by name. */
  function SortByName(cs: seq<XmlData>): (r: seq<XmlData>)
    ensures |r| == |cs| && multiset(r) == multiset(cs)
  {
    if cs == [] then []
    else
      assert cs == cs[..|cs| - 1] + [cs[|cs| - 1]];
      Insert(SortByName(cs[..|cs| - 1]), cs[|cs| - 1])
  }

  lemma {:induction false} InsertSorted(s: seq<XmlData>, x: XmlData)
    requires Sorted(s)
    ensures Sorted(Insert(s, x))
  {
    if s != [] && !NodeLess(x, s[0]) {
      assert Sorted(s[1..]) by {
        forall i, j | 0 <= i < j < |s[1..]| ensures LessEq(s[1..][i].name, s[1..][j].name) {
          assert s[1..][i] == s[i + 1] && s[1..][j] == s[j + 1];
        }
      }
      InsertSorted(s[1..], x);
      var t := Insert(s[1..], x);
      var r := [s[0]] + t;
      forall j | 0 <= j < |t| ensures LessEq(s[0].name, t[j].name) {
        assert t[j] in multiset(t);
        if t[j] == x {
          LessEqTotal(x.name, s[0].name);
        } else {
          assert t[j] in multiset(s[1..]);
          var k :| 0 <= k < |s[1..]| && s[1..][k] == t[j];
          assert s[k + 1] == t[j];
        }
      }
      forall i, j | 0 <= i < j < |r| ensures LessEq(r[i].name, r[j].name) {
        if i == 0 { assert r[j] == t[j - 1]; }
        else { assert r[i] == t[i - 1] && r[j] == t[j - 1]; }
      }
    } else if s != [] {
      var r := [x] + s;
      forall i, j | 0 <= i < j < |r| ensures LessEq(r[i].name, r[j].name) {
        if i == 0 {
          LessEqTotal(x.name, s[0].name);
          LessAsymmetric(x.name, s[0].name);
          if j > 1 { LessEqTransitive(x.name, s[0].name, s[j - 1].name); }
        }
      }
    }
  }

  /** The sort yields name order. */
  lemma {:induction false} SortSorted(cs: seq<XmlData>)
    ensures Sorted(SortByName(cs))
  {
    if cs != [] {
      SortSorted(cs[..|cs| - 1]);
      InsertSorted(SortByName(cs[..|cs| - 1]), cs[|cs| - 1]);
    }
  }

  lemma NamedAppend(a: seq<XmlData>, b: seq<XmlData>, name: Bytes)
    ensures Named(a + b, name) == Named(a, name) + Named(b, name)
  {
    if a == [] {
      assert a + b == b;
    } else {
      assert (a + b)[0] == a[0] && (a + b)[1..] == a[1..] + b;
      NamedAppend(a[1..], b, name);
    }
  }

  /** In a sorted list every name after a greater one is greater too. */
  lemma NoneNamedBelow(s: seq<XmlData>, x: XmlData)
    requires Sorted(s) && s != [] && NodeLess(x, s[0])
    ensures Named(s, x.name) == []
  {
    forall i | 0 <= i < |s| ensures s[i].name != x.name {
      if i == 0 {
        LessIrreflexive(x.name);
      }
    }
    NamedNone(s, x.name);
  }

  lemma {:induction false} NamedNone(s: seq<XmlData>, name: Bytes)
    requires forall i :: 0 <= i < |s| ==> s[i].name != name
    ensures Named(s, name) == []
  {
    if s != [] {
      NamedNone(s[1..], name);
    }
  }

  lemma NamedCons(y: XmlData, t: seq<XmlData>, name: Bytes)
    ensures Named([y] + t, name) == (if y.name == name then [y] else []) + Named(t, name)
  {
    assert ([y] + t)[0] == y && ([y] + t)[1..] == t;
  }

  lemma SortedTail(s: seq<XmlData>)
    requires Sorted(s) && s != []
    ensures Sorted(s[1..])
  {
    forall i, j | 0 <= i < j < |s[1..]| ensures LessEq(s[1..][i].name, s[1..][j].name) {
      assert s[1..][i] == s[i + 1] && s[1..][j] == s[j + 1];
    }
  }

  /** Inserting keeps, for every name, the order of the elements with that name. */
  lemma {:induction false} InsertStable(s: seq<XmlData>, x: XmlData, name: Bytes)
    requires Sorted(s)
    ensures Named(Insert(s, x), name) == Named(s, name) + (if x.name == name then [x] else [])
  {
    var xs: seq<XmlData> := if x.name == name then [x] else [];
    if s == [] {
      NamedCons(x, [], name);
      assert Insert(s, x) == [x] + [];
    } else if NodeLess(x, s[0]) {
      NamedCons(x, s, name);
      if x.name == name {
        NoneNamedBelow(s, x);
      }
    } else {
      SortedTail(s);
      InsertStable(s[1..], x, name);
      var h: seq<XmlData> := if s[0].name == name then [s[0]] else [];
      assert Insert(s, x) == [s[0]] + Insert(s[1..], x);
      NamedCons(s[0], Insert(s[1..], x), name);
      NamedCons(s[0], s[1..], name);
      assert [s[0]] + s[1..] == s;
      Assoc(h, Named(s[1..], name), xs);
    }
  }

  /**
   * The sort is stable: the children of any one name keep their order, so
   * child(name) returns the same list before and after sorting.
   */
  lemma {:induction false} SortStable(cs: seq<XmlData>, name: Bytes)
    ensures Named(SortByName(cs), name) == Named(cs, name)
  {
    if cs != [] {
      var p := cs[..|cs| - 1];
      var x := cs[|cs| - 1];
      SortStable(p, name);
      SortSorted(p);
      InsertStable(SortByName(p), x, name);
      SortByNameLast(cs);
      NamedLast(cs, name);
    }
  }

  lemma SortByNameLast(cs: seq<XmlData>)
    requires cs != []
    ensures SortByName(cs) == Insert(SortByName(cs[..|cs| - 1]), cs[|cs| - 1])
  {
  }

  lemma NamedLast(cs: seq<XmlData>, name: Bytes)
    requires cs != []
    ensures Named(cs, name) == Named(cs[..|cs| - 1], name) + (if cs[|cs| - 1].name == name then [cs[|cs| - 1]] else [])
  {
    var p := cs[..|cs| - 1];
    var x := cs[|cs| - 1];
    assert cs == p + [x];
    NamedAppend(p, [x], name);
    NamedCons(x, [], name);
    assert [x] + [] == [x];
  }

  /** An element not smaller than every element goes to the end. */
  lemma {:induction false} InsertAtEnd(s: seq<XmlData>, x: XmlData)
    requires forall i :: 0 <= i < |s| ==> LessEq(s[i].name, x.name)
    ensures Insert(s, x) == s + [x]
  {
    if s != [] {
      InsertAtEnd(s[1..], x);
      assert s == [s[0]] + s[1..];
    }
  }

  /** Sorting a list already in name order leaves it as it is. */
  lemma {:induction false} SortIdempotent(cs: seq<XmlData>)
    requires Sorted(cs)
    ensures SortByName(cs) == cs
  {
    if cs != [] {
      var p := cs[..|cs| - 1];
      var x := cs[|cs| - 1];
      SortedInit(cs, p);
      SortIdempotent(p);
      InsertAtEnd(p, x);
      SortByNameLast(cs);
      SplitLast(cs);
    }
  }

  lemma SplitLast(cs: seq<XmlData>)
    requires cs != []
    ensures cs[..|cs| - 1] + [cs[|cs| - 1]] == cs
  {
  }

  lemma SortedInit(cs: seq<XmlData>, p: seq<XmlData>)
    requires Sorted(cs) && cs != [] && p == cs[..|cs| - 1]
    ensures Sorted(p)
    ensures forall i :: 0 <= i < |p| ==> LessEq(p[i].name, cs[|cs| - 1].name)
  {
    forall i, j | 0 <= i < j < |p| ensures LessEq(p[i].name, p[j].name) {
      assert p[i] == cs[i] && p[j] == cs[j];
    }
    forall i | 0 <= i < |p| ensures LessEq(p[i].name, cs[|cs| - 1].name) {
      assert p[i] == cs[i];
    }
  }

  // ------------------------------------------------ removeChild as written

  /**
   * What the erase loop of removeChild (Xml.cpp:363-376) leaves: after each
   * erased child the iterator is advanced once more, so the child right
   * after an erased one is kept without being looked at. When the erased
   * child is the last one the source increments past the end, which is
   * undefined; here the loop ends.
   */
  function RemoveSkipping(cs: seq<XmlData>, name: Bytes): (r: seq<XmlData>)
    ensures |r| <= |cs|
    ensures forall x :: x in r ==> x in cs
  {
    if cs == [] then []
    else if cs[0].name != name then [cs[0]] + RemoveSkipping(cs[1..], name)
    else if |cs| == 1 then []
    else [cs[1]] + RemoveSkipping(cs[2..], name)
  }

  /** No two neighbours both carry `name`. */
  predicate NoAdjacent(cs: seq<XmlData>, name: Bytes)
  {
    forall i :: 0 <= i < |cs| - 1 ==> !(cs[i].name == name && cs[i + 1].name == name)
  }

  /** Children with other names are all kept, in order. */
  lemma {:induction false} RemoveKeepsOthers(cs: seq<XmlData>, name: Bytes, other: Bytes)
    requires other != name
    ensures Named(RemoveSkipping(cs, name), other) == Named(cs, other)
    decreases |cs|
  {
    if cs != [] {
      if cs[0].name != name {
        RemoveKeepsOthers(cs[1..], name, other);
        NamedAppend([cs[0]], RemoveSkipping(cs[1..], name), other);
        NamedAppend([cs[0]], cs[1..], other);
        assert [cs[0]] + cs[1..] == cs;
      } else if |cs| > 1 {
        RemoveKeepsOthers(cs[2..], name, other);
        NamedAppend([cs[1]], RemoveSkipping(cs[2..], name), other);
        assert cs[1..] == [cs[1]] + cs[2..];
        NamedAppend([cs[1]], cs[2..], other);
      }
    }
  }

  /** When no two children with that name are neighbours, all of them go. */
  lemma {:induction false} RemoveAllWhenApart(cs: seq<XmlData>, name: Bytes)
    requires NoAdjacent(cs, name)
    ensures Named(RemoveSkipping(cs, name), name) == []
    decreases |cs|
  {
    if cs != [] {
      if cs[0].name != name {
        assert NoAdjacent(cs[1..], name) by {
          forall i | 0 <= i < |cs[1..]| - 1 ensures !(cs[1..][i].name == name && cs[1..][i + 1].name == name) {
            assert cs[1..][i] == cs[i + 1] && cs[1..][i + 1] == cs[i + 2];
          }
        }
        RemoveAllWhenApart(cs[1..], name);
        NamedAppend([cs[0]], RemoveSkipping(cs[1..], name), name);
      } else if |cs| > 1 {
        assert cs[1].name != name;
        assert NoAdjacent(cs[2..], name) by {
          forall i | 0 <= i < |cs[2..]| - 1 ensures !(cs[2..][i].name == name && cs[2..][i + 1].name == name) {
            assert cs[2..][i] == cs[i + 2] && cs[2..][i + 1] == cs[i + 3];
          }
        }
        RemoveAllWhenApart(cs[2..], name);
        NamedAppend([cs[1]], RemoveSkipping(cs[2..], name), name);
      }
    }
  }

  /** A sub-list of a sorted list, as the removeChild loop as written leaves it, is still sorted. */
  lemma {:induction false} RemoveKeepsSorted(cs: seq<XmlData>, name: Bytes)
    requires Sorted(cs)
    ensures Sorted(RemoveSkipping(cs, name))
    decreases |cs|
  {
    if |cs| > 1 {
      var k := if cs[0].name != name then 1 else 2;
      var t := cs[k..];
      assert Sorted(t) by {
        forall i, j | 0 <= i < j < |t| ensures LessEq(t[i].name, t[j].name) {
          assert t[i] == cs[i + k] && t[j] == cs[j + k];
        }
      }
      RemoveKeepsSorted(t, name);
      var head := cs[k - 1];
      var rt := RemoveSkipping(t, name);
      var r := [head] + rt;
      assert RemoveSkipping(cs, name) == r;
      forall j | 0 <= j < |rt| ensures LessEq(head.name, rt[j].name) {
        assert rt[j] in t;
        var m :| 0 <= m < |t| && t[m] == rt[j];
        assert cs[m + k] == rt[j];
      }
      forall i, j | 0 <= i < j < |r| ensures LessEq(r[i].name, r[j].name) {
        if i == 0 { assert r[j] == rt[j - 1]; }
        else { assert r[i] == rt[i - 1] && r[j] == rt[j - 1]; }
      }
    }
  }

  // ------------------------------------------------ child queries

  /**
   * containsChild and child agree: some child has the name exactly when
   * child(name) returns a non-empty list.
   */
  lemma {:induction false} ContainsIffNamed(cs: seq<XmlData>, n: Bytes)
    ensures Named(cs, n) != [] <==> exists i :: 0 <= i < |cs| && cs[i].name == n
  {
    if cs != [] {
      ContainsIffNamed(cs[1..], n);
      if cs[0].name != n {
        if exists i :: 0 <= i < |cs| && cs[i].name == n {
          var i :| 0 <= i < |cs| && cs[i].name == n;
          assert cs[1..][i - 1].name == n;
        }
        if exists i :: 0 <= i < |cs[1..]| && cs[1..][i].name == n {
          var i :| 0 <= i < |cs[1..]| && cs[1..][i].name == n;
          assert cs[i + 1].name == n;
        }
      }
    }
  }

  /**
   * After addChild the new node is the last of the children with its name,
   * whether or not the list is sorted: child(name) grows by exactly it.
   */
  lemma AddChildNamed(cs: seq<XmlData>, node: XmlData, sort: bool)
    ensures Named(if sort then SortByName(cs + [node]) else cs + [node], node.name) == Named(cs, node.name) + [node]
  {
    NamedAppend(cs, [node], node.name);
    NamedCons(node, [], node.name);
    assert [node] + [] == [node];
    if sort {
      SortStable(cs + [node], node.name);
    }
  }

  // ------------------------------------------------ attribute maps

  /**
   * std::map's insert-or-assign, as addAttribute uses it: the key holds the
   * new value, the count grows only for a new key, other keys are untouched.
   */
  lemma AddAttributeLaws(m: map<Bytes, Bytes>, k: Bytes, v: Bytes, other: Bytes)
    requires other != k
    ensures k in m[k := v] && m[k := v][k] == v && |m[k := v]| == |m| + (if k in m then 0 else 1)
    ensures (other in m[k := v] <==> other in m) && (other in m ==> m[k := v][other] == m[other])
  {
    if k in m {
      assert m[k := v].Keys == m.Keys;
    } else {
      assert m[k := v].Keys == m.Keys + {k};
    }
  }

  /** std::map's erase, as removeAttribute uses it. */
  lemma RemoveAttributeLaws(m: map<Bytes, Bytes>, k: Bytes, other: Bytes)
    requires other != k
    ensures k !in m - {k} && |m - {k}| == |m| - (if k in m then 1 else 0)
    ensures (other in m - {k} <==> other in m) && (other in m ==> (m - {k})[other] == m[other])
  {
    if k in m {
      assert (m - {k}).Keys == m.Keys - {k};
    } else {
      assert m - {k} == m;
    }
  }

  // ------------------------------------------------ the record

  /** XmlData (Xml.h:102-108), reached through XmlNode handles. */
  class XmlData {
    const name: Bytes
    const sort: bool
    var value: Bytes
    var attributes: map<Bytes, Bytes>
    var childs: seq<XmlData>

    /**
     * What every mutator keeps: a value and children are never both held,
     * and a sorting record keeps its children in name order.
     */
    predicate Valid()
      reads this
    {
      (value == [] || childs == []) && (sort ==> Sorted(childs))
    }

    /** XmlNode(name, sort = true) (Xml.cpp:291-295). */
    constructor(name: Bytes, sort: bool := true)
      ensures this.name == name && this.sort == sort
      ensures value == [] && attributes == map[] && childs == [] && Valid()
    {
      this.name := name;
      this.sort := sort;
      value := [];
      attributes := map[];
      childs := [];
    }

    /** XmlNode() (Xml.cpp:290): no name, no sorting; such a node is not valid. */
    constructor Empty()
      ensures name == [] && !sort && value == [] && attributes == map[] && childs == [] && Valid()
    {
      name := [];
      sort := false;
      value := [];
      attributes := map[];
      childs := [];
    }

    predicate IsValid()
      reads this
    {
      name != []
    }

    /**
     * copy() (Xml.cpp:298-303): a new record with the same contents. The
     * children list is copied as a list of handles, so the children
     * themselves are shared with the original.
     */
    method Copy() returns (c: XmlData)
      ensures fresh(c)
      ensures c.name == name && c.sort == sort && c.value == value
      ensures c.attributes == attributes && c.childs == childs
      ensures Valid() ==> c.Valid()
    {
      c := new XmlData(name, sort);
      c.value := value;
      c.attributes := attributes;
      c.childs := childs;
    }

    // -------------------------------------------- attributes

    function AttributesCount(): nat
      reads this
    {
      |attributes|
    }

    method SetAttributes(m: map<Bytes, Bytes>)
      modifies this
      ensures attributes == m && value == old(value) && childs == old(childs)
    {
      attributes := m;
    }

    predicate ContainsAttribute(k: Bytes)
      reads this
    {
      k in attributes
    }

    /** attributeValue (Xml.cpp:311): the stored value, or empty when the key is absent. */
    function AttributeValue(k: Bytes): (v: Bytes)
      reads this
      ensures ContainsAttribute(k) ==> v == attributes[k]
      ensures !ContainsAttribute(k) ==> v == []
    {
      if k in attributes then attributes[k] else []
    }

    method AddAttribute(k: Bytes, v: Bytes)
      modifies this
      ensures attributes == old(attributes)[k := v] && value == old(value) && childs == old(childs)
      ensures AttributeValue(k) == v
    {
      attributes := attributes[k := v];
    }

    method RemoveAttribute(k: Bytes)
      modifies this
      ensures attributes == old(attributes) - {k} && value == old(value) && childs == old(childs)
      ensures !ContainsAttribute(k)
    {
      attributes := attributes - {k};
    }

    method ClearAttributes()
      modifies this
      ensures attributes == map[] && value == old(value) && childs == old(childs)
    {
      attributes := map[];
    }

    // -------------------------------------------- value

    predicate IsValue()
      reads this
    {
      value != []
    }

    /** setValue (Xml.cpp:319-333): the children go, the value is set. */
    method SetValue(v: Bytes)
      requires Valid()
      modifies this
      ensures Valid() && value == v && childs == [] && attributes == old(attributes)
    {
      childs := [];
      value := v;
    }

    // -------------------------------------------- children

    predicate IsChilds()
      reads this
    {
      childs != []
    }

    function ChildsCount(): nat
      reads this
    {
      |childs|
    }

    /** setChilds (Xml.cpp:338-343): the value goes, the list is taken and sorted when asked. */
    method SetChilds(cs: seq<XmlData>)
      requires Valid()
      modifies this
      ensures Valid() && value == [] && attributes == old(attributes)
      ensures childs == if sort then SortByName(cs) else cs
    {
      value := [];
      childs := cs;
      if sort {
        SortSorted(childs);
        childs := SortByName(childs);
      }
    }

    /** containsChild (Xml.cpp:344-348): some child has the name. */
    method ContainsChild(n: Bytes) returns (found: bool)
      ensures found <==> exists i :: 0 <= i < |childs| && childs[i].name == n
    {
      for i := 0 to |childs|
        invariant forall j :: 0 <= j < i ==> childs[j].name != n
      {
        if childs[i].name == n {
          return true;
        }
      }
      return false;
    }

    /** child (Xml.cpp:349-354): the children with the name, in list order. */
    method Child(n: Bytes) returns (r: seq<XmlData>)
      ensures r == Named(childs, n)
    {
      r := [];
      for i := 0 to |childs|
        invariant r == Named(childs[..i], n)
      {
        NamedAppend(childs[..i], [childs[i]], n);
        assert childs[..i + 1] == childs[..i] + [childs[i]];
        assert Named([childs[i]], n) == (if childs[i].name == n then [childs[i]] else []) + Named([], n);
        if childs[i].name == n {
          r := r + [childs[i]];
        }
      }
      assert childs[..|childs|] == childs;
    }

    /**
     * addChild (Xml.cpp:355-362): a node without a name is refused and
     * nothing changes; otherwise the value goes and the node is appended,
     * then the list is sorted when asked.
     */
    method AddChild(node: XmlData) returns (ok: bool)
      requires Valid()
      modifies this
      ensures Valid() && ok == node.IsValid() && attributes == old(attributes)
      ensures !ok ==> value == old(value) && childs == old(childs)
      ensures ok ==> value == [] && childs == if sort then SortByName(old(childs) + [node]) else old(childs) + [node]
    {
      if !node.IsValid() {
        return false;
      }
      value := [];
      childs := childs + [node];
      if sort {
        SortSorted(childs);
        childs := SortByName(childs);
      }
      return true;
    }

    /**
     * removeChild (Xml.cpp:363-376) as evidently intended: every child with
     * the name goes, the others stay in order, and the list is re-sorted
     * when anything went and sorting is asked for (a no-op, since a
     * sub-list of a sorted list is sorted). The loop as written, which
     * passes over the child after each erased one, is EraseNamed below.
     */
    method RemoveChild(n: Bytes)
      requires Valid()
      modifies this
      ensures Valid() && value == old(value) && attributes == old(attributes)
      ensures childs == RemoveNamed(old(childs), n)
    {
      if sort {
        RemoveNamedSorted(childs, n);
      }
      var cs, count := EraseAll(childs, n);
      childs := cs;
      if count > 0 && sort {
        SortIdempotent(childs);
        childs := SortByName(childs);
      }
    }
  }

  /**
   * The erase loop of removeChild on the list itself: the step after an
   * erase lands on the child that followed the erased one, and the loop's
   * own increment then passes over it. `count` is the number erased.
   */
  method EraseNamed(list: seq<XmlData>, n: Bytes) returns (cs: seq<XmlData>, count: nat)
    ensures cs == RemoveSkipping(list, n)
    ensures count == |list| - |cs|
  {
    cs := list;
    count := 0;
    var i := 0;
    while i < |cs|
      invariant 0 <= i <= |cs| && count == |list| - |cs|
      invariant RemoveSkipping(list, n) == cs[..i] + RemoveSkipping(cs[i..], n)
      decreases |cs| - i
    {
      if cs[i].name == n {
        ghost var before := cs;
        cs := cs[..i] + cs[i + 1..];
        count := count + 1;
        if i == |cs| {
          EraseLast(before, i, n);
          return;
        }
        EraseThenSkip(before, i, n);
      } else {
        KeepOne(cs, i, n);
      }
      i := i + 1;
    }
    assert cs[..i] == cs && cs[i..] == [];
  }

  /** The erase loop's step over a child with another name. */
  lemma KeepOne(cs: seq<XmlData>, i: nat, n: Bytes)
    requires i < |cs| && cs[i].name != n
    ensures cs[..i] + RemoveSkipping(cs[i..], n) == cs[..i + 1] + RemoveSkipping(cs[i + 1..], n)
  {
    assert cs[i..][1..] == cs[i + 1..];
    assert cs[..i + 1] == cs[..i] + [cs[i]];
  }

  /** The erase loop's step over a match that is not last: erase, then skip the next. */
  lemma EraseThenSkip(cs: seq<XmlData>, i: nat, n: Bytes)
    requires i + 1 < |cs| && cs[i].name == n
    ensures var e := cs[..i] + cs[i + 1..];
      cs[..i] + RemoveSkipping(cs[i..], n) == e[..i + 1] + RemoveSkipping(e[i + 1..], n)
  {
    var e := cs[..i] + cs[i + 1..];
    assert cs[i..][1] == e[i] && cs[i..][2..] == e[i + 1..];
    assert e[..i + 1] == cs[..i] + [e[i]];
  }

  /** The erase loop's last step when the match is the last child. */
  lemma EraseLast(cs: seq<XmlData>, i: nat, n: Bytes)
    requires i + 1 == |cs| && cs[i].name == n
    ensures cs[..i] + RemoveSkipping(cs[i..], n) == cs[..i] + cs[i + 1..]
  {
    assert cs[i..] == [cs[i]];
    assert cs[i + 1..] == [];
  }

  // ------------------------------------------------ removeChild as intended

  /** The children whose name is not `name`, in list order. */
  function RemoveNamed(cs: seq<XmlData>, name: Bytes): (r: seq<XmlData>)
    ensures |r| <= |cs|
    ensures forall x :: x in r ==> x in cs
  {
    if cs == [] then []
    else (if cs[0].name != name then [cs[0]] else []) + RemoveNamed(cs[1..], name)
  }

  /** No child with the name is left, and exactly those children are gone. */
  lemma {:induction false} RemoveNamedRemovesAll(cs: seq<XmlData>, name: Bytes)
    ensures Named(RemoveNamed(cs, name), name) == []
    ensures |RemoveNamed(cs, name)| == |cs| - |Named(cs, name)|
    decreases |cs|
  {
    if cs != [] {
      RemoveNamedRemovesAll(cs[1..], name);
      var head := if cs[0].name != name then [cs[0]] else [];
      NamedAppend(head, RemoveNamed(cs[1..], name), name);
    }
  }

  /** Children with other names are all kept, in order. */
  lemma {:induction false} RemoveNamedKeepsOthers(cs: seq<XmlData>, name: Bytes, other: Bytes)
    requires other != name
    ensures Named(RemoveNamed(cs, name), other) == Named(cs, other)
    decreases |cs|
  {
    if cs != [] {
      RemoveNamedKeepsOthers(cs[1..], name, other);
      var head := if cs[0].name != name then [cs[0]] else [];
      NamedAppend(head, RemoveNamed(cs[1..], name), other);
    }
  }

  /** A sorted list stays sorted. */
  lemma {:induction false} RemoveNamedSorted(cs: seq<XmlData>, name: Bytes)
    requires Sorted(cs)
    ensures Sorted(RemoveNamed(cs, name))
    decreases |cs|
  {
    if cs != [] {
      var t := cs[1..];
      assert Sorted(t) by {
        forall i, j | 0 <= i < j < |t| ensures LessEq(t[i].name, t[j].name) {
          assert t[i] == cs[i + 1] && t[j] == cs[j + 1];
        }
      }
      RemoveNamedSorted(t, name);
      var rt := RemoveNamed(t, name);
      if cs[0].name != name {
        var r := [cs[0]] + rt;
        forall j | 0 <= j < |rt| ensures LessEq(cs[0].name, rt[j].name) {
          assert rt[j] in t;
          var m :| 0 <= m < |t| && t[m] == rt[j];
          assert cs[m + 1] == rt[j];
        }
        forall i, j | 0 <= i < j < |r| ensures LessEq(r[i].name, r[j].name) {
          if i == 0 { assert r[j] == rt[j - 1]; }
          else { assert r[i] == rt[i - 1] && r[j] == rt[j - 1]; }
        }
      } else {
        assert RemoveNamed(cs, name) == rt;
      }
    }
  }

  /** Two neighbours with the name: the loop as written keeps the second, the intended removal neither. */
  lemma RemoveSkippingKeepsNeighbour(a: XmlData, b: XmlData)
    requires a.name == b.name
    ensures RemoveSkipping([a, b], a.name) == [b]
    ensures RemoveNamed([a, b], a.name) == []
  {
    assert [a, b][2..] == [];
    assert [a, b][1..] == [b];
    assert [b][1..] == [];
  }

  /** When no two children with the name are neighbours, both removals agree. */
  lemma {:induction false} RemoveAgreesWhenApart(cs: seq<XmlData>, name: Bytes)
    requires NoAdjacent(cs, name)
    ensures RemoveSkipping(cs, name) == RemoveNamed(cs, name)
    decreases |cs|
  {
    if cs != [] {
      assert NoAdjacent(cs[1..], name) by {
        forall i | 0 <= i < |cs[1..]| - 1 ensures !(cs[1..][i].name == name && cs[1..][i + 1].name == name) {
          assert cs[1..][i] == cs[i + 1] && cs[1..][i + 1] == cs[i + 2];
        }
      }
      RemoveAgreesWhenApart(cs[1..], name);
      if cs[0].name == name && |cs| > 1 {
        assert cs[1].name != name;
        assert cs[1..][1..] == cs[2..];
      }
    }
  }

  /**
   * The erase loop of removeChild as intended: after an erase the loop
   * looks at the child that moved into the erased one's place.
   */
  method EraseAll(list: seq<XmlData>, n: Bytes) returns (cs: seq<XmlData>, count: nat)
    ensures cs == RemoveNamed(list, n)
    ensures count == |list| - |cs|
  {
    cs := list;
    count := 0;
    var i := 0;
    while i < |cs|
      invariant 0 <= i <= |cs| && count == |list| - |cs|
      invariant RemoveNamed(list, n) == cs[..i] + RemoveNamed(cs[i..], n)
      decreases |cs| - i
    {
      if cs[i].name == n {
        ghost var before := cs;
        cs := cs[..i] + cs[i + 1..];
        count := count + 1;
        assert before[i..][1..] == cs[i..];
        assert before[..i] == cs[..i];
      } else {
        KeepNamed(cs, i, n);
        i := i + 1;
      }
    }
    assert cs[..i] == cs && cs[i..] == [];
  }

  /** EraseAll's step over a child with another name. */
  lemma KeepNamed(cs: seq<XmlData>, i: nat, n: Bytes)
    requires i < |cs| && cs[i].name != n
    ensures cs[..i] + RemoveNamed(cs[i..], n) == cs[..i + 1] + RemoveNamed(cs[i + 1..], n)
  {
    assert cs[i..][1..] == cs[i + 1..];
    assert cs[..i + 1] == cs[..i] + [cs[i]];
  }
}
