/**
 * Byte-level predicates shared by the reader and the writer (Xml.cpp:3 and the
 * name-character tests inside readyNodeName and writeName), fixed to the ASCII
 * ("C" locale) meaning of std::isspace, std::isalpha and std::tolower.
 */
module Bytes {

  /** Concatenation regrouped; stated once so that proofs can cite it. */
  lemma Assoc<T>(a: seq<T>, b: seq<T>, c: seq<T>)
    ensures a + b + c == a + (b + c)
  {
  }

  lemma Assoc4<T>(a: seq<T>, b: seq<T>, c: seq<T>, d: seq<T>)
    ensures a + b + c + d == a + (b + c + d)
  {
    Assoc(a, b, c);
    Assoc(a, b + c, d);
    Assoc(b, c, d);
  }

  /** One unsigned byte, written as a character whose code is below 256. */
  type Byte = c: char | c as int < 256

  type Bytes = seq<Byte>

  /** Bytes 0-8, 14-31 and 127: never legal in input or in written text. */
  predicate IsControlCode(b: Byte)
  {
    b as int <= 8 || (14 <= b as int <= 31) || b as int == 127
  }

  /** std::isspace in the "C" locale: space, \t, \n, \v, \f, \r. */
  predicate IsSpace(b: Byte)
  {
    b == ' ' || (9 <= b as int <= 13)
  }

  /** std::isalpha in the "C" locale. */
  predicate IsAlpha(b: Byte)
  {
    ('a' <= b <= 'z') || ('A' <= b <= 'Z')
  }

  /** std::tolower in the "C" locale. */
  function ToLower(b: Byte): (r: Byte)
    ensures 'A' <= b <= 'Z' ==> r as int == b as int + 32
    ensures IsAlpha(b) ==> 'a' <= r <= 'z'
    ensures !('A' <= b <= 'Z') ==> r == b
  {
    if 'A' <= b <= 'Z' then (b as int + 32) as char else b
  }

  /**
   * The name-character rule: the first byte alphabetic, every later byte
   * alphabetic or one of ':' '-' '_' '.'.
   */
  predicate IsNameChar(b: Byte, first: bool)
  {
    IsAlpha(b) || (!first && (b == ':' || b == '-' || b == '_' || b == '.'))
  }

  /** Every byte of `s` passes the name-character rule at its position. */
  predicate IsNameChars(s: Bytes)
  {
    forall i :: 0 <= i < |s| ==> IsNameChar(s[i], i == 0)
  }

  /** A non-empty run of name characters. */
  predicate IsName(s: Bytes)
  {
    |s| > 0 && IsNameChars(s)
  }

  /** The first three bytes of `s` lower-case to "xml". */
  predicate IsReservedName(s: Bytes)
  {
    |s| >= 3 && ToLower(s[0]) == 'x' && ToLower(s[1]) == 'm' && ToLower(s[2]) == 'l'
  }

  predicate HasControl(s: Bytes)
  {
    exists i :: 0 <= i < |s| && IsControlCode(s[i])
  }

  lemma NameCharIsPlain(b: Byte, first: bool)
    requires IsNameChar(b, first)
    ensures !IsControlCode(b) && !IsSpace(b) && b != '/' && b != '>' && b != '<'
  {
  }

  /** The longest prefix of `s` that holds no control byte. */
  function UpToControl(s: Bytes): (r: Bytes)
    ensures |r| <= |s| && r == s[..|r|]
    ensures !HasControl(r)
    ensures |r| < |s| <==> HasControl(s)
    ensures |r| < |s| ==> IsControlCode(s[|r|])
  {
    if s == [] then []
    else if IsControlCode(s[0]) then []
    else [s[0]] + UpToControl(s[1..])
  }

  /**
   * std::string's operator< (Xml.cpp:378): lexicographic order on the
   * unsigned byte values, a proper prefix being smaller.
   */
  predicate Less(a: Bytes, b: Bytes)
    decreases |a|
  {
    if a == [] then b != []
    else if b == [] then false
    else if a[0] != b[0] then a[0] < b[0]
    else Less(a[1..], b[1..])
  }

  predicate LessEq(a: Bytes, b: Bytes)
  {
    !Less(b, a)
  }

  lemma {:induction false} LessIrreflexive(a: Bytes)
    ensures !Less(a, a)
  {
    if a != [] {
      LessIrreflexive(a[1..]);
    }
  }

  lemma {:induction false} LessTrichotomy(a: Bytes, b: Bytes)
    ensures Less(a, b) || a == b || Less(b, a)
  {
    if a != [] && b != [] && a[0] == b[0] {
      LessTrichotomy(a[1..], b[1..]);
      if a[1..] == b[1..] {
        assert a == [a[0]] + a[1..] && b == [b[0]] + b[1..];
      }
    }
  }

  lemma {:induction false} LessAsymmetric(a: Bytes, b: Bytes)
    requires Less(a, b)
    ensures !Less(b, a)
  {
    if a != [] && b != [] && a[0] == b[0] {
      LessAsymmetric(a[1..], b[1..]);
    }
  }

  lemma {:induction false} LessTransitive(a: Bytes, b: Bytes, c: Bytes)
    requires Less(a, b) && Less(b, c)
    ensures Less(a, c)
  {
    if a != [] && a[0] == b[0] && b[0] == c[0] {
      LessTransitive(a[1..], b[1..], c[1..]);
    }
  }

  /** LessEq is a total order: the facts the sorting and key-order proofs use. */
  lemma LessEqTotal(a: Bytes, b: Bytes)
    ensures LessEq(a, b) || LessEq(b, a)
    ensures LessEq(a, b) && LessEq(b, a) ==> a == b
  {
    LessTrichotomy(a, b);
    if Less(a, b) { LessAsymmetric(a, b); }
    if Less(b, a) { LessAsymmetric(b, a); }
  }

  lemma LessEqTransitive(a: Bytes, b: Bytes, c: Bytes)
    requires LessEq(a, b) && LessEq(b, c)
    ensures LessEq(a, c)
  {
    if Less(c, a) {
      LessTrichotomy(a, b);
      LessTrichotomy(b, c);
      if Less(a, b) { LessTransitive(c, a, b); LessAsymmetric(c, b); }
      else if a == b { LessAsymmetric(c, b); }
      else { LessAsymmetric(b, a); }
    }
  }

  /** The least element of a finite non-empty set of byte strings. */
  predicate IsLeast(k: Bytes, s: set<Bytes>)
  {
    k in s && forall k' :: k' in s ==> LessEq(k, k')
  }

  lemma {:induction false} LeastExists(s: set<Bytes>)
    requires s != {}
    ensures exists k :: IsLeast(k, s)
    decreases |s|
  {
    var x :| x in s;
    if s == {x} {
      LessIrreflexive(x);
      assert IsLeast(x, s);
    } else {
      LeastExists(s - {x});
      var k :| IsLeast(k, s - {x});
      LessEqTotal(k, x);
      if LessEq(k, x) {
        assert IsLeast(k, s);
      } else {
        forall k' | k' in s ensures LessEq(x, k') {
          if k' != x { LessEqTransitive(x, k, k'); }
          else { LessIrreflexive(x); }
        }
        assert IsLeast(x, s);
      }
    }
  }

  lemma LeastUnique(k1: Bytes, k2: Bytes, s: set<Bytes>)
    requires IsLeast(k1, s) && IsLeast(k2, s)
    ensures k1 == k2
  {
    LessEqTotal(k1, k2);
  }

  ghost function Least(s: set<Bytes>): (k: Bytes)
    requires s != {}
    ensures IsLeast(k, s)
  {
    LeastExists(s);
    var k :| IsLeast(k, s); k
  }

  /**
   * The keys of a std::map in its iteration order: ascending by Less.
   */
  ghost function SortedKeys(s: set<Bytes>): (ks: seq<Bytes>)
    ensures |ks| == |s|
    ensures forall k :: k in ks <==> k in s
    ensures forall i :: 0 <= i < |ks| ==> ks[i] in s
    decreases |s|
  {
    if s == {} then []
    else
      var k := Least(s);
      assert |s - {k}| == |s| - 1;
      [k] + SortedKeys(s - {k})
  }

  /** The key order of a map is strictly ascending. */
  lemma {:induction false} SortedKeysAscending(s: set<Bytes>)
    ensures forall i, j :: 0 <= i < j < |SortedKeys(s)| ==> Less(SortedKeys(s)[i], SortedKeys(s)[j])
    decreases |s|
  {
    if s != {} {
      var k := Least(s);
      var rest := s - {k};
      assert |rest| == |s| - 1;
      SortedKeysAscending(rest);
      var ks := SortedKeys(s);
      assert ks == [k] + SortedKeys(rest);
      forall i, j | 0 <= i < j < |ks| ensures Less(ks[i], ks[j]) {
        if i == 0 {
          assert ks[j] in rest;
          LessTrichotomy(k, ks[j]);
        }
      }
    }
  }
}
