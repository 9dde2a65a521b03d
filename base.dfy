/** Small shared vocabulary: optional values, error results, and the few
    Python string operations the core relies on (ASCII `lower`, whitespace
    `split`/`strip`, substring tests, decimal rendering of integers). */
module Base {

  datatype Option<+T> = None | Some(value: T)

  /** A Python exception that escapes a call, by its class. */
  datatype Error = TypeError | AttributeError | ValueError | KeyError

  datatype Result<+T> = Ok(value: T) | Err(error: Error)

  // ---------------------------------------------------------------------
  // Characters and case

  function LowerChar(c: char): char
  {
    if 'A' <= c <= 'Z' then (c as int + 32) as char else c
  }

  /** `s.lower()` restricted to ASCII letters. */
  function Lower(s: string): (r: string)
    ensures |r| == |s|
    ensures forall i :: 0 <= i < |s| ==> r[i] == LowerChar(s[i])
  {
    if s == [] then [] else [LowerChar(s[0])] + Lower(s[1..])
  }

  /** The ASCII characters Python's `str.isspace` accepts. */
  predicate IsSpace(c: char)
  {
    c == ' ' || ('\t' <= c <= '\r') || (28 <= c as int <= 31)
  }

  // ---------------------------------------------------------------------
  // strip()

  function TrimLeft(s: string): (r: string)
    ensures |r| <= |s|
    ensures r == s[|s| - |r|..]
    ensures r != [] ==> !IsSpace(r[0])
  {
    if s != [] && IsSpace(s[0]) then TrimLeft(s[1..]) else s
  }

  function TrimRight(s: string): (r: string)
    ensures |r| <= |s|
    ensures r == s[..|r|]
    ensures r != [] ==> !IsSpace(r[|r| - 1])
  {
    if s != [] && IsSpace(s[|s| - 1]) then TrimRight(s[..|s| - 1]) else s
  }

  /** `s.strip()`: the input without leading and trailing whitespace. */
  function Strip(s: string): (r: string)
    ensures |r| <= |s|
    ensures r != [] ==> !IsSpace(r[0]) && !IsSpace(r[|r| - 1])
  {
    TrimRight(TrimLeft(s))
  }

  // ---------------------------------------------------------------------
  // split()

  /** The first whitespace-free run of `s` (which starts with a non-space). */
  function Word(s: string): (r: string)
    ensures |r| <= |s| && r == s[..|r|]
    ensures forall i :: 0 <= i < |r| ==> !IsSpace(r[i])
  {
    if s == [] || IsSpace(s[0]) then [] else [s[0]] + Word(s[1..])
  }

  /** `s.split()` with no separator: the maximal whitespace-free runs. */
  function Split(s: string): (r: seq<string>)
    ensures forall w :: w in r ==> w != [] && forall i :: 0 <= i < |w| ==> !IsSpace(w[i])
    decreases |s|
  {
    var t := TrimLeft(s);
    if t == [] then []
    else
      var w := Word(t);
      [w] + Split(t[|w|..])
  }

  // ---------------------------------------------------------------------
  // Substrings and prefixes

  predicate IsPrefix(p: string, s: string)
  {
    |p| <= |s| && s[..|p|] == p
  }

  predicate IsSuffix(p: string, s: string)
  {
    |p| <= |s| && s[|s| - |p|..] == p
  }

  /** Python's `p in s` for strings. */
  predicate Contains(s: string, p: string)
  {
    IsPrefix(p, s) || (s != [] && Contains(s[1..], p))
  }

  /** `sep.join(parts)`. */
  function Join(parts: seq<string>, sep: string): (r: string)
    ensures parts == [] ==> r == ""
    ensures |parts| == 1 ==> r == parts[0]
    ensures forall i :: 0 <= i < |parts| ==> |parts[i]| <= |r|
  {
    if parts == [] then ""
    else if |parts| == 1 then parts[0]
    else parts[0] + sep + Join(parts[1..], sep)
  }

  // ---------------------------------------------------------------------
  // Decimal rendering

  function DigitChar(d: nat): char
    requires d < 10
  {
    ('0' as int + d) as char
  }

  /** `str(n)` for a natural number: one digit exactly below ten. */
  function NatToString(n: nat): (r: string)
    ensures r != []
    ensures forall i :: 0 <= i < |r| ==> '0' <= r[i] <= '9'
    ensures |r| == 1 <==> n < 10
    decreases n
  {
    if n < 10 then [DigitChar(n)] else NatToString(n / 10) + [DigitChar(n % 10)]
  }

  /** `str(i)` for any integer. */
  function IntToString(i: int): string
  {
    if i < 0 then "-" + NatToString(-i) else NatToString(i)
  }

  // ---------------------------------------------------------------------
  // JSON-like values

  /** A Python value as parsed from JSON: None, a boolean, an integer, a
      string, a list, or a dictionary with string keys in insertion order. */
  datatype Value =
    | VNone
    | VBool(b: bool)
    | VInt(i: int)
    | VStr(s: string)
    | VList(items: seq<Value>)
    | VDict(fields: seq<(string, Value)>)

  /** `key in d` for a dictionary value. */
  predicate HasKey(fields: seq<(string, Value)>, key: string)
  {
    exists i :: 0 <= i < |fields| && fields[i].0 == key
  }

  /** `d[key]` for a present key: the value stored under it (the last
      binding, as a dictionary literal with a repeated key keeps). */
  function Field(fields: seq<(string, Value)>, key: string): (v: Value)
    requires HasKey(fields, key)
    ensures exists i :: 0 <= i < |fields| && fields[i] == (key, v)
  {
    var n := |fields| - 1;
    if fields[n].0 == key then fields[n].1
    else
      assert HasKey(fields[..n], key) by {
        var i :| 0 <= i < |fields| && fields[i].0 == key;
        assert fields[..n][i].0 == key;
      }
      var v := Field(fields[..n], key);
      assert exists i :: 0 <= i < n && fields[..n][i] == (key, v);
      v
  }

  // ---------------------------------------------------------------------
  // Sequences

  predicate Distinct<T(==)>(s: seq<T>)
  {
    forall i, j :: 0 <= i < j < |s| ==> s[i] != s[j]
  }

  /** Position of the first occurrence of `x` (Python's `list.index`). */
  function IndexOf<T(==)>(s: seq<T>, x: T): (k: nat)
    requires x in s
    ensures k < |s| && s[k] == x
    ensures forall j :: 0 <= j < k ==> s[j] != x
  {
    if s[0] == x then 0 else 1 + IndexOf(s[1..], x)
  }

  function Elems<T>(s: seq<T>): set<T>
  {
    set x | x in s
  }

  lemma AppendAssoc<T>(a: seq<T>, b: seq<T>, c: seq<T>)
    ensures (a + b) + c == a + (b + c)
  {
  }

  lemma ElemsSnoc<T>(s: seq<T>, x: T)
    ensures Elems(s + [x]) == Elems(s) + {x}
  {
  }

  /** A sequence has at least as many positions as distinct elements. */
  lemma {:induction false} ElemsCard<T>(s: seq<T>)
    ensures |Elems(s)| <= |s|
  {
    if s != [] {
      ElemsCard(s[1..]);
      assert Elems(s) == Elems(s[1..]) + {s[0]};
    }
  }

  lemma SubsetCard<T>(a: set<T>, b: set<T>)
    requires a <= b
    ensures |a| <= |b|
  {
    if a != {} {
      var x :| x in a;
      SubsetCard(a - {x}, b - {x});
    }
  }

  /** A distinct sequence has as many elements as its set. */
  lemma {:induction false} DistinctCard<T>(s: seq<T>)
    requires Distinct(s)
    ensures |Elems(s)| == |s|
  {
    if s != [] {
      DistinctCard(s[1..]);
      assert Elems(s) == Elems(s[1..]) + {s[0]};
      assert s[0] !in Elems(s[1..]);
    }
  }

  /** `[x for x in s if p(x)]`. */
  function Filter<T>(s: seq<T>, p: T -> bool): (r: seq<T>)
    ensures |r| <= |s|
  {
    if s == [] then []
    else
      var n := |s| - 1;
      Filter(s[..n], p) + (if p(s[n]) then [s[n]] else [])
  }

  /** A filter keeps exactly the elements that pass. */
  lemma {:induction false} FilterExactly<T>(s: seq<T>, p: T -> bool)
    ensures forall x :: x in Filter(s, p) <==> x in s && p(x)
  {
    if s != [] {
      var n := |s| - 1;
      FilterExactly(s[..n], p);
      assert s == s[..n] + [s[n]];
    }
  }

  /** A filter keeps the order of what it keeps. */
  lemma {:induction false} FilterAppend<T>(a: seq<T>, b: seq<T>, p: T -> bool)
    ensures Filter(a + b, p) == Filter(a, p) + Filter(b, p)
  {
    if b == [] {
      assert a + b == a;
    } else {
      var n := |b| - 1;
      var ab := a + b;
      assert ab[..|ab| - 1] == a + b[..n];
      assert ab[|ab| - 1] == b[n];
      FilterAppend(a, b[..n], p);
    }
  }

  /** When everything passes, the filter is the identity. */
  lemma {:induction false} FilterAll<T>(s: seq<T>, p: T -> bool)
    requires forall i :: 0 <= i < |s| ==> p(s[i])
    ensures Filter(s, p) == s
  {
    if s != [] {
      var n := |s| - 1;
      assert forall i :: 0 <= i < n ==> s[..n][i] == s[i];
      FilterAll(s[..n], p);
      assert s[..n] + [s[n]] == s;
    }
  }


  /** The parts concatenated in order. */
  function Concat<T>(parts: seq<seq<T>>): seq<T>
  {
    if parts == [] then []
    else
      var n := |parts| - 1;
      Concat(parts[..n]) + parts[n]
  }

  lemma ConcatSnoc<T>(parts: seq<seq<T>>, p: seq<T>)
    ensures Concat(parts + [p]) == Concat(parts) + p
  {
    assert (parts + [p])[..|parts|] == parts;
  }

  /** The part an element of a concatenation comes from. */
  lemma {:induction false} ConcatWitness<T>(parts: seq<seq<T>>, x: T) returns (k: nat)
    requires x in Concat(parts)
    ensures k < |parts| && x in parts[k]
  {
    var n := |parts| - 1;
    if x in Concat(parts[..n]) {
      k := ConcatWitness(parts[..n], x);
    } else {
      k := n;
    }
  }

  /** An element of one part is in the concatenation. */
  lemma {:induction false} ConcatHas<T>(parts: seq<seq<T>>, k: nat, x: T)
    requires k < |parts| && x in parts[k]
    ensures x in Concat(parts)
  {
    var n := |parts| - 1;
    if k < n {
      ConcatHas(parts[..n], k, x);
    }
  }
}
