/** Byte strings in their usual order: sorting, removing repetitions and searching. */
module NameLists {
  import opened Bytes
  import Sorting

  /** The usual order of byte strings: a prefix comes first. */
  predicate Lexicographic(a: Bytes, b: Bytes) {
    a == [] || (b != [] && (a[0] < b[0] || (a[0] == b[0] && Lexicographic(a[1..], b[1..]))))
  }

  lemma {:induction false} Reflexive(a: Bytes)
    ensures Lexicographic(a, a)
  {
    if a != [] { Reflexive(a[1..]); }
  }

  lemma {:induction false} Antisymmetric(a: Bytes, b: Bytes)
    requires Lexicographic(a, b) && Lexicographic(b, a)
    ensures a == b
  {
    if a != [] && b != [] {
      Antisymmetric(a[1..], b[1..]);
      assert a == [a[0]] + a[1..] && b == [b[0]] + b[1..];
    }
  }

  lemma {:induction false} Transitive(a: Bytes, b: Bytes, c: Bytes)
    requires Lexicographic(a, b) && Lexicographic(b, c)
    ensures Lexicographic(a, c)
  {
    if a != [] && b != [] && c != [] && a[0] == b[0] && b[0] == c[0] { Transitive(a[1..], b[1..], c[1..]); }
  }

  lemma {:induction false} Total(a: Bytes, b: Bytes)
    ensures Lexicographic(a, b) || Lexicographic(b, a)
  {
    if a != [] && b != [] && a[0] == b[0] { Total(a[1..], b[1..]); }
  }

  ghost predicate Sorted(names: seq<Bytes>) {
    forall i, j :: 0 <= i < j < |names| ==> Lexicographic(names[i], names[j])
  }

  ghost predicate StrictlyIncreasing(names: seq<Bytes>) {
    forall i, j :: 0 <= i < j < |names| ==> Lexicographic(names[i], names[j]) && names[i] != names[j]
  }

  /** The list has exactly the elements of the set, each once, in increasing order. */
  ghost predicate Lists(names: seq<Bytes>, elements: set<Bytes>) {
    StrictlyIncreasing(names) && forall name :: name in names <==> name in elements
  }

  // ---------- there is one such list ----------

  lemma FirstIsLeast(names: seq<Bytes>, elements: set<Bytes>, name: Bytes)
    requires Lists(names, elements) && name in elements
    ensures names != [] && Lexicographic(names[0], name)
  {
    var k :| 0 <= k < |names| && names[k] == name;
    Reflexive(name);
  }

  lemma TailLists(names: seq<Bytes>, elements: set<Bytes>)
    requires Lists(names, elements) && names != []
    ensures Lists(names[1..], elements - {names[0]})
  {
    var tail := names[1..];
    forall i, j | 0 <= i < j < |tail| ensures Lexicographic(tail[i], tail[j]) && tail[i] != tail[j] {
      assert tail[i] == names[i + 1] && tail[j] == names[j + 1];
    }
    forall name ensures name in tail <==> name in elements - {names[0]} {
      if name in tail {
        var k :| 0 <= k < |tail| && tail[k] == name;
        assert names[k + 1] == name && name in names;
      }
    }
  }

  lemma EmptyList(names: seq<Bytes>, elements: set<Bytes>)
    requires Lists(names, elements)
    ensures names == [] <==> elements == {}
  {
    if names != [] { assert names[0] in elements; }
  }

  lemma {:induction false} ListUnique(a: seq<Bytes>, b: seq<Bytes>, elements: set<Bytes>)
    requires Lists(a, elements) && Lists(b, elements)
    ensures a == b
    decreases |a|
  {
    EmptyList(a, elements);
    EmptyList(b, elements);
    if a != [] {
      assert a[0] in elements;
      FirstIsLeast(b, elements, a[0]);
      assert b[0] in elements;
      FirstIsLeast(a, elements, b[0]);
      Antisymmetric(a[0], b[0]);
      TailLists(a, elements);
      TailLists(b, elements);
      ListUnique(a[1..], b[1..], elements - {a[0]});
      assert a == [a[0]] + a[1..] && b == [b[0]] + b[1..];
    }
  }

  // ---------- sorting, removing repetitions, searching ----------

  method SortNames(names: seq<Bytes>) returns (sorted: seq<Bytes>)
    ensures Sorted(sorted) && multiset(sorted) == multiset(names)
  {
    assert Sorting.TotalOrder(Lexicographic) by {
      forall a: Bytes, b: Bytes ensures Lexicographic(a, b) || Lexicographic(b, a) { Total(a, b); }
      forall a: Bytes, b: Bytes, c: Bytes | Lexicographic(a, b) && Lexicographic(b, c) ensures Lexicographic(a, c) {
        Transitive(a, b, c);
      }
    }
    sorted := Sorting.Sort(names, Lexicographic);
  }

  /** Dropping each element that repeats the one before it. */
  method Dedup(names: seq<Bytes>) returns (unique: seq<Bytes>)
    requires Sorted(names)
    ensures StrictlyIncreasing(unique) && forall name :: name in unique <==> name in names
  {
    unique := [];
    for i := 0 to |names|
      invariant StrictlyIncreasing(unique)
      invariant forall name :: name in unique <==> name in names[..i]
      invariant unique != [] ==> i > 0 && unique[|unique| - 1] == names[i - 1]
    {
      if unique == [] || unique[|unique| - 1] != names[i] {
        DedupStep(names, i, unique);
        unique := unique + [names[i]];
      }
      assert names[..i + 1] == names[..i] + [names[i]];
    }
    assert names[..|names|] == names;
  }

  lemma DedupStep(names: seq<Bytes>, i: nat, unique: seq<Bytes>)
    requires Sorted(names) && i < |names| && StrictlyIncreasing(unique)
    requires forall name :: name in unique <==> name in names[..i]
    requires unique != [] ==> i > 0 && unique[|unique| - 1] == names[i - 1] && names[i - 1] != names[i]
    ensures StrictlyIncreasing(unique + [names[i]])
  {
    var longer := unique + [names[i]];
    forall a, b | 0 <= a < b < |longer| ensures Lexicographic(longer[a], longer[b]) && longer[a] != longer[b] {
      if b == |unique| {
        assert unique[a] in unique;
        var k :| 0 <= k < i && names[k] == unique[a];
        if unique[a] == names[i] {
          if k < i - 1 { Antisymmetric(names[i - 1], names[i]); }
        }
      }
    }
  }

  method BinarySearch(names: seq<Bytes>, name: Bytes) returns (found: bool)
    requires StrictlyIncreasing(names)
    ensures found <==> name in names
  {
    var low, high := 0, |names|;
    while low < high
      invariant low <= high <= |names|
      invariant forall i :: 0 <= i < low || high <= i < |names| ==> names[i] != name
    {
      var mid := (low + high) / 2;
      if names[mid] == name { return true; }
      if Lexicographic(names[mid], name) {
        forall i | 0 <= i <= mid ensures names[i] != name { SearchLow(names, name, mid, i); }
        low := mid + 1;
      } else {
        forall i | mid <= i < |names| ensures names[i] != name { SearchHigh(names, name, mid, i); }
        high := mid;
      }
    }
    return false;
  }

  lemma SearchLow(names: seq<Bytes>, name: Bytes, mid: nat, i: nat)
    requires StrictlyIncreasing(names) && i <= mid < |names| && names[mid] != name && Lexicographic(names[mid], name)
    ensures names[i] != name
  {
    if i < mid && names[i] == name { Antisymmetric(names[mid], name); }
  }

  lemma SearchHigh(names: seq<Bytes>, name: Bytes, mid: nat, i: nat)
    requires StrictlyIncreasing(names) && mid <= i < |names| && !Lexicographic(names[mid], name)
    ensures names[i] != name
  {
    if names[i] == name { Reflexive(name); }
  }

  /** The elements of a set in increasing order. */
  method InOrder(elements: set<Bytes>) returns (names: seq<Bytes>)
    ensures Lists(names, elements)
  {
    var rest := elements;
    var all: seq<Bytes> := [];
    while rest != {}
      invariant rest <= elements && forall name :: name in all <==> name in elements - rest
      decreases rest
    {
      var name :| name in rest;
      all := all + [name];
      rest := rest - {name};
    }
    var sorted := SortNames(all);
    SameElements(sorted, all);
    names := Dedup(sorted);
  }

  lemma SameElements(a: seq<Bytes>, b: seq<Bytes>)
    requires multiset(a) == multiset(b)
    ensures forall name :: name in a <==> name in b
  {
    forall name ensures name in a <==> name in b {
      assert name in a <==> name in multiset(a);
      assert name in b <==> name in multiset(b);
    }
  }
}
