/** Hop-by-hop removal with a trie of nominated tokens. */
module HopByHopTrie {
  import opened Bytes
  import opened HopByHop
  import opened Http
  import opened NameLists

  datatype TrieNode = TrieNode(terminal: bool, children: seq<(Byte, nat)>)

  /** The first child along an edge. */
  function FindChild(children: seq<(Byte, nat)>, byte: Byte, i: nat): (child: Option<nat>)
    requires i <= |children|
    ensures child.Some? ==> (byte, child.value) in children
    ensures child.None? ==> forall k :: i <= k < |children| ==> children[k].0 != byte
    decreases |children| - i
  {
    if i == |children| then None
    else if children[i].0 == byte then Some(children[i].1)
    else FindChild(children, byte, i + 1)
  }

  // ---------- nodes and the paths that lead to them ----------

  ghost predicate EdgesExtend(nodes: seq<TrieNode>, paths: seq<Bytes>)
    requires |paths| == |nodes|
  {
    forall i, edge :: 0 <= i < |nodes| && edge in nodes[i].children ==>
      edge.1 < |nodes| && paths[edge.1] == paths[i] + [edge.0]
  }

  ghost predicate HasParent(nodes: seq<TrieNode>, paths: seq<Bytes>, j: nat)
    requires |paths| == |nodes| && j < |nodes|
  {
    paths[j] != [] &&
    exists i {:trigger paths[i]} :: 0 <= i < |nodes| && paths[i] == paths[j][..|paths[j]| - 1]
      && (paths[j][|paths[j]| - 1], j) in nodes[i].children
  }

  /** Every node is reached by exactly one path. */
  ghost predicate Wired(nodes: seq<TrieNode>, paths: seq<Bytes>) {
    && |paths| == |nodes| > 0 && paths[0] == []
    && EdgesExtend(nodes, paths)
    && (forall i, j :: 0 <= i < j < |paths| ==> paths[i] != paths[j])
    && (forall j :: 0 < j < |nodes| ==> HasParent(nodes, paths, j))
  }

  ghost predicate IsNode(paths: seq<Bytes>, path: Bytes) { path in paths }

  ghost predicate Stored(nodes: seq<TrieNode>, paths: seq<Bytes>, token: Bytes)
    requires |paths| == |nodes|
  {
    exists j :: 0 <= j < |nodes| && paths[j] == token && nodes[j].terminal
  }

  /** Without a child along a byte there is no node one byte further. */
  lemma NoChildNoNode(nodes: seq<TrieNode>, paths: seq<Bytes>, i: nat, byte: Byte)
    requires Wired(nodes, paths) && i < |nodes| && FindChild(nodes[i].children, byte, 0).None?
    ensures !IsNode(paths, paths[i] + [byte])
  {
    var longer := paths[i] + [byte];
    forall j | 0 <= j < |paths| ensures paths[j] != longer {
      if j > 0 {
        assert HasParent(nodes, paths, j);
        var p :| 0 <= p < |nodes| && paths[p] == paths[j][..|paths[j]| - 1] && (paths[j][|paths[j]| - 1], j) in nodes[p].children;
        var above, here := paths[p], paths[i];
        assert paths[j] == longer ==> above == here;
        assert above == here ==> p == i;
      }
    }
  }

  /** A path that leads nowhere cannot be continued to a node. */
  lemma {:induction false} PrefixesAreNodes(nodes: seq<TrieNode>, paths: seq<Bytes>, path: Bytes, k: nat)
    requires Wired(nodes, paths) && IsNode(paths, path) && k <= |path|
    ensures IsNode(paths, path[..k])
    decreases |path| - k
  {
    if k == |path| {
      assert path[..k] == path;
    } else {
      PrefixesAreNodes(nodes, paths, path, k + 1);
      var j :| 0 <= j < |paths| && paths[j] == path[..k + 1];
      assert HasParent(nodes, paths, j);
      assert path[..k + 1][..k] == path[..k];
    }
  }

  lemma AbsentWithoutNode(nodes: seq<TrieNode>, paths: seq<Bytes>, token: Bytes, k: nat)
    requires Wired(nodes, paths) && k <= |token| && !IsNode(paths, token[..k])
    ensures !Stored(nodes, paths, token)
  {
    if IsNode(paths, token) { PrefixesAreNodes(nodes, paths, token, k); }
  }

  /** Hanging a new node below `i` keeps every path unique. */
  lemma NewChild(nodes: seq<TrieNode>, paths: seq<Bytes>, i: nat, byte: Byte)
    requires Wired(nodes, paths) && i < |nodes| && FindChild(nodes[i].children, byte, 0).None?
    ensures var j := |nodes|;
      var grown := nodes[i := nodes[i].(children := nodes[i].children + [(byte, j)])] + [TrieNode(false, [])];
      var longer := paths + [paths[i] + [byte]];
      && Wired(grown, longer)
      && forall token :: Stored(grown, longer, token) <==> Stored(nodes, paths, token)
  {
    var j := |nodes|;
    var grown := nodes[i := nodes[i].(children := nodes[i].children + [(byte, j)])] + [TrieNode(false, [])];
    var longer := paths + [paths[i] + [byte]];
    NoChildNoNode(nodes, paths, i, byte);
    forall k, edge | 0 <= k < |grown| && edge in grown[k].children
      ensures edge.1 < |grown| && longer[edge.1] == longer[k] + [edge.0]
    {
      if k < j && edge in nodes[k].children { assert edge.1 < |nodes|; }
    }
    forall a, b | 0 <= a < b < |longer| ensures longer[a] != longer[b] {
      if b == j { assert paths[a] in paths; }
    }
    forall k | 0 < k < |grown| ensures HasParent(grown, longer, k) {
      if k < j {
        assert HasParent(nodes, paths, k);
        var p :| 0 <= p < |nodes| && paths[p] == paths[k][..|paths[k]| - 1] && (paths[k][|paths[k]| - 1], k) in nodes[p].children;
        assert longer[p] == longer[k][..|longer[k]| - 1] && (longer[k][|longer[k]| - 1], k) in grown[p].children;
      } else {
        assert longer[k][..|longer[k]| - 1] == longer[i];
        assert (byte, j) in grown[i].children;
      }
    }
    forall token ensures Stored(grown, longer, token) <==> Stored(nodes, paths, token) {
      if Stored(nodes, paths, token) {
        var k :| 0 <= k < |nodes| && paths[k] == token && nodes[k].terminal;
        assert longer[k] == token && grown[k].terminal;
      }
      if Stored(grown, longer, token) {
        var k :| 0 <= k < |grown| && longer[k] == token && grown[k].terminal;
        assert paths[k] == token && nodes[k].terminal;
      }
    }
  }

  lemma Marked(nodes: seq<TrieNode>, paths: seq<Bytes>, i: nat)
    requires Wired(nodes, paths) && i < |nodes|
    ensures var marked := nodes[i := nodes[i].(terminal := true)];
      && Wired(marked, paths)
      && forall token :: Stored(marked, paths, token) <==> Stored(nodes, paths, token) || token == paths[i]
  {
    var marked := nodes[i := nodes[i].(terminal := true)];
    assert forall k :: 0 <= k < |nodes| ==> marked[k].children == nodes[k].children;
    forall k | 0 < k < |marked| ensures HasParent(marked, paths, k) {
      assert HasParent(nodes, paths, k);
      var p :| 0 <= p < |nodes| && paths[p] == paths[k][..|paths[k]| - 1] && (paths[k][|paths[k]| - 1], k) in nodes[p].children;
      assert (paths[k][|paths[k]| - 1], k) in marked[p].children;
    }
    forall token ensures Stored(marked, paths, token) <==> Stored(nodes, paths, token) || token == paths[i] {
      if Stored(nodes, paths, token) {
        var k :| 0 <= k < |nodes| && paths[k] == token && nodes[k].terminal;
        assert marked[k].terminal;
      }
      if token == paths[i] { assert marked[i].terminal; }
    }
  }

  // ---------- the trie ----------

  class TokenTrie {
    var nodes: seq<TrieNode>
    ghost var paths: seq<Bytes>

    constructor ()
      ensures Valid() && forall token :: !Has(token)
    {
      nodes := [TrieNode(false, [])];
      paths := [[]];
    }

    ghost predicate Valid()
      reads this
    {
      Wired(nodes, paths)
    }

    ghost predicate Has(token: Bytes)
      reads this
      requires Valid()
    {
      Stored(nodes, paths, token)
    }

    /** True exactly for a token not inserted before; afterwards the trie has it too. */
    method Insert(token: Bytes) returns (isNew: bool)
      requires Valid()
      modifies this
      ensures Valid()
      ensures isNew <==> !old(Has(token))
      ensures forall t :: Has(t) <==> old(Has(t)) || t == token
    {
      var nodeIndex: nat := 0;
      for k := 0 to |token|
        invariant Valid() && nodeIndex < |nodes| && paths[nodeIndex] == token[..k]
        invariant forall t :: Has(t) <==> old(Has(t))
      {
        nodeIndex := Descend(nodeIndex, token[k]);
        assert token[..k + 1] == token[..k] + [token[k]];
      }
      assert token[..|token|] == token;
      if nodes[nodeIndex].terminal { return false; }
      Marked(nodes, paths, nodeIndex);
      nodes := nodes[nodeIndex := nodes[nodeIndex].(terminal := true)];
      return true;
    }

    /** The child along a byte, made when there is none. */
    method Descend(nodeIndex: nat, byte: Byte) returns (child: nat)
      requires Valid() && nodeIndex < |nodes|
      modifies this
      ensures Valid() && child < |nodes| && paths[child] == old(paths[nodeIndex]) + [byte]
      ensures forall t :: Has(t) <==> old(Has(t))
    {
      var found := FindChild(nodes[nodeIndex].children, byte, 0);
      if found.Some? { return found.value; }
      NewChild(nodes, paths, nodeIndex, byte);
      child := |nodes|;
      paths := paths + [paths[nodeIndex] + [byte]];
      nodes := nodes[nodeIndex := nodes[nodeIndex].(children := nodes[nodeIndex].children + [(byte, child)])] + [TrieNode(false, [])];
    }

    /** The trie contains exactly the tokens that were inserted. */
    method Contains(token: Bytes) returns (contained: bool)
      requires Valid()
      ensures contained <==> Has(token)
    {
      var nodeIndex: nat := 0;
      for k := 0 to |token|
        invariant nodeIndex < |nodes| && paths[nodeIndex] == token[..k]
      {
        var child := FindChild(nodes[nodeIndex].children, token[k], 0);
        assert token[..k + 1] == token[..k] + [token[k]];
        if child.None? {
          NoChildNoNode(nodes, paths, nodeIndex, token[k]);
          AbsentWithoutNode(nodes, paths, token, k + 1);
          return false;
        }
        nodeIndex := child.value;
      }
      assert token[..|token|] == token;
      return nodes[nodeIndex].terminal;
    }
  }

  // ---------- removal ----------

  method TrimByEnds(bytes: Bytes) returns (trimmed: Bytes)
    ensures trimmed == TrimOws(bytes)
  {
    trimmed := bytes;
    ghost var i := 0;
    while trimmed != [] && IsOws(trimmed[0])
      invariant i <= |bytes| && trimmed == bytes[i..] && forall k :: 0 <= k < i ==> IsOws(bytes[k])
      decreases |trimmed|
    {
      trimmed := trimmed[1..];
      i := i + 1;
    }
    ghost var j := |bytes|;
    while trimmed != [] && IsOws(trimmed[|trimmed| - 1])
      invariant i <= j <= |bytes| && trimmed == bytes[i..j] && forall k :: j <= k < |bytes| ==> IsOws(bytes[k])
      invariant i < j ==> !IsOws(bytes[i])
      decreases |trimmed|
    {
      trimmed := trimmed[..|trimmed| - 1];
      j := j - 1;
    }
    TrimOwsIs(bytes, i, j);
  }

  /** The trie has the names nominated so far, and the list has each of them. */
  ghost predicate Gathered(trie: TokenTrie, unique: seq<Bytes>, nominated: seq<Bytes>)
    reads trie
  {
    trie.Valid() && forall name :: (trie.Has(name) <==> name in nominated) && (name in unique <==> name in nominated)
  }

  lemma FromNothing(parts: seq<Bytes>, nominated: seq<Bytes>)
    ensures nominated + [] == nominated
    ensures Members(parts, 0).Some? ==> [] + Members(parts, 0).value == Members(parts, 0).value
  {
  }

  method GatherMembers(trie: TokenTrie, unique: seq<Bytes>, value: Bytes, ghost nominated: seq<Bytes>)
    returns (more: Option<seq<Bytes>>)
    requires Gathered(trie, unique, nominated)
    modifies trie
    ensures more.None? <==> FieldMembers(value).None?
    ensures more.Some? ==> Gathered(trie, more.value, nominated + FieldMembers(value).value)
  {
    var parts := Split(value, ',');
    var names := unique;
    ghost var done: seq<Bytes> := [];
    FromNothing(parts, nominated);
    for i := 0 to |parts|
      invariant Gathered(trie, names, nominated + done)
      invariant Members(parts, 0) == var rest := Members(parts, i); if rest.None? then None else Some(done + rest.value)
    {
      var member := TrimByEnds(parts[i]);
      if member == [] || !AllToken(member) { return None; }
      var name := LowerAll(member);
      ghost var rest := Members(parts, i + 1);
      if rest.Some? { ConcatAssociates(done, [name], rest.value); }
      var isNew := trie.Insert(name);
      if isNew { names := names + [name]; }
      assert nominated + (done + [name]) == nominated + done + [name];
      done := done + [name];
    }
    assert done + [] == done;
    return Some(names);
  }

  method CollectNominations(fields: seq<HeaderField>) returns (trie: TokenTrie, r: Result<seq<Bytes>>)
    ensures fresh(trie)
    ensures
      match Nominations(fields, |fields|)
      case Err(error) => r == Err(error)
      case Ok(nominated) => r.Ok? && Gathered(trie, r.value, nominated)
  {
    trie := new TokenTrie();
    var unique: seq<Bytes> := [];
    ghost var nominated: seq<Bytes> := [];
    for index := 0 to |fields|
      invariant fresh(trie) && Nominations(fields, index) == Ok(nominated) && Gathered(trie, unique, nominated)
    {
      if fields[index].name != CONNECTION { continue; }
      var more := GatherMembers(trie, unique, fields[index].value, nominated);
      if more.None? {
        NominationsFail(fields, index + 1, |fields|);
        return trie, Err(InvalidHeader(index, InvalidConnectionToken));
      }
      unique := more.value;
      nominated := nominated + FieldMembers(fields[index].value).value;
    }
    return trie, Ok(unique);
  }

  /** Fields that are neither fixed nor in the trie are kept; fixed names are noted. */
  method SplitFields(trie: TokenTrie, fields: seq<HeaderField>, ghost nominated: seq<Bytes>)
    returns (kept: seq<HeaderField>, fixedNames: seq<Bytes>)
    requires trie.Valid() && forall name :: trie.Has(name) <==> name in nominated
    ensures kept == Kept(fields, nominated, |fields|)
    ensures forall name :: name in fixedNames <==> exists i :: 0 <= i < |fields| && fields[i].name == name && IsFixed(name)
  {
    kept := [];
    fixedNames := [];
    for n := 0 to |fields|
      invariant kept == Kept(fields, nominated, n)
      invariant forall name :: name in fixedNames <==> exists i :: 0 <= i < n && fields[i].name == name && IsFixed(name)
    {
      var isFixed := IsFixed(fields[n].name);
      var isNominated := trie.Contains(fields[n].name);
      if !isFixed && !isNominated {
        kept := kept + [fields[n]];
        continue;
      }
      if isFixed { fixedNames := fixedNames + [fields[n].name]; }
    }
  }

  method RemoveByTrie(fields: seq<HeaderField>) returns (r: Result<SanitizedHeaders>)
    ensures Sanitized(fields, r)
  {
    var trie, unique := CollectNominations(fields);
    if unique.Err? { return Err(unique.error); }
    ghost var nominated := Nominations(fields, |fields|).value;
    var kept, fixedNames := SplitFields(trie, fields, nominated);
    var removed := unique.value + fixedNames;
    var sorted := SortNames(removed);
    SameElements(sorted, removed);
    var names := Dedup(sorted);
    forall name ensures name in names <==> name in RemovedSet(fields, nominated) {
      assert name in removed <==> name in unique.value || name in fixedNames;
    }
    return Ok(SanitizedHeaders(kept, names));
  }
}
