/**
 * The character trie of tree/src/trie.rs. Nodes live in an arena: node `i` has the child
 * table `next[i]` (the `HashMap<char, Node>` of the source, as a `map` to node indices) and
 * the value `values[i]`; `root` is the trie's own top-level table. The ghost map `nodeOf`
 * names the node each non-empty path leads to, its inverse `pathOf` the path of each node,
 * and `Stored(p)` is the value kept for `p`.
 */
module Trie {
  import opened Wrappers

  lemma TakeOneMore(s: string, i: nat)
    requires i < |s|
    ensures s[..i + 1] == s[..i] + [s[i]]
  {
  }

  lemma SnocParts(p: string, c: char)
    ensures |p + [c]| == |p| + 1
    ensures (p + [c])[..|p|] == p && (p + [c])[|p|] == c
  {
  }

  /**
   * The node `i` of the non-empty path `p` hangs where `p` says: in the root table for a
   * one-character path, otherwise in the table of the node of `p` without its last character.
   */
  ghost predicate Hangs(root: map<char, nat>, next: seq<map<char, nat>>, nodeOf: map<string, nat>, p: string, i: nat)
  {
    if |p| == 1 then
      p[0] in root && root[p[0]] == i
    else
      && |p| > 1
      && p[..|p| - 1] in nodeOf
      && nodeOf[p[..|p| - 1]] < |next|
      && p[|p| - 1] in next[nodeOf[p[..|p| - 1]]]
      && next[nodeOf[p[..|p| - 1]]][p[|p| - 1]] == i
  }

  /**
   * The tables `root` and `next` agree with `nodeOf` and `pathOf`: the nodes are
   * `0 .. |next|`, `nodeOf` and `pathOf` are inverse to each other, every table entry leads
   * to the one-character extension of its path, and every node hangs in its parent's table.
   */
  ghost predicate Linked(root: map<char, nat>, next: seq<map<char, nat>>, nodeOf: map<string, nat>, pathOf: seq<string>)
  {
    && |pathOf| == |next|
    && (forall p :: p in nodeOf ==> nodeOf[p] < |next| && pathOf[nodeOf[p]] == p)
    && (forall i :: 0 <= i < |next| ==> pathOf[i] in nodeOf && nodeOf[pathOf[i]] == i)
    && (forall c :: c in root ==> root[c] < |next| && pathOf[root[c]] == [c])
    && (forall i, c :: 0 <= i < |next| && c in next[i] ==> next[i][c] < |next| && pathOf[next[i][c]] == pathOf[i] + [c])
    && (forall i :: 0 <= i < |next| ==> Hangs(root, next, nodeOf, pathOf[i], i))
  }

  /** The root table holds exactly the one-character paths, each with its node. */
  lemma RootLink(root: map<char, nat>, next: seq<map<char, nat>>, nodeOf: map<string, nat>, pathOf: seq<string>, c: char)
    requires Linked(root, next, nodeOf, pathOf)
    ensures c in root <==> [c] in nodeOf
    ensures c in root ==> nodeOf[[c]] == root[c]
  {
    if [c] in nodeOf {
      var m := nodeOf[[c]];
      assert Hangs(root, next, nodeOf, pathOf[m], m);
    }
    if c in root {
      assert pathOf[root[c]] == [c];
    }
  }

  /** A node's table holds exactly the one-character extensions of its path, each with its node. */
  lemma ChildLink(root: map<char, nat>, next: seq<map<char, nat>>, nodeOf: map<string, nat>, pathOf: seq<string>, p: string, c: char)
    requires Linked(root, next, nodeOf, pathOf) && p in nodeOf
    ensures c in next[nodeOf[p]] <==> p + [c] in nodeOf
    ensures c in next[nodeOf[p]] ==> nodeOf[p + [c]] == next[nodeOf[p]][c]
  {
    var n := nodeOf[p];
    if p + [c] in nodeOf {
      var m := nodeOf[p + [c]];
      SnocParts(p, c);
      assert Hangs(root, next, nodeOf, pathOf[m], m);
    }
    if c in next[n] {
      assert pathOf[next[n][c]] == pathOf[n] + [c];
    }
  }

  /** Every non-empty prefix of a path that leads somewhere leads somewhere. */
  lemma {:induction false} PrefixPresent(root: map<char, nat>, next: seq<map<char, nat>>, nodeOf: map<string, nat>, pathOf: seq<string>, path: string, j: nat)
    requires Linked(root, next, nodeOf, pathOf) && path in nodeOf && 1 <= j <= |path|
    ensures path[..j] in nodeOf
    decreases |path|
  {
    if j < |path| {
      var m := nodeOf[path];
      assert Hangs(root, next, nodeOf, pathOf[m], m);
      var up := path[..|path| - 1];
      assert up[..j] == path[..j];
      PrefixPresent(root, next, nodeOf, pathOf, up, j);
    } else {
      assert path[..j] == path;
    }
  }

  /** `or_insert_with` on the root table: a new node for the one-character path `[c]`. */
  lemma LinkRootChild(root: map<char, nat>, next: seq<map<char, nat>>, nodeOf: map<string, nat>, pathOf: seq<string>, c: char, id: nat)
    requires Linked(root, next, nodeOf, pathOf) && c !in root && id == |next|
    ensures [c] !in nodeOf
    ensures Linked(root[c := id], next + [map[]], nodeOf[[c] := id], pathOf + [[c]])
  {
    RootLink(root, next, nodeOf, pathOf, c);
    var root', next', nodeOf', pathOf' := root[c := id], next + [map[]], nodeOf[[c] := id], pathOf + [[c]];
    forall i | 0 <= i < |next'|
      ensures Hangs(root', next', nodeOf', pathOf'[i], i)
    {
      if i < |next| {
        assert Hangs(root, next, nodeOf, pathOf[i], i);
      }
    }
  }

  /** The tables of `LinkChild`'s result: every entry leads to the extension of its path. */
  lemma LinkChildTables(next: seq<map<char, nat>>, pathOf: seq<string>, n: nat, c: char, id: nat,
      table: map<char, nat>, next': seq<map<char, nat>>, pathOf': seq<string>)
    requires |pathOf| == |next| && n < |next| && id == |next| && c !in next[n] && table == next[n][c := id]
    requires forall i, d :: 0 <= i < |next| && d in next[i] ==> next[i][d] < |next| && pathOf[next[i][d]] == pathOf[i] + [d]
    requires next' == next[n := table] + [map[]] && pathOf' == pathOf + [pathOf[n] + [c]]
    ensures forall i, d :: 0 <= i < |next'| && d in next'[i] ==> next'[i][d] < |next'| && pathOf'[next'[i][d]] == pathOf'[i] + [d]
  {
    forall i, d | 0 <= i < |next'| && d in next'[i]
      ensures next'[i][d] < |next'| && pathOf'[next'[i][d]] == pathOf'[i] + [d]
    {
      if i != n || d != c {
        assert next'[i][d] == next[i][d];
      }
    }
  }

  /** The nodes of `LinkChild`'s result: every one hangs in its parent's table. */
  lemma LinkChildHangs(root: map<char, nat>, next: seq<map<char, nat>>, nodeOf: map<string, nat>, pathOf: seq<string>, p: string, c: char, id: nat,
      table: map<char, nat>, next': seq<map<char, nat>>, nodeOf': map<string, nat>, pathOf': seq<string>)
    requires |pathOf| == |next| && p in nodeOf && nodeOf[p] < |next| && pathOf[nodeOf[p]] == p
    requires id == |next| && c !in next[nodeOf[p]]
    requires forall i :: 0 <= i < |next| ==> Hangs(root, next, nodeOf, pathOf[i], i)
    requires table == next[nodeOf[p]][c := id] && next' == next[nodeOf[p] := table] + [map[]]
    requires nodeOf' == nodeOf[p + [c] := id] && pathOf' == pathOf + [p + [c]] && p + [c] !in nodeOf
    ensures forall i :: 0 <= i < |next'| ==> Hangs(root, next', nodeOf', pathOf'[i], i)
  {
    SnocParts(p, c);
    forall i | 0 <= i < |next'|
      ensures Hangs(root, next', nodeOf', pathOf'[i], i)
    {
      if i < |next| {
        assert Hangs(root, next, nodeOf, pathOf[i], i);
      } else {
        assert Hangs(root, next, nodeOf, pathOf[nodeOf[p]], nodeOf[p]);
        assert pathOf'[i] == p + [c] && |p| >= 1;
      }
    }
  }

  /** The inverse maps of `LinkChild`'s result: `nodeOf` and `pathOf` still undo each other. */
  lemma LinkChildInverse(nodeOf: map<string, nat>, pathOf: seq<string>, q: string, id: nat,
      nodeOf': map<string, nat>, pathOf': seq<string>)
    requires id == |pathOf| && q !in nodeOf
    requires forall p :: p in nodeOf ==> nodeOf[p] < |pathOf| && pathOf[nodeOf[p]] == p
    requires forall i :: 0 <= i < |pathOf| ==> pathOf[i] in nodeOf && nodeOf[pathOf[i]] == i
    requires nodeOf' == nodeOf[q := id] && pathOf' == pathOf + [q]
    ensures forall p :: p in nodeOf' ==> nodeOf'[p] < |pathOf'| && pathOf'[nodeOf'[p]] == p
    ensures forall i :: 0 <= i < |pathOf'| ==> pathOf'[i] in nodeOf' && nodeOf'[pathOf'[i]] == i
  {
  }

  /** `or_insert_with` on the table of the node at `p`: a new node for `p + [c]`. */
  lemma LinkChild(root: map<char, nat>, next: seq<map<char, nat>>, nodeOf: map<string, nat>, pathOf: seq<string>, p: string, c: char, id: nat)
    requires Linked(root, next, nodeOf, pathOf) && p in nodeOf && c !in next[nodeOf[p]] && id == |next|
    ensures p + [c] !in nodeOf
    ensures var table: map<char, nat> := next[nodeOf[p]][c := id];
      Linked(root, next[nodeOf[p] := table] + [map[]], nodeOf[p + [c] := id], pathOf + [p + [c]])
  {
    ChildLink(root, next, nodeOf, pathOf, p, c);
    var n := nodeOf[p];
    var table: map<char, nat> := next[n][c := id];
    var next' := next[n := table] + [map[]];
    var nodeOf' := nodeOf[p + [c] := id];
    var pathOf' := pathOf + [p + [c]];
    LinkChildInverse(nodeOf, pathOf, p + [c], id, nodeOf', pathOf');
    LinkChildTables(next, pathOf, n, c, id, table, next', pathOf');
    LinkChildHangs(root, next, nodeOf, pathOf, p, c, id, table, next', nodeOf', pathOf');
  }

  class Trie<T> {
    var root: map<char, nat>
    var next: seq<map<char, nat>>
    var values: seq<Option<T>>
    ghost var nodeOf: map<string, nat>
    ghost var pathOf: seq<string>

    ghost predicate Valid()
      reads this
    {
      |values| == |next| && Linked(root, next, nodeOf, pathOf)
    }

    /** The value kept for `path`: the value of the node it leads to, if any. */
    ghost function Stored(path: string): Option<T>
      reads this
    {
      if path in nodeOf && nodeOf[path] < |values| then values[nodeOf[path]] else None
    }

    /** `Trie::default`: nothing is stored. */
    constructor ()
      ensures Valid()
      ensures forall p :: Stored(p) == None
    {
      root := map[];
      next := [];
      values := [];
      nodeOf := map[];
      pathOf := [];
    }

    /** `self.root.entry(c).or_insert_with(Node::default)`: the node of the path `[c]`. */
    method RootEntry(c: char) returns (node: nat)
      requires Valid()
      modifies this
      ensures Valid() && [c] in nodeOf && node == nodeOf[[c]]
      ensures forall q :: Stored(q) == old(Stored(q))
    {
      RootLink(root, next, nodeOf, pathOf, c);
      if c in root {
        node := root[c];
      } else {
        LinkRootChild(root, next, nodeOf, pathOf, c, |values|);
        node := |values|;
        values := values + [None];
        next := next + [map[]];
        root := root[c := node];
        nodeOf := nodeOf[[c] := node];
        pathOf := pathOf + [[c]];
      }
    }

    /**
     * `node.next.entry(c).or_insert_with(Node::default)` on the node `n` of the path `p`:
     * the node of `p + [c]`, created without a value if it was missing.
     */
    method Entry(ghost p: string, n: nat, c: char) returns (child: nat)
      requires Valid() && p in nodeOf && nodeOf[p] == n
      modifies this
      ensures Valid() && p + [c] in nodeOf && child == nodeOf[p + [c]]
      ensures forall q :: Stored(q) == old(Stored(q))
    {
      ChildLink(root, next, nodeOf, pathOf, p, c);
      if c in next[n] {
        child := next[n][c];
      } else {
        LinkChild(root, next, nodeOf, pathOf, p, c, |values|);
        child := |values|;
        values := values + [None];
        var table: map<char, nat> := next[n][c := child];
        next := next[n := table] + [map[]];
        nodeOf := nodeOf[p + [c] := child];
        pathOf := pathOf + [p + [c]];
      }
    }

    /**
     * `add`: for a non-empty path, walks down from the root creating the missing nodes
     * (without values), swaps the value into the last one and returns what was there. The
     * empty path stores nothing and returns `None`.
     */
    method Add(path: string, value: T) returns (r: Option<T>)
      requires Valid()
      modifies this
      ensures Valid()
      ensures path == [] ==> r == None
      ensures path != [] ==> r == old(Stored(path)) && Stored(path) == Some(value)
      ensures forall q :: q != path ==> Stored(q) == old(Stored(q))
    {
      if path == [] {
        return None;
      }
      var node := RootEntry(path[0]);
      assert path[..1] == [path[0]];
      var i := 1;
      while i < |path|
        invariant 1 <= i <= |path| && Valid()
        invariant path[..i] in nodeOf && nodeOf[path[..i]] == node
        invariant forall q :: Stored(q) == old(Stored(q))
      {
        TakeOneMore(path, i);
        node := Entry(path[..i], node, path[i]);
        i := i + 1;
      }
      assert path[..i] == path;
      r := SwapValue(path, node, value);
    }

    /** `std::mem::swap` of the new value with the one in the node `n` of the path `p`. */
    method SwapValue(ghost p: string, n: nat, value: T) returns (r: Option<T>)
      requires Valid() && p in nodeOf && nodeOf[p] == n
      modifies this
      ensures Valid()
      ensures r == old(Stored(p)) && Stored(p) == Some(value)
      ensures forall q :: q != p ==> Stored(q) == old(Stored(q))
    {
      r := values[n];
      values := values[n := Some(value)];
    }

    /**
     * `find`: walks down from the root by the characters of `path`, giving up at the first
     * missing child; the empty path finds nothing.
     */
    method Find(path: string) returns (r: Option<T>)
      requires Valid()
      ensures r == Stored(path)
      ensures path == [] ==> r == None
    {
      if path == [] {
        return None;
      }
      RootLink(root, next, nodeOf, pathOf, path[0]);
      var node: Option<nat> := if path[0] in root then Some(root[path[0]]) else None;
      assert path[..1] == [path[0]];
      var i := 1;
      while i < |path|
        invariant 1 <= i <= |path|
        invariant node == if path[..i] in nodeOf then Some(nodeOf[path[..i]]) else None
      {
        match node {
          case None =>
            if path in nodeOf {
              PrefixPresent(root, next, nodeOf, pathOf, path, i);
            }
            return None;
          case Some(n) =>
            TakeOneMore(path, i);
            ChildLink(root, next, nodeOf, pathOf, path[..i], path[i]);
            node := if path[i] in next[n] then Some(next[n][path[i]]) else None;
        }
        i := i + 1;
      }
      assert path[..i] == path;
      r := match node case None => None case Some(n) => values[n];
    }
  }

  /**
   * The test at tree/src/trie.rs:71-83, plus a lookup of a proper prefix: intermediate nodes
   * carry no value.
   */
  method AddAndFindScenario() returns (first: Option<string>, second: Option<string>,
      found: Option<string>, empty: Option<string>, missing: Option<string>,
      prefix: Option<string>, addEmpty: Option<string>, emptyAfter: Option<string>)
    ensures first == None && second == Some("a b c d e f g") && found == Some("a b c d e f g")
    ensures empty == None && missing == None && prefix == None
    ensures addEmpty == None && emptyAfter == None
  {
    var t := new Trie<string>();
    first := t.Add("a b c d e f g", "a b c d e f g");
    second := t.Add("a b c d e f g", "a b c d e f g");
    found := t.Find("a b c d e f g");
    empty := t.Find("");
    missing := t.Find("dfd");
    prefix := t.Find("a b");
    addEmpty := t.Add("", "");
    emptyAfter := t.Find("");
  }
}
