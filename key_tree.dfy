// The key tree of src/states/server.rs: `KeyNode` and its `insert`, and the
// `key_tree` conversion to sorted `TreeItem`s. The trie is modelled as a value
// that `Insert` returns rebuilt rather than as nodes updated in place.

module KeyTrie {
  import opened Wrappers
  import opened Text
  import opened Sorting

  /// A node of the key tree: the `:`-joined path that leads to it, whether a
  /// stored key ends here, and its children by segment name.
  datatype KeyNode = KeyNode(fullPath: string, isKey: bool, children: map<string, KeyNode>)

  /// Full path of a child: the segment alone under a node whose path is
  /// empty, otherwise the parent's path, a colon and the segment.
  function ChildPath(parent: string, part: string): string
  {
    if parent == [] then part else parent + ":" + part
  }

  /// `KeyNode::insert`: walks (and creates) one child per segment and marks
  /// the node reached by the last segment as a key.
  function Insert(n: KeyNode, parts: seq<string>): (r: KeyNode)
    ensures r.fullPath == n.fullPath
    decreases |parts|
  {
    if parts == [] then n.(isKey := true)
    else
      var part := parts[0];
      var child := if part in n.children then n.children[part]
                   else KeyNode(ChildPath(n.fullPath, part), false, map[]);
      n.(children := n.children[part := Insert(child, parts[1..])])
  }

  /// The node reached from `n` by following `path`.
  function NodeAt(n: KeyNode, path: seq<string>): Option<KeyNode>
    decreases |path|
  {
    if path == [] then Some(n)
    else if path[0] in n.children then NodeAt(n.children[path[0]], path[1..])
    else None
  }

  predicate IsKeyPath(n: KeyNode, path: seq<string>)
  {
    NodeAt(n, path).Some? && NodeAt(n, path).value.isKey
  }

  /// The full path `ChildPath` gives the node at `path` below a node whose
  /// own path is `base`.
  function PathOf(base: string, path: seq<string>): string
    decreases |path|
  {
    if path == [] then base else PathOf(ChildPath(base, path[0]), path[1..])
  }

  /// Every node's full path is the one its position in the tree gives it.
  ghost predicate Consistent(n: KeyNode)
  {
    forall q :: NodeAt(n, q).Some? ==> NodeAt(n, q).value.fullPath == PathOf(n.fullPath, q)
  }

  lemma NodeAtStep(n: KeyNode, s: string, q: seq<string>)
    ensures NodeAt(n, [s] + q) == if s in n.children then NodeAt(n.children[s], q) else None
  {
    assert ([s] + q)[1..] == q;
  }

  /// After inserting `parts`, the keys of the tree are the old keys and
  /// `parts`.
  lemma {:induction false} InsertKeyPaths(n: KeyNode, parts: seq<string>, q: seq<string>)
    ensures IsKeyPath(Insert(n, parts), q) <==> IsKeyPath(n, q) || q == parts
    decreases |parts|
  {
    var r := Insert(n, parts);
    if q != [] {
      var s, q' := q[0], q[1..];
      assert q == [s] + q';
      NodeAtStep(n, s, q');
      NodeAtStep(r, s, q');
      if parts != [] && s == parts[0] {
        var child := if s in n.children then n.children[s]
                     else KeyNode(ChildPath(n.fullPath, s), false, map[]);
        InsertKeyPaths(child, parts[1..], q');
        if s !in n.children {
          NoPathsBelowLeaf(child, q');
        }
        assert (q' == parts[1..]) <==> (q == parts);
      }
    }
  }

  lemma NoPathsBelowLeaf(n: KeyNode, q: seq<string>)
    requires n.children == map[] && !n.isKey
    ensures !IsKeyPath(n, q)
    ensures NodeAt(n, q).Some? <==> q == []
  {
  }

  /// Inserting keeps the full paths consistent: a node created for a segment
  /// gets the path its parent's path and the segment give.
  lemma {:induction false} InsertConsistent(n: KeyNode, parts: seq<string>)
    requires Consistent(n)
    ensures Consistent(Insert(n, parts))
    decreases |parts|
  {
    var r := Insert(n, parts);
    if parts != [] {
      var s := parts[0];
      var child := if s in n.children then n.children[s]
                   else KeyNode(ChildPath(n.fullPath, s), false, map[]);
      assert child.fullPath == ChildPath(n.fullPath, s) by {
        if s in n.children {
          NodeAtStep(n, s, []);
          assert [s] + [] == [s] && [s][1..] == [];
          assert NodeAt(n, [s]).value.fullPath == PathOf(n.fullPath, [s]);
          assert NodeAt(n, [s]) == Some(child);
          assert PathOf(n.fullPath, [s]) == ChildPath(n.fullPath, s);
        }
      }
      assert Consistent(child) by {
        forall q' | NodeAt(child, q').Some?
          ensures NodeAt(child, q').value.fullPath == PathOf(child.fullPath, q')
        {
          if s in n.children {
            NodeAtStep(n, s, q');
            assert PathOf(n.fullPath, [s] + q') == PathOf(ChildPath(n.fullPath, s), q') by {
              assert ([s] + q')[1..] == q';
            }
          } else {
            NoPathsBelowLeaf(child, q');
          }
        }
      }
      InsertConsistent(child, parts[1..]);
      forall q | NodeAt(r, q).Some?
        ensures NodeAt(r, q).value.fullPath == PathOf(r.fullPath, q)
      {
        if q != [] {
          var t, q' := q[0], q[1..];
          assert q == [t] + q';
          NodeAtStep(n, t, q');
          NodeAtStep(r, t, q');
        }
      }
    }
  }

  /// Below a node with a non-empty path, the path of a descendant is that
  /// path and the segments, joined by colons.
  lemma {:induction false} PathOfJoins(base: string, q: seq<string>)
    requires base != []
    ensures PathOf(base, q) == if q == [] then base else base + ":" + Join(q, ":")
    decreases |q|
  {
    if q != [] {
      PathOfJoins(base + ":" + q[0], q[1..]);
      if |q| > 1 {
        assert Join(q, ":") == q[0] + ":" + Join(q[1..], ":");
      }
    }
  }

  /// From the root (empty path), a key whose first segment is not empty
  /// sits at a node whose full path is the key itself.
  lemma KeyNodePath(key: string)
    requires Split(key, ':')[0] != []
    ensures PathOf([], Split(key, ':')) == key
  {
    var parts := Split(key, ':');
    PathOfJoins(parts[0], parts[1..]);
    if |parts| > 1 {
      assert Join(parts, [':']) == parts[0] + ":" + Join(parts[1..], ":");
    }
  }

  /// An empty first segment is skipped in the full path: the keys ":a" and
  /// "a" lead to two different nodes that both have the full path "a".
  lemma LeadingColonSharesPath()
    ensures ["", "a"] != ["a"]
    ensures PathOf([], ["", "a"]) == PathOf([], ["a"]) == "a"
  {
    assert ["", "a"][1..] == ["a"];
  }

  /// After inserting `parts`, the nodes of the tree are the old ones and
  /// those on the way to `parts`.
  lemma {:induction false} InsertNodes(n: KeyNode, parts: seq<string>, q: seq<string>)
    ensures NodeAt(Insert(n, parts), q).Some? <==> NodeAt(n, q).Some? || q <= parts
    decreases |parts|
  {
    var r := Insert(n, parts);
    if q != [] {
      var s, q' := q[0], q[1..];
      assert q == [s] + q';
      NodeAtStep(n, s, q');
      NodeAtStep(r, s, q');
      if parts != [] && s == parts[0] {
        var child := if s in n.children then n.children[s]
                     else KeyNode(ChildPath(n.fullPath, s), false, map[]);
        InsertNodes(child, parts[1..], q');
        if s !in n.children {
          NoPathsBelowLeaf(child, q');
        }
        assert (q' <= parts[1..]) <==> (q <= parts);
      }
    }
  }

  /// `gpui_component::tree::TreeItem` as the key tree fills it in: the id is
  /// the node's full path and the label its segment.
  datatype TreeItem = TreeItem(id: string, text: string, expanded: bool, children: seq<TreeItem>)

  predicate IsDir(item: TreeItem)
  {
    item.children != []
  }

  /// The order `key_tree` sorts siblings by, as one string: a directory
  /// mark ('0' before '1') followed by the id.
  function SortKey(item: TreeItem): string
  {
    [if IsDir(item) then '0' else '1'] + item.id
  }

  /// The sort key orders directories before leaves, and items of the same
  /// kind by id.
  lemma SortKeyOrder(a: TreeItem, b: TreeItem)
    ensures LessEq(SortKey(a), SortKey(b)) <==>
      (IsDir(a) && !IsDir(b)) || (IsDir(a) == IsDir(b) && LessEq(a.id, b.id))
  {
    assert SortKey(a)[1..] == a.id && SortKey(b)[1..] == b.id;
  }

  /// Directories come first among siblings, then leaves; each group is
  /// ordered by id.
  lemma DirectoriesFirst(items: seq<TreeItem>, i: nat, j: nat)
    requires SortedBy(items, SortKey) && i < j < |items|
    ensures IsDir(items[j]) ==> IsDir(items[i])
    ensures IsDir(items[i]) == IsDir(items[j]) ==> LessEq(items[i].id, items[j].id)
  {
    SortKeyOrder(items[i], items[j]);
  }

  /// `item` shows a child of `n`: its text is the child's segment, its id
  /// the child's full path, it is expanded when everything is or when that
  /// path was expanded before, and its own children are shown the same way.
  ghost predicate ShowsChild(item: TreeItem, n: KeyNode, expandedItems: set<string>, expandAll: bool)
    decreases n, 0
  {
    && item.text in n.children
    && var child := n.children[item.text];
    && item.id == child.fullPath
    && item.expanded == (expandAll || child.fullPath in expandedItems)
    && Shows(item.children, child, expandedItems, expandAll)
  }

  /// `items` is the tree `key_tree` shows for the children of `n`: one item
  /// per child, siblings in sort-key order.
  ghost predicate Shows(items: seq<TreeItem>, n: KeyNode, expandedItems: set<string>, expandAll: bool)
    decreases n, 1
  {
    && SortedBy(items, SortKey)
    && |items| == |n.children|
    && (forall name :: name in n.children ==> exists i :: 0 <= i < |items| && items[i].text == name)
    && forall i :: 0 <= i < |items| ==> ShowsChild(items[i], n, expandedItems, expandAll)
  }

  /// Sorting the items built for the children of `n` gives the shown list.
  lemma SortedShows(built: seq<TreeItem>, items: seq<TreeItem>, n: KeyNode, expandedItems: set<string>, expandAll: bool)
    requires |built| == |n.children|
    requires forall name :: name in n.children ==> exists i :: 0 <= i < |built| && built[i].text == name
    requires forall i :: 0 <= i < |built| ==> ShowsChild(built[i], n, expandedItems, expandAll)
    requires SortedBy(items, SortKey) && multiset(items) == multiset(built)
    ensures Shows(items, n, expandedItems, expandAll)
  {
    assert |items| == |multiset(items)| == |built|;
    forall name | name in n.children
      ensures exists i :: 0 <= i < |items| && items[i].text == name
    {
      var j :| 0 <= j < |built| && built[j].text == name;
      assert built[j] in multiset(items);
    }
    forall i | 0 <= i < |items|
      ensures ShowsChild(items[i], n, expandedItems, expandAll)
    {
      assert items[i] in multiset(built);
    }
  }

  /// Every child of `children` outside `pending` has an item in `built`.
  ghost predicate Covers<V>(built: seq<TreeItem>, children: map<string, V>, pending: set<string>)
  {
    forall name :: name in children && name !in pending ==>
      exists i :: 0 <= i < |built| && built[i].text == name
  }

  /// Every item of `built` shows its child of `n`.
  ghost predicate AllShow(built: seq<TreeItem>, n: KeyNode, expandedItems: set<string>, expandAll: bool)
  {
    forall i :: 0 <= i < |built| ==> ShowsChild(built[i], n, expandedItems, expandAll)
  }

  /// Adding the item for one pending child keeps every handled child covered.
  lemma CoverStep<V>(before: seq<TreeItem>, item: TreeItem, children: map<string, V>, pending: set<string>)
    requires item.text in pending
    requires Covers(before, children, pending)
    ensures Covers(before + [item], children, pending - {item.text})
  {
    var built := before + [item];
    forall other | other in children && other !in pending - {item.text}
      ensures exists i :: 0 <= i < |built| && built[i].text == other
    {
      if other == item.text {
        assert built[|before|].text == other;
      } else {
        var j :| 0 <= j < |before| && before[j].text == other;
        assert built[j] == before[j];
      }
    }
  }

  lemma ShowsAppend(before: seq<TreeItem>, item: TreeItem, n: KeyNode, expandedItems: set<string>, expandAll: bool)
    requires AllShow(before, n, expandedItems, expandAll)
    requires ShowsChild(item, n, expandedItems, expandAll)
    ensures AllShow(before + [item], n, expandedItems, expandAll)
  {
    var built := before + [item];
    forall i | 0 <= i < |built| ensures ShowsChild(built[i], n, expandedItems, expandAll) {
      if i < |before| { assert built[i] == before[i]; }
    }
  }

  /// The loop of `convert_map_to_vec_tree`: one item per child, in
  /// whatever order the map yields them.
  method ChildItems(n: KeyNode, expandedItems: set<string>, expandAll: bool)
    returns (built: seq<TreeItem>)
    ensures |built| == |n.children|
    ensures forall name :: name in n.children ==> exists i :: 0 <= i < |built| && built[i].text == name
    ensures forall i :: 0 <= i < |built| ==> ShowsChild(built[i], n, expandedItems, expandAll)
    decreases n, 0
  {
    var pending := n.children.Keys;
    built := [];
    while pending != {}
      invariant pending <= n.children.Keys
      invariant |built| + |pending| == |n.children|
      invariant Covers(built, n.children, pending)
      invariant AllShow(built, n, expandedItems, expandAll)
      decreases |pending|
    {
      var name :| name in pending;
      var child := n.children[name];
      var grandchildren := ConvertChildren(child, expandedItems, expandAll);
      var item := TreeItem(child.fullPath, name, expandAll || child.fullPath in expandedItems, grandchildren);
      assert ShowsChild(item, n, expandedItems, expandAll);
      CoverStep(built, item, n.children, pending);
      ShowsAppend(built, item, n, expandedItems, expandAll);
      assert |pending - {name}| == |pending| - 1;
      built := built + [item];
      pending := pending - {name};
    }
    assert |pending| == 0;
  }

  /// `convert_map_to_vec_tree`: the items for the children, sorted.
  method ConvertChildren(n: KeyNode, expandedItems: set<string>, expandAll: bool)
    returns (items: seq<TreeItem>)
    ensures Shows(items, n, expandedItems, expandAll)
    decreases n, 1
  {
    var built := ChildItems(n, expandedItems, expandAll);
    items := SortBy(built, SortKey);
    SortedShows(built, items, n, expandedItems, expandAll);
  }

  /// `root` is the tree `key_tree` builds from `keys`: its key paths are the
  /// colon-split keys, every node lies on the way to one of them, and every
  /// node has the full path its position gives it.
  ghost predicate IsTrieOf(root: KeyNode, keys: set<string>)
  {
    && root.fullPath == []
    && Consistent(root)
    && (forall q :: IsKeyPath(root, q) <==> exists k :: k in keys && q == Split(k, ':'))
    && (forall q :: q != [] && NodeAt(root, q).Some? ==> exists k :: k in keys && q <= Split(k, ':'))
  }

  lemma EmptyTrie()
    ensures IsTrieOf(KeyNode([], false, map[]), {})
  {
    var root := KeyNode([], false, map[]);
    forall q ensures NodeAt(root, q).Some? <==> q == [] && !IsKeyPath(root, q) {
      NoPathsBelowLeaf(root, q);
    }
  }

  lemma InsertKey(root: KeyNode, keys: set<string>, key: string)
    requires IsTrieOf(root, keys)
    ensures IsTrieOf(Insert(root, Split(key, ':')), keys + {key})
  {
    var parts := Split(key, ':');
    var r := Insert(root, parts);
    InsertConsistent(root, parts);
    forall q ensures IsKeyPath(r, q) <==> exists k :: k in keys + {key} && q == Split(k, ':') {
      InsertKeyPaths(root, parts, q);
    }
    forall q | q != [] && NodeAt(r, q).Some? ensures exists k :: k in keys + {key} && q <= Split(k, ':') {
      InsertNodes(root, parts, q);
    }
  }

  /// The loop of `key_tree` that inserts every key, in the order the hash
  /// map yields them.
  method BuildTrie(keys: set<string>) returns (root: KeyNode)
    ensures IsTrieOf(root, keys)
  {
    root := KeyNode([], false, map[]);
    EmptyTrie();
    var pending := keys;
    while pending != {}
      invariant pending <= keys
      invariant IsTrieOf(root, keys - pending)
      decreases |pending|
    {
      var key :| key in pending;
      InsertKey(root, keys - pending, key);
      root := Insert(root, Split(key, ':'));
      assert keys - pending + {key} == keys - (pending - {key});
      pending := pending - {key};
    }
  }

  /// Two trees with the same nodes, keys and full paths are equal: the tree
  /// does not depend on the order in which the keys were inserted.
  lemma {:induction false} SameShapeEqual(a: KeyNode, b: KeyNode)
    requires forall q :: NodeAt(a, q).Some? <==> NodeAt(b, q).Some?
    requires forall q :: NodeAt(a, q).Some? ==>
               NodeAt(a, q).value.isKey == NodeAt(b, q).value.isKey
               && NodeAt(a, q).value.fullPath == NodeAt(b, q).value.fullPath
    ensures a == b
    decreases a
  {
    assert NodeAt(a, []).Some?;
    forall s | s in a.children
      ensures s in b.children && a.children[s] == b.children[s]
    {
      NodeAtStep(a, s, []);
      NodeAtStep(b, s, []);
      assert [s] + [] == [s];
      forall q ensures NodeAt(a.children[s], q) == NodeAt(a, [s] + q) && NodeAt(b.children[s], q) == NodeAt(b, [s] + q) {
        NodeAtStep(a, s, q);
        NodeAtStep(b, s, q);
      }
      SameShapeEqual(a.children[s], b.children[s]);
    }
    forall s | s in b.children ensures s in a.children {
      NodeAtStep(a, s, []);
      NodeAtStep(b, s, []);
      assert [s] + [] == [s];
    }
  }

  /// Any two trees built from the same keys are equal.
  lemma TrieUnique(a: KeyNode, b: KeyNode, keys: set<string>)
    requires IsTrieOf(a, keys) && IsTrieOf(b, keys)
    ensures a == b
  {
    forall q ensures NodeAt(a, q).Some? <==> NodeAt(b, q).Some? {
      if q != [] && NodeAt(a, q).Some? { OnKeyWayExists(b, keys, q); }
      if q != [] && NodeAt(b, q).Some? { OnKeyWayExists(a, keys, q); }
    }
    forall q | NodeAt(a, q).Some?
      ensures NodeAt(a, q).value.isKey == NodeAt(b, q).value.isKey
      ensures NodeAt(a, q).value.fullPath == NodeAt(b, q).value.fullPath
    {
      assert IsKeyPath(a, q) <==> IsKeyPath(b, q);
    }
    SameShapeEqual(a, b);
  }

  /// Every prefix of a key path is a node.
  lemma OnKeyWayExists(root: KeyNode, keys: set<string>, q: seq<string>)
    requires IsTrieOf(root, keys)
    requires exists k :: k in keys && q <= Split(k, ':')
    ensures NodeAt(root, q).Some?
  {
    var k :| k in keys && q <= Split(k, ':');
    assert IsKeyPath(root, Split(k, ':'));
    PrefixNode(root, Split(k, ':'), q);
  }

  lemma {:induction false} PrefixNode(n: KeyNode, p: seq<string>, q: seq<string>)
    requires NodeAt(n, p).Some? && q <= p
    ensures NodeAt(n, q).Some?
    decreases |q|
  {
    if q != [] {
      PrefixNode(n.children[p[0]], p[1..], q[1..]);
    }
  }
}
