/**
 * The inspector's tree view: which nodes the search marks (with the
 * per-render cache keyed by path), and which nodes are collapsed.
 */
module JsonTree {
  import opened Text
  import opened SearchInput

  datatype NodeType = ObjectNode | ArrayNode | PrimitiveNode

  /**
   * A node of the inspector tree. `valueText` is the text `JSON.stringify`
   * gives for the node's value; only primitives use it.
   */
  datatype TreeNode = TreeNode(key: string, path: string, kind: NodeType, valueText: string, children: seq<TreeNode>)

  /** `matchesSelf`: the needle is in the lower-cased key, the lower-cased path, or a primitive's lower-cased value text. */
  predicate MatchesSelf(node: TreeNode, needle: string) {
    || Contains(ToLower(node.key), needle)
    || Contains(ToLower(node.path), needle)
    || (node.kind == PrimitiveNode && Contains(ToLower(node.valueText), needle))
  }

  /** Reference definition without a cache: the node or some node below it matches by itself. */
  predicate SubtreeMatches(node: TreeNode, needle: string)
    decreases node
  {
    MatchesSelf(node, needle) || exists i :: 0 <= i < |node.children| && SubtreeMatches(node.children[i], needle)
  }

  /** `matchCache`: the answers already computed, by node path. */
  type Cache = map<string, bool>

  /**
   * `doesNodeMatch`: false for an empty needle; the cached answer when the
   * node's path is cached; otherwise the node's own match or'ed with the
   * children's (`some` stops at the first matching child), then cached.
   */
  function DoesNodeMatch(node: TreeNode, needle: string, cache: Cache): (r: (bool, Cache))
    ensures |needle| == 0 ==> r == (false, cache)
    ensures forall p :: p in cache ==> p in r.1 && r.1[p] == cache[p]
    ensures |needle| > 0 ==> node.path in r.1 && r.1[node.path] == r.0
    decreases node, 1, 0
  {
    if |needle| == 0 then (false, cache)
    else if node.path in cache then (cache[node.path], cache)
    else
      var matchesSelf := MatchesSelf(node, needle);
      var (childMatch, after) := SomeChild(node, 0, needle, cache);
      var result := matchesSelf || childMatch;
      (result, after[node.path := result])
  }

  /** Whether some child from index `i` on matches, asked in order and stopping at the first that does, threading the cache. */
  function SomeChild(node: TreeNode, i: nat, needle: string, cache: Cache): (r: (bool, Cache))
    requires i <= |node.children|
    ensures forall p :: p in cache ==> p in r.1 && r.1[p] == cache[p]
    decreases node, 0, |node.children| - i
  {
    if i == |node.children| then (false, cache)
    else
      var (m, after) := DoesNodeMatch(node.children[i], needle, cache);
      if m then (true, after) else SomeChild(node, i + 1, needle, after)
  }

  /** `n` is `t` or lies below it. */
  predicate Within(n: TreeNode, t: TreeNode)
    decreases t
  {
    n == t || exists i :: 0 <= i < |t.children| && Within(n, t.children[i])
  }

  lemma {:induction false} WithinChild(root: TreeNode, node: TreeNode, i: nat)
    requires Within(node, root) && i < |node.children|
    ensures Within(node.children[i], root)
    decreases root
  {
    if node != root {
      var j :| 0 <= j < |root.children| && Within(node, root.children[j]);
      WithinChild(root.children[j], node, i);
    } else {
      assert Within(node.children[i], node.children[i]);
    }
  }

  /** No two nodes of the tree share a path. */
  ghost predicate UniquePaths(root: TreeNode) {
    forall a, b :: Within(a, root) && Within(b, root) && a.path == b.path ==> a == b
  }

  /** Every cached answer for a node of the tree is the reference answer for that node. */
  ghost predicate CacheSound(root: TreeNode, needle: string, cache: Cache) {
    forall n :: Within(n, root) && n.path in cache ==> cache[n.path] == SubtreeMatches(n, needle)
  }

  /**
   * With distinct paths and a sound cache, the cached search gives the
   * reference answer and leaves the cache sound.
   */
  lemma {:induction false} DoesNodeMatchIsReference(root: TreeNode, node: TreeNode, needle: string, cache: Cache)
    requires |needle| > 0 && Within(node, root) && UniquePaths(root) && CacheSound(root, needle, cache)
    ensures DoesNodeMatch(node, needle, cache).0 == SubtreeMatches(node, needle)
    ensures CacheSound(root, needle, DoesNodeMatch(node, needle, cache).1)
    decreases node, 1, 0
  {
    if node.path !in cache {
      SomeChildIsReference(root, node, 0, needle, cache);
      var (childMatch, after) := SomeChild(node, 0, needle, cache);
      var result := MatchesSelf(node, needle) || childMatch;
      assert ChildFrom(node, 0, needle) <==> exists j :: 0 <= j < |node.children| && SubtreeMatches(node.children[j], needle);
      assert result == SubtreeMatches(node, needle);
      var final := after[node.path := result];
      forall n | Within(n, root) && n.path in final ensures final[n.path] == SubtreeMatches(n, needle) {
        if n.path == node.path {
          assert n == node;
        }
      }
    }
  }

  lemma {:induction false} SomeChildIsReference(root: TreeNode, node: TreeNode, i: nat, needle: string, cache: Cache)
    requires i <= |node.children|
    requires |needle| > 0 && Within(node, root) && UniquePaths(root) && CacheSound(root, needle, cache)
    ensures SomeChild(node, i, needle, cache).0 == ChildFrom(node, i, needle)
    ensures CacheSound(root, needle, SomeChild(node, i, needle, cache).1)
    decreases node, 0, |node.children| - i
  {
    if i < |node.children| {
      var child := node.children[i];
      WithinChild(root, node, i);
      DoesNodeMatchIsReference(root, child, needle, cache);
      var (m, after) := DoesNodeMatch(child, needle, cache);
      ChildFromStep(node, i, needle);
      if !m {
        SomeChildIsReference(root, node, i + 1, needle, after);
      }
    }
  }

  /** Some child from index `i` on matches. */
  predicate ChildFrom(node: TreeNode, i: nat, needle: string) {
    exists j :: i <= j < |node.children| && SubtreeMatches(node.children[j], needle)
  }

  lemma ChildFromStep(node: TreeNode, i: nat, needle: string)
    requires i < |node.children|
    ensures ChildFrom(node, i, needle) <==> SubtreeMatches(node.children[i], needle) || ChildFrom(node, i + 1, needle)
  {
    if ChildFrom(node, i, needle) {
      var j :| i <= j < |node.children| && SubtreeMatches(node.children[j], needle);
      if j > i {
        assert ChildFrom(node, i + 1, needle);
      }
    }
  }

  /** A render starts from an empty cache: each node's answer is the reference one. */
  lemma CachedSearchIsReference(root: TreeNode, needle: string)
    requires UniquePaths(root)
    ensures DoesNodeMatch(root, needle, map[]).0 == (|needle| > 0 && SubtreeMatches(root, needle))
  {
    if |needle| > 0 {
      assert Within(root, root);
      DoesNodeMatchIsReference(root, root, needle, map[]);
    }
  }

  /** A match below a node marks the node too. */
  lemma {:induction false} MatchMarksAncestors(root: TreeNode, n: TreeNode, needle: string)
    requires Within(n, root) && MatchesSelf(n, needle)
    ensures SubtreeMatches(root, needle)
    decreases root
  {
    if n != root {
      var j :| 0 <= j < |root.children| && Within(n, root.children[j]);
      MatchMarksAncestors(root.children[j], n, needle);
    }
  }

  // ------------------------------------------------------------ collapsing

  /** `collapsed`: the toggled state by node path; a path never toggled is absent. */
  type Collapsed = map<string, bool>

  /** `collapsed[node.path]`, with an absent path reading as not collapsed. */
  predicate IsCollapsed(c: Collapsed, path: string) {
    path in c && c[path]
  }

  /** `handleToggle`: stores the negation of the current state for `path`. */
  function HandleToggle(c: Collapsed, path: string): (r: Collapsed)
    ensures path in r && (IsCollapsed(r, path) <==> !IsCollapsed(c, path))
    ensures forall q :: q != path ==> (q in r <==> q in c) && (q in c ==> r[q] == c[q])
  {
    c[path := !IsCollapsed(c, path)]
  }

  /** Two toggles of the same node restore every node's state. */
  lemma ToggleTwiceRestores(c: Collapsed, path: string, q: string)
    ensures IsCollapsed(HandleToggle(HandleToggle(c, path), path), q) == IsCollapsed(c, q)
  {
  }

  /** `hasChildren && !isCollapsed`: the node's children are rendered. */
  predicate ChildrenVisible(node: TreeNode, c: Collapsed) {
    |node.children| > 0 && !IsCollapsed(c, node.path)
  }

  /** A toggle shows or hides the children of the nodes with that path and of no other node. */
  lemma ToggleAffectsOnlyItsPath(node: TreeNode, c: Collapsed, path: string)
    ensures node.path != path ==> ChildrenVisible(node, HandleToggle(c, path)) == ChildrenVisible(node, c)
    ensures node.path == path && |node.children| > 0 ==>
      ChildrenVisible(node, HandleToggle(c, path)) == !ChildrenVisible(node, c)
  {
  }
}
