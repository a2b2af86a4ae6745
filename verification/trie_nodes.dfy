/** The node model of the trie: the `_KRoot` and `_KNode` records, the lookup of a child by
    element in a node's insertion-ordered dict, the representation invariant that dict
    guarantees, and the reference semantics (which sequences a tree stores) that the
    operations in module Tries are proved against. */
module TrieNodes {

  datatype Option<T> = None | Some(value: T)

  /** What a node holds in its `data` slot: the root's fixed label `Root`, or one element. */
  datatype Data<T> = RootLabel | Elem(value: T)

  /** One node of the trie, `_KRoot` or `_KNode`. `children` is the node's dict of children,
      kept as an association list of (element, child) pairs in insertion order. */
  datatype Node<T> = Node(data: Data<T>, isTerminal: bool, children: seq<(T, Node<T>)>)

  /** The node `_KRoot()` builds: label `Root`, terminal, no children. */
  function NewRoot<T>(): Node<T>
  {
    Node(RootLabel, true, [])
  }

  /** The node `_KNode(letter)` builds: holds `letter`, not terminal, no children. */
  function NewNode<T>(letter: T): Node<T>
  {
    Node(Elem(letter), false, [])
  }

  /** Position of the entry keyed `k`, if any: the `in` test and the lookup of a dict. */
  function IndexOf<T(==)>(cs: seq<(T, Node<T>)>, k: T): (r: Option<nat>)
    ensures r.Some? ==> r.value < |cs| && cs[r.value].0 == k
    ensures r.Some? ==> forall j :: 0 <= j < r.value ==> cs[j].0 != k
    ensures r.None? <==> forall j :: 0 <= j < |cs| ==> cs[j].0 != k
  {
    if |cs| == 0 then None
    else if cs[0].0 == k then Some(0)
    else match IndexOf(cs[1..], k)
      case None => None
      case Some(i) => Some(i + 1)
  }

  /** Two child lists carry the same keys at the same positions. */
  predicate SameKeys<T(==)>(cs: seq<(T, Node<T>)>, ds: seq<(T, Node<T>)>)
  {
    |cs| == |ds| && forall i :: 0 <= i < |cs| ==> cs[i].0 == ds[i].0
  }

  /** A lookup sees only the keys: replacing children under unchanged keys changes no lookup. */
  lemma {:induction false} IndexOfSameKeys<T>(cs: seq<(T, Node<T>)>, ds: seq<(T, Node<T>)>, k: T)
    requires SameKeys(cs, ds)
    ensures IndexOf(cs, k) == IndexOf(ds, k)
    decreases |cs|
  {
    if |cs| > 0 && cs[0].0 != k {
      assert SameKeys(cs[1..], ds[1..]);
      IndexOfSameKeys(cs[1..], ds[1..], k);
    }
  }

  /** Appending an entry under a new key makes it findable at the end and moves no other key. */
  lemma {:induction false} IndexOfAppend<T>(cs: seq<(T, Node<T>)>, k: T, c: Node<T>, k': T)
    requires IndexOf(cs, k).None?
    ensures IndexOf(cs + [(k, c)], k') == if k' == k then Some(|cs|) else IndexOf(cs, k')
    decreases |cs|
  {
    var ds := cs + [(k, c)];
    if |cs| > 0 {
      assert ds[0] == cs[0] && ds[1..] == cs[1..] + [(k, c)];
      if cs[0].0 != k' {
        IndexOfAppend(cs[1..], k, c, k');
      }
    }
  }

  /** The keys of one dict are pairwise distinct. */
  predicate DistinctKeys<T(==)>(cs: seq<(T, Node<T>)>)
  {
    forall i, j :: 0 <= i < j < |cs| ==> cs[i].0 != cs[j].0
  }

  /** The shape every tree reachable from a `_KRoot` has: each dict has distinct keys, and each
      child was built by `_KNode(letter)` for the very letter it is keyed by. */
  predicate Valid<T(==)>(n: Node<T>)
    decreases n
  {
    && DistinctKeys(n.children)
    && forall i :: 0 <= i < |n.children| ==>
         n.children[i].1.data == Elem(n.children[i].0) && Valid(n.children[i].1)
  }

  /** `s` spells a chain of child links from `n`, whatever the terminal flags say. */
  predicate OnPath<T(==)>(n: Node<T>, s: seq<T>)
    decreases |s|
  {
    || |s| == 0
    || exists i :: 0 <= i < |n.children| && n.children[i].0 == s[0] && OnPath(n.children[i].1, s[1..])
  }

  /** `s` is one of the sequences stored below `n`: some chain of child links spelling `s`
      ends at a terminal node. This is the reference meaning of a trie. */
  predicate InLanguage<T(==)>(n: Node<T>, s: seq<T>)
    decreases |s|
  {
    if |s| == 0 then n.isTerminal
    else exists i :: 0 <= i < |n.children| && n.children[i].0 == s[0] && InLanguage(n.children[i].1, s[1..])
  }

  /** With distinct keys the existential step of OnPath is the dict lookup. */
  lemma OnPathStep<T>(n: Node<T>, s: seq<T>)
    requires DistinctKeys(n.children) && |s| > 0
    ensures OnPath(n, s) <==>
      match IndexOf(n.children, s[0])
      case None => false
      case Some(i) => OnPath(n.children[i].1, s[1..])
  {
  }

  /** With distinct keys the existential step of InLanguage is the dict lookup. */
  lemma InLanguageStep<T>(n: Node<T>, s: seq<T>)
    requires DistinctKeys(n.children) && |s| > 0
    ensures InLanguage(n, s) <==>
      match IndexOf(n.children, s[0])
      case None => false
      case Some(i) => InLanguage(n.children[i].1, s[1..])
  {
  }

  /** Every stored sequence is a path of the tree. */
  lemma {:induction false} InLanguageOnPath<T>(n: Node<T>, s: seq<T>)
    requires InLanguage(n, s)
    ensures OnPath(n, s)
    decreases |s|
  {
    if |s| > 0 {
      var i :| 0 <= i < |n.children| && n.children[i].0 == s[0] && InLanguage(n.children[i].1, s[1..]);
      InLanguageOnPath(n.children[i].1, s[1..]);
    }
  }

  /** A node with no children and no terminal flag stores nothing. */
  lemma NewNodeStoresNothing<T>(letter: T, s: seq<T>)
    ensures !InLanguage(NewNode(letter), s)
  {
  }

  /** `n` with the child at position `i` replaced by `c`, its key kept. */
  function WithChild<T>(n: Node<T>, i: nat, c: Node<T>): Node<T>
    requires i < |n.children|
  {
    n.(children := n.children[i := (n.children[i].0, c)])
  }

  /** Replacing one child by a valid node with the same data keeps the invariant. */
  lemma WithChildValid<T>(n: Node<T>, i: nat, c: Node<T>)
    requires Valid(n) && i < |n.children| && Valid(c) && c.data == n.children[i].1.data
    ensures Valid(WithChild(n, i, c))
  {
  }

  /** Replacing one child by a grown one grows the parent, and likewise the other way round. */
  lemma WithChildGrows<T>(n: Node<T>, i: nat, c: Node<T>)
    requires i < |n.children|
    ensures Grows(n.children[i].1, c) ==> Grows(n, WithChild(n, i, c))
    ensures Grows(c, n.children[i].1) ==> Grows(WithChild(n, i, c), n)
  {
    var m := WithChild(n, i, c);
    forall j | 0 <= j < |n.children| && j != i ensures Grows(n.children[j].1, m.children[j].1) {
      GrowsRefl(n.children[j].1);
    }
  }

  /** After replacing the child keyed `k`, the sequences starting with `k` are those of the new
      child and every other sequence is stored as before. */
  lemma WithChildLanguage<T>(n: Node<T>, i: nat, c: Node<T>, u: seq<T>)
    requires DistinctKeys(n.children) && i < |n.children|
    ensures InLanguage(WithChild(n, i, c), u) <==>
      if |u| > 0 && u[0] == n.children[i].0 then InLanguage(c, u[1..]) else InLanguage(n, u)
  {
    var m := WithChild(n, i, c);
    if |u| > 0 {
      assert SameKeys(n.children, m.children);
      IndexOfSameKeys(n.children, m.children, u[0]);
      InLanguageStep(n, u);
      InLanguageStep(m, u);
    }
  }

  /** After replacing the child keyed `k`, the paths starting with `k` are those of the new
      child and every other path is as before. */
  lemma WithChildPaths<T>(n: Node<T>, i: nat, c: Node<T>, u: seq<T>)
    requires DistinctKeys(n.children) && i < |n.children|
    ensures OnPath(WithChild(n, i, c), u) <==>
      if |u| > 0 && u[0] == n.children[i].0 then OnPath(c, u[1..]) else OnPath(n, u)
  {
    var m := WithChild(n, i, c);
    if |u| > 0 {
      assert SameKeys(n.children, m.children);
      IndexOfSameKeys(n.children, m.children, u[0]);
      OnPathStep(n, u);
      OnPathStep(m, u);
    }
  }

  /** `n` with a new child `c` appended under key `k`: `children[letter] = _KNode(letter)`. */
  function WithNewChild<T>(n: Node<T>, k: T, c: Node<T>): Node<T>
  {
    n.(children := n.children + [(k, c)])
  }

  /** Appending a valid child under a fresh key keeps the invariant and grows the node. */
  lemma WithNewChildValid<T>(n: Node<T>, k: T, c: Node<T>)
    requires Valid(n) && IndexOf(n.children, k).None? && Valid(c) && c.data == Elem(k)
    ensures Valid(WithNewChild(n, k, c))
    ensures Grows(n, WithNewChild(n, k, c))
  {
    var m := WithNewChild(n, k, c);
    forall j | 0 <= j < |n.children| ensures Grows(n.children[j].1, m.children[j].1) {
      GrowsRefl(n.children[j].1);
    }
  }

  /** After appending a child under a fresh key `k`, the sequences starting with `k` are those
      of the new child and every other sequence is stored as before. */
  lemma WithNewChildLanguage<T>(n: Node<T>, k: T, c: Node<T>, u: seq<T>)
    requires DistinctKeys(n.children) && IndexOf(n.children, k).None?
    ensures InLanguage(WithNewChild(n, k, c), u) <==>
      if |u| > 0 && u[0] == k then InLanguage(c, u[1..]) else InLanguage(n, u)
  {
    var m := WithNewChild(n, k, c);
    if |u| > 0 {
      IndexOfAppend(n.children, k, c, u[0]);
      assert DistinctKeys(m.children);
      InLanguageStep(n, u);
      InLanguageStep(m, u);
    }
  }

  /** After appending a child under a fresh key `k`, the paths starting with `k` are those of
      the new child and every other path is as before. */
  lemma WithNewChildPaths<T>(n: Node<T>, k: T, c: Node<T>, u: seq<T>)
    requires DistinctKeys(n.children) && IndexOf(n.children, k).None?
    ensures OnPath(WithNewChild(n, k, c), u) <==>
      if |u| > 0 && u[0] == k then OnPath(c, u[1..]) else OnPath(n, u)
  {
    var m := WithNewChild(n, k, c);
    if |u| > 0 {
      IndexOfAppend(n.children, k, c, u[0]);
      assert DistinctKeys(m.children);
      OnPathStep(n, u);
      OnPathStep(m, u);
    }
  }

  /** `b` is `a` grown: same data, every child of `a` still at its position under the same key
      and itself grown, and any further children appended after them. Terminal flags are not
      compared. */
  predicate Grows<T(==)>(a: Node<T>, b: Node<T>)
    decreases a
  {
    && a.data == b.data
    && |a.children| <= |b.children|
    && forall i :: 0 <= i < |a.children| ==>
         a.children[i].0 == b.children[i].0 && Grows(a.children[i].1, b.children[i].1)
  }

  lemma {:induction false} GrowsRefl<T>(a: Node<T>)
    ensures Grows(a, a)
    decreases a
  {
    forall i | 0 <= i < |a.children|
      ensures Grows(a.children[i].1, a.children[i].1)
    {
      GrowsRefl(a.children[i].1);
    }
  }

  lemma {:induction false} GrowsTrans<T>(a: Node<T>, b: Node<T>, c: Node<T>)
    requires Grows(a, b) && Grows(b, c)
    ensures Grows(a, c)
    decreases a
  {
    forall i | 0 <= i < |a.children|
      ensures Grows(a.children[i].1, c.children[i].1)
    {
      GrowsTrans(a.children[i].1, b.children[i].1, c.children[i].1);
    }
  }

  /** A grown tree still has every path the original had: nothing is ever removed. */
  lemma {:induction false} GrowsKeepsPaths<T>(a: Node<T>, b: Node<T>, s: seq<T>)
    requires Grows(a, b) && OnPath(a, s)
    ensures OnPath(b, s)
    decreases |s|
  {
    if |s| > 0 {
      var i :| 0 <= i < |a.children| && a.children[i].0 == s[0] && OnPath(a.children[i].1, s[1..]);
      GrowsKeepsPaths(a.children[i].1, b.children[i].1, s[1..]);
      assert b.children[i].0 == s[0];
    }
  }

  /** The number of nodes in the tree rooted at `n`, `n` included. */
  function Size<T>(n: Node<T>): nat
    decreases n, 1
  {
    1 + SizeFrom(n, 0)
  }

  /** The number of nodes in the subtrees of `n`'s children from position `i` on. */
  function SizeFrom<T>(n: Node<T>, i: nat): nat
    decreases n, 0, |n.children| - i
  {
    if i >= |n.children| then 0 else Size(n.children[i].1) + SizeFrom(n, i + 1)
  }

  /** A grown tree has at least as many nodes. */
  lemma {:induction false} GrowsSize<T>(a: Node<T>, b: Node<T>)
    requires Grows(a, b)
    ensures Size(a) <= Size(b)
    decreases a, 1
  {
    GrowsSizeFrom(a, b, 0);
  }

  lemma {:induction false} GrowsSizeFrom<T>(a: Node<T>, b: Node<T>, i: nat)
    requires Grows(a, b)
    ensures SizeFrom(a, i) <= SizeFrom(b, i)
    decreases a, 0, |a.children| - i
  {
    if i < |a.children| {
      GrowsSize(a.children[i].1, b.children[i].1);
      GrowsSizeFrom(a, b, i + 1);
    }
  }
}
