/** The `Trie` container: the shared traversal kernel `_traverse` and the three thin wrappers
    `insert`, `delete` and `find` over it, with their meaning stated against the reference
    semantics `InLanguage` of module TrieNodes. */
module Tries {
  import opened TrieNodes

  /** A `Trie` owns exactly one root node. */
  datatype Trie<T> = Trie(root: Node<T>)

  /** The outcome of a successful walk: the tree after the walk (with any children it had to
      create) and the subtree the walk ended at, the node `_traverse` hands back. */
  datatype Walk<T> = Walk(tree: Node<T>, reached: Node<T>)

  /** `Trie()`: a root and nothing else. */
  function Empty<T>(): Trie<T>
  {
    Trie(NewRoot())
  }

  /** The invariant every `Trie` keeps: its root carries the `Root` label and the tree has the
      shape dicts of `_KNode`s give it. */
  predicate ValidTrie<T(==)>(t: Trie<T>)
  {
    t.root.data == RootLabel && Valid(t.root)
  }

  /** `_traverse`: walk `s` from `n` one element at a time. A missing child is created as a
      fresh non-terminal node appended to the dict when `addMissing` holds, and ends the walk
      with no node otherwise. */
  function Traverse<T(==)>(n: Node<T>, s: seq<T>, addMissing: bool): (r: Option<Walk<T>>)
    ensures addMissing ==> r.Some?
    ensures !addMissing && r.Some? ==> r.value.tree == n
    ensures r.Some? ==> r.value.tree.data == n.data && r.value.tree.isTerminal == n.isTerminal
    decreases |s|
  {
    if |s| == 0 then Some(Walk(n, n))
    else
      match IndexOf(n.children, s[0])
      case Some(i) =>
        (match Traverse(n.children[i].1, s[1..], addMissing)
         case None => None
         case Some(w) => Some(Walk(n.(children := n.children[i := (n.children[i].0, w.tree)]), w.reached)))
      case None =>
        if addMissing then
          var w := Traverse(NewNode(s[0]), s[1..], true).value;
          Some(Walk(n.(children := n.children + [(s[0], w.tree)]), w.reached))
        else
          None
  }

  /** Set the terminal flag of the node that `s` leads to from `n`: the assignment
      `node.is_terminal = b` made through the reference `_traverse` returned. */
  function Mark<T(==)>(n: Node<T>, s: seq<T>, b: bool): Node<T>
    decreases |s|
  {
    if |s| == 0 then n.(isTerminal := b)
    else
      match IndexOf(n.children, s[0])
      case None => n
      case Some(i) => n.(children := n.children[i := (n.children[i].0, Mark(n.children[i].1, s[1..], b))])
  }

  /** `insert`: walk `s` creating what is missing, then mark the reached node terminal. */
  function Insert<T(==)>(t: Trie<T>, s: seq<T>): Trie<T>
  {
    var w := Traverse(t.root, s, true).value;
    Trie(Mark(w.tree, s, true))
  }

  /** `delete`: walk `s` without creating anything and, if a node is reached, clear its flag. */
  function Delete<T(==)>(t: Trie<T>, s: seq<T>): Trie<T>
  {
    if Traverse(t.root, s, false).Some? then Trie(Mark(t.root, s, false)) else t
  }

  /** `find`: the reached node's terminal flag, or false when the walk fails. */
  function Find<T(==)>(t: Trie<T>, s: seq<T>): bool
  {
    match Traverse(t.root, s, false)
    case None => false
    case Some(w) => w.reached.isTerminal
  }

  // ---------------------------------------------------------------------------------------
  // The traversal kernel

  /** Without `addMissing` the walk succeeds exactly when `s` is a path of the tree, and the
      node it reaches is terminal exactly when `s` is stored. */
  lemma {:induction false} TraverseFindsPaths<T>(n: Node<T>, s: seq<T>)
    requires Valid(n)
    ensures Traverse(n, s, false).Some? <==> OnPath(n, s)
    ensures Traverse(n, s, false).Some? ==> Traverse(n, s, false).value.reached.isTerminal == InLanguage(n, s)
    decreases |s|
  {
    if |s| > 0 {
      OnPathStep(n, s);
      InLanguageStep(n, s);
      match IndexOf(n.children, s[0])
      case None =>
      case Some(i) =>
        TraverseFindsPaths(n.children[i].1, s[1..]);
    }
  }

  /** Along an existing path `addMissing` makes no difference: nothing is created. */
  lemma {:induction false} TraverseExistingPath<T>(n: Node<T>, s: seq<T>)
    requires Traverse(n, s, false).Some?
    ensures Traverse(n, s, true) == Traverse(n, s, false)
    decreases |s|
  {
    if |s| > 0 {
      match IndexOf(n.children, s[0])
      case None =>
      case Some(i) =>
        TraverseExistingPath(n.children[i].1, s[1..]);
    }
  }

  /** With `addMissing` the walk keeps the invariant and only appends nodes: every node and
      key that was there keeps its place. */
  lemma {:induction false} TraverseAddsGrows<T>(n: Node<T>, s: seq<T>)
    requires Valid(n)
    ensures Valid(Traverse(n, s, true).value.tree)
    ensures Grows(n, Traverse(n, s, true).value.tree)
    decreases |s|
  {
    var w := Traverse(n, s, true).value;
    if |s| == 0 {
      GrowsRefl(n);
    } else {
      match IndexOf(n.children, s[0])
      case Some(i) =>
        var c := n.children[i].1;
        TraverseAddsGrows(c, s[1..]);
        var cw := Traverse(c, s[1..], true).value;
        assert w.tree == WithChild(n, i, cw.tree);
        WithChildValid(n, i, cw.tree);
        WithChildGrows(n, i, cw.tree);
      case None =>
        var f := NewNode(s[0]);
        TraverseAddsGrows(f, s[1..]);
        var fw := Traverse(f, s[1..], true).value;
        assert w.tree == WithNewChild(n, s[0], fw.tree);
        WithNewChildValid(n, s[0], fw.tree);
    }
  }

  /** The nodes `addMissing` creates are non-terminal, so the walk stores no new sequence: not
      `s`, and none of its proper prefixes. */
  lemma {:induction false} TraverseAddsNothingStored<T>(n: Node<T>, s: seq<T>, u: seq<T>)
    requires Valid(n)
    ensures InLanguage(Traverse(n, s, true).value.tree, u) <==> InLanguage(n, u)
    decreases |s|
  {
    var w := Traverse(n, s, true).value;
    if |s| > 0 {
      match IndexOf(n.children, s[0])
      case Some(i) =>
        var c := n.children[i].1;
        var cw := Traverse(c, s[1..], true).value;
        assert w.tree == WithChild(n, i, cw.tree);
        WithChildLanguage(n, i, cw.tree, u);
        if |u| > 0 && u[0] == s[0] {
          TraverseAddsNothingStored(c, s[1..], u[1..]);
          InLanguageStep(n, u);
        }
      case None =>
        var f := NewNode(s[0]);
        var fw := Traverse(f, s[1..], true).value;
        assert w.tree == WithNewChild(n, s[0], fw.tree);
        WithNewChildLanguage(n, s[0], fw.tree, u);
        if |u| > 0 && u[0] == s[0] {
          TraverseAddsNothingStored(f, s[1..], u[1..]);
          InLanguageStep(n, u);
          NewNodeStoresNothing(s[0], u[1..]);
        }
    }
  }

  /** With `addMissing` the only new paths are the prefixes of `s`: the walk creates the
      missing nodes along `s` and nothing beside it. */
  lemma {:induction false} TraverseAddsOnlyPath<T>(n: Node<T>, s: seq<T>, u: seq<T>)
    requires Valid(n)
    ensures OnPath(Traverse(n, s, true).value.tree, u) <==> OnPath(n, u) || u <= s
    decreases |s|
  {
    var w := Traverse(n, s, true).value;
    if |s| > 0 && |u| > 0 {
      assert u <= s <==> u[0] == s[0] && u[1..] <= s[1..];
      match IndexOf(n.children, s[0])
      case Some(i) =>
        var c := n.children[i].1;
        var cw := Traverse(c, s[1..], true).value;
        assert w.tree == WithChild(n, i, cw.tree);
        WithChildPaths(n, i, cw.tree, u);
        if u[0] == s[0] {
          TraverseAddsOnlyPath(c, s[1..], u[1..]);
          OnPathStep(n, u);
        }
      case None =>
        var f := NewNode(s[0]);
        var fw := Traverse(f, s[1..], true).value;
        assert w.tree == WithNewChild(n, s[0], fw.tree);
        WithNewChildPaths(n, s[0], fw.tree, u);
        if u[0] == s[0] {
          TraverseAddsOnlyPath(f, s[1..], u[1..]);
          OnPathStep(n, u);
        }
    }
  }

  /** After a walk with `addMissing`, a second walk of `s` without it succeeds and ends at the
      very node the first walk returned. */
  lemma {:induction false} TraverseAddsReaches<T>(n: Node<T>, s: seq<T>)
    ensures var w := Traverse(n, s, true).value;
      Traverse(w.tree, s, false) == Some(Walk(w.tree, w.reached))
    decreases |s|
  {
    var w := Traverse(n, s, true).value;
    if |s| > 0 {
      match IndexOf(n.children, s[0])
      case Some(i) =>
        var c := n.children[i].1;
        TraverseAddsReaches(c, s[1..]);
        var cw := Traverse(c, s[1..], true).value;
        assert w.tree == WithChild(n, i, cw.tree);
        assert SameKeys(n.children, w.tree.children);
        IndexOfSameKeys(n.children, w.tree.children, s[0]);
      case None =>
        var f := NewNode(s[0]);
        TraverseAddsReaches(f, s[1..]);
        var fw := Traverse(f, s[1..], true).value;
        assert w.tree == WithNewChild(n, s[0], fw.tree);
        IndexOfAppend(n.children, s[0], fw.tree, s[0]);
    }
  }

  // ---------------------------------------------------------------------------------------
  // Writing the flag back

  /** Writing a flag keeps the invariant and the shape: no node is added or removed, and every
      key keeps its place. */
  lemma {:induction false} MarkShape<T>(n: Node<T>, s: seq<T>, b: bool)
    requires Valid(n)
    ensures Valid(Mark(n, s, b))
    ensures Grows(n, Mark(n, s, b)) && Grows(Mark(n, s, b), n)
    decreases |s|
  {
    var m := Mark(n, s, b);
    if |s| == 0 {
      GrowsRefl(n);
    } else {
      match IndexOf(n.children, s[0])
      case None =>
        GrowsRefl(n);
      case Some(i) =>
        var c := n.children[i].1;
        MarkShape(c, s[1..], b);
        var c' := Mark(c, s[1..], b);
        assert m == WithChild(n, i, c');
        WithChildValid(n, i, c');
        WithChildGrows(n, i, c');
    }
  }

  /** Writing flag `b` at the end of the path `s` stores or drops `s` according to `b` and leaves
      every other sequence as it was. */
  lemma {:induction false} MarkLanguage<T>(n: Node<T>, s: seq<T>, b: bool, u: seq<T>)
    requires Valid(n) && OnPath(n, s)
    ensures InLanguage(Mark(n, s, b), u) <==> if u == s then b else InLanguage(n, u)
    decreases |s|
  {
    var m := Mark(n, s, b);
    if |s| == 0 {
      if |u| > 0 {
        InLanguageStep(n, u);
        InLanguageStep(m, u);
      }
    } else {
      OnPathStep(n, s);
      var i := IndexOf(n.children, s[0]).value;
      var c := n.children[i].1;
      var c' := Mark(c, s[1..], b);
      assert m == WithChild(n, i, c');
      WithChildLanguage(n, i, c', u);
      if |u| > 0 && u[0] == s[0] {
        MarkLanguage(c, s[1..], b, u[1..]);
        InLanguageStep(n, u);
        assert u == s <==> u[1..] == s[1..];
      }
    }
  }

  /** Writing flag `b` along an existing path: the invariant and shape are kept, and the stored
      set gains or loses `s` alone. */
  lemma MarkSemantics<T>(n: Node<T>, s: seq<T>, b: bool)
    requires Valid(n) && OnPath(n, s)
    ensures Valid(Mark(n, s, b))
    ensures Grows(n, Mark(n, s, b)) && Grows(Mark(n, s, b), n)
    ensures forall u :: InLanguage(Mark(n, s, b), u) <==> if u == s then b else InLanguage(n, u)
  {
    MarkShape(n, s, b);
    forall u ensures InLanguage(Mark(n, s, b), u) <==> if u == s then b else InLanguage(n, u) {
      MarkLanguage(n, s, b, u);
    }
  }

  /** Writing the flag a node already has changes nothing. */
  lemma {:induction false} MarkSameFlag<T>(n: Node<T>, s: seq<T>, b: bool)
    requires Traverse(n, s, false).Some? && Traverse(n, s, false).value.reached.isTerminal == b
    ensures Mark(n, s, b) == n
    decreases |s|
  {
    if |s| > 0 {
      var i := IndexOf(n.children, s[0]).value;
      MarkSameFlag(n.children[i].1, s[1..], b);
      assert n.children[i := (n.children[i].0, n.children[i].1)] == n.children;
    }
  }

  // ---------------------------------------------------------------------------------------
  // The public operations

  /** The empty trie keeps the invariant and stores exactly the empty sequence. */
  lemma EmptyTrie<T>()
    ensures ValidTrie(Empty<T>())
    ensures forall u: seq<T> :: Find(Empty(), u) <==> u == []
  {
  }

  /** `find` is membership in the stored set of sequences. */
  lemma FindIsMembership<T>(t: Trie<T>, s: seq<T>)
    requires ValidTrie(t)
    ensures Find(t, s) <==> InLanguage(t.root, s)
  {
    TraverseFindsPaths(t.root, s);
    if !Traverse(t.root, s, false).Some? && InLanguage(t.root, s) {
      InLanguageOnPath(t.root, s);
    }
  }

  /** `insert(s)` keeps the invariant, only grows the tree, creates nodes along `s` and nowhere
      else, and stores `s` and nothing else new. */
  lemma InsertSemantics<T>(t: Trie<T>, s: seq<T>)
    requires ValidTrie(t)
    ensures ValidTrie(Insert(t, s))
    ensures Grows(t.root, Insert(t, s).root) && Size(t.root) <= Size(Insert(t, s).root)
    ensures forall u :: InLanguage(Insert(t, s).root, u) <==> u == s || InLanguage(t.root, u)
    ensures forall u :: OnPath(Insert(t, s).root, u) <==> OnPath(t.root, u) || u <= s
  {
    var w := Traverse(t.root, s, true).value;
    TraverseAddsGrows(t.root, s);
    TraverseAddsReaches(t.root, s);
    TraverseFindsPaths(w.tree, s);
    MarkSemantics(w.tree, s, true);
    GrowsTrans(t.root, w.tree, Mark(w.tree, s, true));
    GrowsSize(t.root, Mark(w.tree, s, true));
    forall u ensures InLanguage(Insert(t, s).root, u) <==> u == s || InLanguage(t.root, u) {
      TraverseAddsNothingStored(t.root, s, u);
    }
    forall u ensures OnPath(Insert(t, s).root, u) <==> OnPath(t.root, u) || u <= s {
      TraverseAddsOnlyPath(t.root, s, u);
      if OnPath(w.tree, u) {
        GrowsKeepsPaths(w.tree, Insert(t, s).root, u);
      }
      if OnPath(Insert(t, s).root, u) {
        GrowsKeepsPaths(Insert(t, s).root, w.tree, u);
      }
    }
  }

  /** `delete(s)` keeps the invariant, neither adds nor removes nodes, and drops `s` and nothing
      else. */
  lemma DeleteSemantics<T>(t: Trie<T>, s: seq<T>)
    requires ValidTrie(t)
    ensures ValidTrie(Delete(t, s))
    ensures Grows(t.root, Delete(t, s).root) && Grows(Delete(t, s).root, t.root)
    ensures Size(Delete(t, s).root) == Size(t.root)
    ensures forall u :: InLanguage(Delete(t, s).root, u) <==> u != s && InLanguage(t.root, u)
  {
    TraverseFindsPaths(t.root, s);
    if Traverse(t.root, s, false).Some? {
      MarkSemantics(t.root, s, false);
      GrowsSize(t.root, Delete(t, s).root);
      GrowsSize(Delete(t, s).root, t.root);
    } else {
      GrowsRefl(t.root);
      if InLanguage(t.root, s) {
        InLanguageOnPath(t.root, s);
      }
    }
  }

  /** After `insert(s)`, `find` answers true for `s` and as before for every other sequence. */
  lemma FindAfterInsert<T>(t: Trie<T>, s: seq<T>)
    requires ValidTrie(t)
    ensures ValidTrie(Insert(t, s))
    ensures forall u :: Find(Insert(t, s), u) <==> u == s || Find(t, u)
  {
    InsertSemantics(t, s);
    forall u ensures Find(Insert(t, s), u) <==> u == s || Find(t, u) {
      FindIsMembership(t, u);
      FindIsMembership(Insert(t, s), u);
    }
  }

  /** After `delete(s)`, `find` answers false for `s` and as before for every other sequence. */
  lemma FindAfterDelete<T>(t: Trie<T>, s: seq<T>)
    requires ValidTrie(t)
    ensures ValidTrie(Delete(t, s))
    ensures forall u :: Find(Delete(t, s), u) <==> u != s && Find(t, u)
  {
    DeleteSemantics(t, s);
    forall u ensures Find(Delete(t, s), u) <==> u != s && Find(t, u) {
      FindIsMembership(t, u);
      FindIsMembership(Delete(t, s), u);
    }
  }

  /** Inserting a sequence that is already stored leaves the trie exactly as it was; in
      particular `insert` is idempotent. */
  lemma InsertPresentIsNoOp<T>(t: Trie<T>, s: seq<T>)
    requires Find(t, s)
    ensures Insert(t, s) == t
    ensures Insert(Insert(t, s), s) == Insert(t, s)
  {
    TraverseExistingPath(t.root, s);
    MarkSameFlag(t.root, s, true);
  }

  /** Deleting a sequence that is not stored, whether or not its path exists, leaves the trie
      exactly as it was and raises nothing. */
  lemma DeleteAbsentIsNoOp<T>(t: Trie<T>, s: seq<T>)
    requires !Find(t, s)
    ensures Delete(t, s) == t
  {
    if Traverse(t.root, s, false).Some? {
      MarkSameFlag(t.root, s, false);
    }
  }

  /** `delete([])` reaches the root itself and clears its flag, so afterwards `find([])` is
      false: the root does not stay terminal. Its children are untouched. */
  lemma DeleteEmptyUnmarksRoot<T>(t: Trie<T>)
    ensures Delete(t, []) == Trie(t.root.(isTerminal := false))
    ensures !Find(Delete(t, []), [])
  {
  }

  /** A trie built from the empty one by inserting `w` and then `p` stores exactly the empty
      sequence (the root is terminal from the start), `w` and `p`. */
  lemma FindAfterTwoInserts<T>(w: seq<T>, p: seq<T>, u: seq<T>)
    ensures Find(Insert(Insert(Empty(), w), p), u) <==> u == [] || u == w || u == p
  {
    var t0: Trie<T> := Empty();
    EmptyTrie<T>();
    FindAfterInsert(t0, w);
    FindAfterInsert(Insert(t0, w), p);
  }

  /** Inserting "Hello" and then its prefix "Hell" stores both, and not the prefix "Hel". */
  lemma PrefixInsertedAfterWord()
    ensures Find(Insert(Insert(Empty(), "Hello"), "Hell"), "Hell")
    ensures Find(Insert(Insert(Empty(), "Hello"), "Hell"), "Hello")
    ensures !Find(Insert(Insert(Empty(), "Hello"), "Hell"), "Hel")
  {
    FindAfterTwoInserts("Hello", "Hell", "Hell");
    FindAfterTwoInserts("Hello", "Hell", "Hello");
    FindAfterTwoInserts("Hello", "Hell", "Hel");
    assert "Hel" != "Hello" && "Hel" != "Hell" && "Hel" != [];
  }

  // ---------------------------------------------------------------------------------------
  // A trie holding one word

  /** The children a single stored word `w` hangs below the root: one node per letter, each the
      only child of the one before, only the last one's flag set to `term`. */
  function Chain<T>(w: seq<T>, term: bool): seq<(T, Node<T>)>
    decreases |w|
  {
    if |w| == 0 then [] else [(w[0], Node(Elem(w[0]), term && |w| == 1, Chain(w[1..], term)))]
  }

  /** Walking `w` with `addMissing` from a childless node hangs the non-terminal chain of `w`
      below it. */
  lemma {:induction false} TraverseFresh<T>(n: Node<T>, w: seq<T>)
    requires n.children == []
    ensures Traverse(n, w, true).value.tree == n.(children := Chain(w, false))
    decreases |w|
  {
    if |w| > 0 {
      TraverseFresh(NewNode(w[0]), w[1..]);
    }
  }

  /** Marking the end of a non-terminal chain makes it the chain of a stored word. */
  lemma {:induction false} MarkChain<T>(n: Node<T>, w: seq<T>)
    requires |w| > 0 && n.children == Chain(w, false)
    ensures Mark(n, w, true) == n.(children := Chain(w, true))
    decreases |w|
  {
    var c := n.children[0].1;
    if |w| > 1 {
      MarkChain(c, w[1..]);
    }
  }

  /** Inserting `w` into an empty trie gives a root whose descendants are the chain of `w`,
      with the last letter's node alone terminal. */
  lemma InsertIntoEmpty<T>(w: seq<T>)
    ensures Insert(Empty(), w).root == Node(RootLabel, true, Chain(w, true))
  {
    var root: Node<T> := NewRoot();
    TraverseFresh(root, w);
    if |w| > 0 {
      MarkChain(root.(children := Chain(w, false)), w);
    }
  }
}
