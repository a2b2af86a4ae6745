/** The renderer: `_get_last_child`, `_prettify_node`, `_prettify` and `Trie.prettify`, which
    draw a trie as a text tree, one line per node in depth-first pre-order, and Python's
    `str.rjust` and `str.rstrip` on which they rely. */
module Prettify {
  import opened TrieNodes
  import opened Tries

  /** The four keyword options of `prettify`. */
  datatype Config = Config(entryPrefix: string, finalPrefix: string, terminalSuffix: string, alignmentWidth: int)

  /** The options' default values. */
  const Defaults: Config := Config("├── ", "└── ", "**", 4)

  /** `str(letter)` for a trie of characters. */
  function CharText(c: char): string
  {
    [c]
  }

  // ---------------------------------------------------------------------------------------
  // The string methods the renderer uses

  /** Python's `str.isspace` for a single character: the code points Python classes as
      whitespace (bidirectional class WS, B or S, or general category Zs). */
  predicate IsSpace(c: char)
  {
    || '\t' <= c <= '\r'
    || '\U{1C}' <= c <= ' '
    || c == '\U{85}' || c == '\U{A0}' || c == '\U{1680}'
    || '\U{2000}' <= c <= '\U{200A}'
    || c == '\U{2028}' || c == '\U{2029}' || c == '\U{202F}' || c == '\U{205F}' || c == '\U{3000}'
  }

  /** `str.rstrip()`: the longest prefix of `s` that does not end in whitespace. */
  function RStrip(s: string): (r: string)
    ensures r <= s
    ensures |r| == 0 || !IsSpace(r[|r| - 1])
    ensures forall i :: |r| <= i < |s| ==> IsSpace(s[i])
  {
    if |s| == 0 || !IsSpace(s[|s| - 1]) then s else RStrip(s[..|s| - 1])
  }

  /** Stripping a text that does not end in whitespace, followed by one line break, removes
      exactly that line break. */
  lemma RStripDropsLineBreak(e: string)
    requires |e| > 0 && !IsSpace(e[|e| - 1])
    ensures RStrip(e + "\n") == e
  {
    assert IsSpace((e + "\n")[|e|]);
  }

  function Spaces(n: nat): (r: string)
  {
    seq(n, _ => ' ')
  }

  /** `s.rjust(width)`: `s` padded on the left with spaces up to `width` characters; `s`
      itself when it is at least that long already. */
  function RightJustify(s: string, width: int): (r: string)
    ensures |r| == if width > |s| then width else |s|
    ensures r[|r| - |s|..] == s
    ensures forall i :: 0 <= i < |r| - |s| ==> r[i] == ' '
  {
    if width > |s| then Spaces(width - |s|) + s else s
  }

  // ---------------------------------------------------------------------------------------
  // The renderer

  /** `str(node.data)`: the root's text is the text `Root`. */
  function DataText<T>(d: Data<T>, show: T -> string): string
  {
    match d
    case RootLabel => "Root"
    case Elem(v) => show(v)
  }

  /** `_get_last_child`: the position of the last entry of a dict, none for an empty one. The
      renderer's `child is final_child` compares a child with it: children are distinct
      objects, so this holds exactly at that position. */
  function LastChild<T>(cs: seq<(T, Node<T>)>): Option<nat>
  {
    if |cs| == 0 then None else Some(|cs| - 1)
  }

  /** The line `_prettify_node` emits for `n` at `depth`: the prefix glyph right-justified by
      `alignmentWidth` columns per level, the data, the terminal suffix if `n` is terminal,
      and a line break. */
  function Line<T>(n: Node<T>, cfg: Config, show: T -> string, depth: nat, finalEntry: bool): string
  {
    var prefix := if finalEntry then cfg.finalPrefix else cfg.entryPrefix;
    var terminator := if n.isTerminal then cfg.terminalSuffix else "";
    RightJustify(prefix, |prefix| + cfg.alignmentWidth * depth) + DataText(n.data, show) + terminator + "\n"
  }

  /** `_prettify_node`: the line of `n`, then its children one level deeper, in dict order. */
  function PrettifyNode<T>(n: Node<T>, cfg: Config, show: T -> string, depth: nat, finalEntry: bool): string
    decreases n, 1
  {
    Line(n, cfg, show, depth, finalEntry) + PrettifyChildren(n, cfg, show, depth + 1, 0)
  }

  /** The loop over `node.children.values()` from position `i` on, each child at `depth`. */
  function PrettifyChildren<T>(n: Node<T>, cfg: Config, show: T -> string, depth: nat, i: nat): string
    decreases n, 0, |n.children| - i
  {
    if i >= |n.children| then ""
    else
      var finalEntry := LastChild(n.children) == Some(i);
      PrettifyNode(n.children[i].1, cfg, show, depth, finalEntry) + PrettifyChildren(n, cfg, show, depth, i + 1)
  }

  /** `_prettify`: the root's text on a line of its own, then the root's children at depth 0. */
  function PrettifyRoot<T>(root: Node<T>, cfg: Config, show: T -> string): string
  {
    DataText(root.data, show) + "\n" + PrettifyChildren(root, cfg, show, 0, 0)
  }

  /** `Trie.prettify`: the drawing with trailing whitespace stripped. */
  function Render<T>(t: Trie<T>, cfg: Config, show: T -> string): string
  {
    RStrip(PrettifyRoot(t.root, cfg, show))
  }

  // ---------------------------------------------------------------------------------------
  // What the drawing looks like

  /** An empty trie is drawn as the single word `Root`, whatever the options. */
  lemma RenderEmpty<T>(cfg: Config, show: T -> string)
    ensures Render(Empty<T>(), cfg, show) == "Root"
  {
    assert PrettifyRoot(Empty<T>().root, cfg, show) == "Root" + "\n";
    RStripDropsLineBreak("Root");
  }

  /** The lines `generate_expected_prettify` of the test suite builds for the letters of `w`
      from depth `d` on: `' ' * alignment_width * depth`, the final prefix, the letter and a
      line break, one line per letter. */
  function ExpectedLines<T>(w: seq<T>, finalPrefix: string, alignmentWidth: int, show: T -> string, d: nat): string
    decreases |w|
  {
    if |w| == 0 then ""
    else
      Spaces(Indent(alignmentWidth, d)) + finalPrefix + show(w[0]) + "\n" + ExpectedLines(w[1..], finalPrefix, alignmentWidth, show, d + 1)
  }

  /** `generate_expected_prettify`: `Root`, a line break, the lines of the letters, and the
      last line break replaced by the terminal suffix. */
  function Expected<T>(w: seq<T>, finalPrefix: string, terminalSuffix: string, alignmentWidth: int, show: T -> string): string
  {
    var full := "Root" + "\n" + ExpectedLines(w, finalPrefix, alignmentWidth, show, 0);
    full[..|full| - 1] + terminalSuffix
  }

  /** The length of `' ' * alignment_width * depth`: Python repeats a string a non-positive
      number of times as the empty string. */
  function Indent(alignmentWidth: int, depth: nat): nat
  {
    if alignmentWidth > 0 then alignmentWidth * depth else 0
  }

  lemma MulSign(a: int, d: nat)
    ensures a > 0 ==> a * d >= 0
    ensures a <= 0 ==> a * d <= 0
  {
  }

  /** Right-justifying by `alignmentWidth * depth` columns indents exactly as the test's
      `' ' * alignment_width * depth` does, for every width, negative ones included. */
  lemma IndentAgrees(prefix: string, alignmentWidth: int, depth: nat)
    ensures RightJustify(prefix, |prefix| + alignmentWidth * depth) == Spaces(Indent(alignmentWidth, depth)) + prefix
  {
    var width := |prefix| + alignmentWidth * depth;
    var pad := Indent(alignmentWidth, depth);
    MulSign(alignmentWidth, depth);
    if width > |prefix| {
      assert pad == width - |prefix|;
    } else {
      assert pad == 0;
      assert Spaces(0) + prefix == prefix;
    }
  }

  /** The line drawn for a last child holding `letter`: indentation, final prefix, the letter,
      and the suffix exactly when the node is terminal. */
  lemma FinalLine<T>(c: Node<T>, letter: T, cfg: Config, show: T -> string, d: nat)
    requires c.data == Elem(letter)
    ensures Line(c, cfg, show, d, true)
         == Spaces(Indent(cfg.alignmentWidth, d)) + cfg.finalPrefix + show(letter)
            + (if c.isTerminal then cfg.terminalSuffix else "") + "\n"
  {
    IndentAgrees(cfg.finalPrefix, cfg.alignmentWidth, d);
  }

  /** The children of a node with a single child: that child's drawing as the final entry. */
  lemma OnlyChild<T>(n: Node<T>, cfg: Config, show: T -> string, d: nat)
    requires |n.children| == 1
    ensures PrettifyChildren(n, cfg, show, d, 0)
         == Line(n.children[0].1, cfg, show, d, true) + PrettifyChildren(n.children[0].1, cfg, show, d + 1, 0)
  {
    assert PrettifyChildren(n, cfg, show, d, 1) == "";
  }

  /** Below a node whose children are the chain of one stored word, the drawing is the test's
      expected lines with the suffix put before the very last line break. */
  lemma {:induction false} PrettifyChain<T>(n: Node<T>, w: seq<T>, cfg: Config, show: T -> string, d: nat)
    requires |w| > 0 && n.children == Chain(w, true)
    ensures var lines := ExpectedLines(w, cfg.finalPrefix, cfg.alignmentWidth, show, d);
      |lines| > 0 && PrettifyChildren(n, cfg, show, d, 0) == lines[..|lines| - 1] + cfg.terminalSuffix + "\n"
    decreases |w|
  {
    if |w| == 1 {
      ChainLast(n, w, cfg, show, d);
    } else {
      var c := n.children[0].1;
      var rest := ExpectedLines(w[1..], cfg.finalPrefix, cfg.alignmentWidth, show, d + 1);
      var p := Spaces(Indent(cfg.alignmentWidth, d)) + cfg.finalPrefix + show(w[0]);
      var lines := ExpectedLines(w, cfg.finalPrefix, cfg.alignmentWidth, show, d);
      assert lines == p + "\n" + rest;
      ChainInner(c, w, cfg, show, d);
      OnlyChild(n, cfg, show, d);
      PrettifyChain(c, w[1..], cfg, show, d + 1);
      ChainTail(lines, p, rest, Line(c, cfg, show, d, true), PrettifyChildren(c, cfg, show, d + 1, 0),
                cfg.terminalSuffix, PrettifyChildren(n, cfg, show, d, 0));
    }
  }

  /** The line of an inner node of a chain: no suffix, as the node is not terminal. */
  lemma ChainInner<T>(c: Node<T>, w: seq<T>, cfg: Config, show: T -> string, d: nat)
    requires |w| > 1 && c == Node(Elem(w[0]), false, Chain(w[1..], true))
    ensures Line(c, cfg, show, d, true) == Spaces(Indent(cfg.alignmentWidth, d)) + cfg.finalPrefix + show(w[0]) + "\n"
  {
    FinalLine(c, w[0], cfg, show, d);
  }

  /** PrettifyChain for a one-letter word: a single terminal leaf. */
  lemma ChainLast<T>(n: Node<T>, w: seq<T>, cfg: Config, show: T -> string, d: nat)
    requires |w| == 1 && n.children == Chain(w, true)
    ensures var lines := ExpectedLines(w, cfg.finalPrefix, cfg.alignmentWidth, show, d);
      |lines| > 0 && PrettifyChildren(n, cfg, show, d, 0) == lines[..|lines| - 1] + cfg.terminalSuffix + "\n"
  {
    var c := n.children[0].1;
    var p := Spaces(Indent(cfg.alignmentWidth, d)) + cfg.finalPrefix + show(w[0]);
    assert ExpectedLines(w[1..], cfg.finalPrefix, cfg.alignmentWidth, show, d + 1) == "";
    assert ExpectedLines(w, cfg.finalPrefix, cfg.alignmentWidth, show, d) == p + "\n";
    FinalLine(c, w[0], cfg, show, d);
    OnlyChild(n, cfg, show, d);
    assert PrettifyChildren(c, cfg, show, d + 1, 0) == "";
    DropBreak(p);
  }

  /** Sequence bookkeeping for PrettifyChain: a line followed by the drawing below it is the
      expected lines, the last line break moved behind the suffix. */
  lemma ChainTail(lines: string, p: string, rest: string, line: string, below: string, sfx: string, whole: string)
    requires lines == p + "\n" + rest && |rest| > 0 && line == p + "\n"
    requires below == rest[..|rest| - 1] + sfx + "\n" && whole == line + below
    ensures whole == lines[..|lines| - 1] + sfx + "\n"
  {
    DropLast(p + "\n", rest);
  }

  /** Dropping the last character of a text whose tail part is non-empty. */
  lemma DropLast(a: string, b: string)
    requires |b| > 0
    ensures (a + b)[..|a + b| - 1] == a + b[..|b| - 1]
  {
  }

  /** The expected text is `Root`, a line break, and the expected lines with their last line
      break replaced by the terminal suffix. */
  lemma ExpectedSplit<T>(w: seq<T>, finalPrefix: string, terminalSuffix: string, alignmentWidth: int, show: T -> string)
    requires |ExpectedLines(w, finalPrefix, alignmentWidth, show, 0)| > 0
    ensures var lines := ExpectedLines(w, finalPrefix, alignmentWidth, show, 0);
      Expected(w, finalPrefix, terminalSuffix, alignmentWidth, show) == "Root" + "\n" + lines[..|lines| - 1] + terminalSuffix
  {
    DropLast("Root" + "\n", ExpectedLines(w, finalPrefix, alignmentWidth, show, 0));
  }

  /** Sequence bookkeeping for PrettifyChainRoot. */
  lemma Glue(r: string, head: string, sfx: string, below: string, e: string)
    requires below == head + sfx + "\n" && e == r + head + sfx
    ensures r + below == e + "\n"
  {
  }

  /** The drawing of a root whose descendants are the chain of the non-empty word `w`, before
      stripping: the test's expected text and one line break. */
  lemma PrettifyChainRoot<T>(root: Node<T>, w: seq<T>, cfg: Config, show: T -> string)
    requires |w| > 0 && root == Node(RootLabel, true, Chain(w, true))
    ensures PrettifyRoot(root, cfg, show)
         == Expected(w, cfg.finalPrefix, cfg.terminalSuffix, cfg.alignmentWidth, show) + "\n"
  {
    var lines := ExpectedLines(w, cfg.finalPrefix, cfg.alignmentWidth, show, 0);
    var below := PrettifyChildren(root, cfg, show, 0, 0);
    PrettifyChain(root, w, cfg, show, 0);
    ExpectedSplit(w, cfg.finalPrefix, cfg.terminalSuffix, cfg.alignmentWidth, show);
    assert PrettifyRoot(root, cfg, show) == "Root" + "\n" + below;
    Glue("Root" + "\n", lines[..|lines| - 1], cfg.terminalSuffix, below,
         Expected(w, cfg.finalPrefix, cfg.terminalSuffix, cfg.alignmentWidth, show));
  }

  /** A final line break is whitespace, so stripping ignores it. */
  lemma RStripLineBreak(e: string)
    ensures RStrip(e + "\n") == RStrip(e)
  {
    assert (e + "\n")[..|e + "\n"| - 1] == e;
  }

  /** For every option value, a trie holding the one non-empty word `w` is drawn as the text
      `generate_expected_prettify` builds, stripped of trailing whitespace as `prettify` strips
      its own drawing. */
  lemma RenderSingleWordStripped<T>(w: seq<T>, cfg: Config, show: T -> string)
    requires |w| > 0
    ensures Render(Insert(Empty(), w), cfg, show)
         == RStrip(Expected(w, cfg.finalPrefix, cfg.terminalSuffix, cfg.alignmentWidth, show))
  {
    InsertIntoEmpty(w);
    PrettifyChainRoot(Insert(Empty(), w).root, w, cfg, show);
    RStripLineBreak(Expected(w, cfg.finalPrefix, cfg.terminalSuffix, cfg.alignmentWidth, show));
  }

  /** A trie holding the one non-empty word `w` is drawn exactly as `generate_expected_prettify`
      predicts: `Root`, then one line per letter, the letter at depth `d` indented by
      `alignmentWidth * d` columns before the final prefix, and the terminal suffix on the last
      line, provided the drawing does not end in whitespace that `rstrip` would remove. */
  lemma RenderSingleWord<T>(w: seq<T>, cfg: Config, show: T -> string)
    requires |w| > 0
    requires var e := Expected(w, cfg.finalPrefix, cfg.terminalSuffix, cfg.alignmentWidth, show);
      !IsSpace(e[|e| - 1])
    ensures Render(Insert(Empty(), w), cfg, show)
         == Expected(w, cfg.finalPrefix, cfg.terminalSuffix, cfg.alignmentWidth, show)
  {
    InsertIntoEmpty(w);
    PrettifyChainRoot(Insert(Empty(), w).root, w, cfg, show);
    RStripDropsLineBreak(Expected(w, cfg.finalPrefix, cfg.terminalSuffix, cfg.alignmentWidth, show));
  }

  /** With the default options every non-empty word of characters is drawn as the test expects:
      the suffix `**` keeps `rstrip` off the last line. */
  lemma RenderSingleWordDefaults(w: string)
    requires |w| > 0
    ensures Render(Insert(Empty(), w), Defaults, CharText) == Expected(w, "└── ", "**", 4, CharText)
  {
    RenderSingleWord(w, Defaults, CharText);
  }

  /** A text with one line break appended, that line break dropped again. */
  lemma DropBreak(a: string)
    ensures (a + "\n")[..|a + "\n"| - 1] == a
  {
  }

  /** The test's expected lines for "Hi" with the default options. */
  lemma ExpectedLinesHi()
    ensures ExpectedLines("Hi", "└── ", 4, CharText, 0) == "└── H\n    └── i" + "\n"
  {
    assert Spaces(Indent(4, 0)) == "";
    assert Spaces(Indent(4, 1)) == "    ";
    assert "Hi"[1..] == "i" && "i"[1..] == "";
    assert ExpectedLines("", "└── ", 4, CharText, 2) == "";
    assert ExpectedLines("i", "└── ", 4, CharText, 1) == "    └── i\n";
  }

  /** The text the test expects for "Hi" with the default options. */
  lemma ExpectedHi()
    ensures Expected("Hi", "└── ", "**", 4, CharText) == "Root\n└── H\n    └── i**"
  {
    ExpectedLinesHi();
    var p := "Root\n└── H\n    └── i";
    assert "Root" + "\n" + ExpectedLines("Hi", "└── ", 4, CharText, 0) == p + "\n";
    DropBreak(p);
  }

  /** The trie holding "Hi" is drawn as `Root`, `└── H`, `    └── i**`. */
  lemma RenderHi()
    ensures Render(Insert(Empty(), "Hi"), Defaults, CharText) == "Root\n└── H\n    └── i**"
  {
    RenderSingleWordDefaults("Hi");
    ExpectedHi();
  }

  /** Inserting "b" and then "a" into an empty trie hangs two leaves below the root, "b" first. */
  lemma InsertTwoLeaves()
    ensures Insert(Insert(Empty(), "b"), "a").root
         == Node(RootLabel, true, [('b', Node(Elem('b'), true, [])), ('a', Node(Elem('a'), true, []))])
  {
    var t1 := Insert(Empty(), "b");
    InsertIntoEmpty("b");
    var b := Node(Elem('b'), true, []);
    assert t1.root == Node(RootLabel, true, [('b', b)]);
    assert IndexOf(t1.root.children, 'a') == None;
    var w := Traverse(t1.root, "a", true).value;
    assert w.tree == Node(RootLabel, true, [('b', b), ('a', NewNode('a'))]);
    assert IndexOf(w.tree.children, 'a') == Some(1);
  }

  /** A childless node at depth 0 is drawn as one line: the glyph, its letter, and the suffix
      when it is terminal. */
  lemma TopLeaf(c: Node<char>, x: char, finalEntry: bool)
    requires c.data == Elem(x) && c.children == []
    ensures PrettifyNode(c, Defaults, CharText, 0, finalEntry)
         == (if finalEntry then "└── " else "├── ") + [x] + (if c.isTerminal then "**" else "") + "\n"
  {
    var prefix := if finalEntry then "└── " else "├── ";
    assert RightJustify(prefix, |prefix| + 4 * 0) == prefix;
    assert PrettifyChildren(c, Defaults, CharText, 1, 0) == "";
  }

  /** The children of a node with two children: the first drawn as an entry, the second as the
      final entry. */
  lemma TwoChildren<T>(n: Node<T>, cfg: Config, show: T -> string, d: nat)
    requires |n.children| == 2
    ensures PrettifyChildren(n, cfg, show, d, 0)
         == PrettifyNode(n.children[0].1, cfg, show, d, false) + PrettifyNode(n.children[1].1, cfg, show, d, true)
  {
    assert PrettifyChildren(n, cfg, show, d, 2) == "";
  }

  /** The drawing of a root with the two leaves "b" and "a". */
  lemma PrettifyTwoLeaves(root: Node<char>)
    requires root == Node(RootLabel, true, [('b', Node(Elem('b'), true, [])), ('a', Node(Elem('a'), true, []))])
    ensures PrettifyRoot(root, Defaults, CharText) == "Root\n├── b**\n└── a**\n"
  {
    TopLeaf(root.children[0].1, 'b', false);
    TopLeaf(root.children[1].1, 'a', true);
    TwoChildren(root, Defaults, CharText, 0);
    assert PrettifyChildren(root, Defaults, CharText, 0, 0) == "├── b**\n" + "└── a**\n";
  }

  /** The trie built by inserting "b" and then "a" draws "b" above "a": siblings appear in
      insertion order, not sorted, and only the later one gets the final prefix. */
  lemma SiblingsInInsertionOrder()
    ensures Render(Insert(Insert(Empty(), "b"), "a"), Defaults, CharText) == "Root\n├── b**\n└── a**"
  {
    InsertTwoLeaves();
    RenderTwoLeaves(Insert(Insert(Empty(), "b"), "a"));
  }

  /** The stripped drawing of a trie whose root has the two leaves "b" and "a". */
  lemma RenderTwoLeaves(t: Trie<char>)
    requires t.root == Node(RootLabel, true, [('b', Node(Elem('b'), true, [])), ('a', Node(Elem('a'), true, []))])
    ensures Render(t, Defaults, CharText) == "Root\n├── b**\n└── a**"
  {
    PrettifyTwoLeaves(t.root);
    var e := "Root\n├── b**\n└── a**";
    assert PrettifyRoot(t.root, Defaults, CharText) == e + "\n";
    RStripDropsLineBreak(e);
  }

  /** `rstrip` reaches past the final line break: once " " is inserted and deleted again, the
      last line is a non-terminal node holding a blank, and the drawing loses that blank and
      the blank ending the prefix glyph. */
  lemma RStripEatsBlankData()
    ensures Render(Delete(Insert(Empty(), " "), " "), Defaults, CharText) == "Root\n└──"
  {
    var t1 := Insert(Empty(), " ");
    InsertIntoEmpty(" ");
    var root := Delete(t1, " ").root;
    assert root == Node(RootLabel, true, [(' ', Node(Elem(' '), false, []))]);
    PrettifyBlankLeaf(root);
    var drawn := "Root\n└──" + "  \n";
    assert IsSpace(drawn[|drawn| - 1]) && IsSpace(drawn[|drawn| - 2]) && IsSpace(drawn[|drawn| - 3]);
    assert !IsSpace(drawn[|drawn| - 4]);
  }

  /** The drawing of a root with one non-terminal leaf holding a blank. */
  lemma PrettifyBlankLeaf(root: Node<char>)
    requires root == Node(RootLabel, true, [(' ', Node(Elem(' '), false, []))])
    ensures PrettifyRoot(root, Defaults, CharText) == "Root\n└──" + "  \n"
  {
    TopLeaf(root.children[0].1, ' ', true);
    assert PrettifyChildren(root, Defaults, CharText, 0, 1) == "";
  }

  // ---------------------------------------------------------------------------------------
  // One line per node

  /** The number of occurrences of `c` in `s`. */
  function Occurrences(s: string, c: char): nat
  {
    if |s| == 0 then 0 else (if s[0] == c then 1 else 0) + Occurrences(s[1..], c)
  }

  lemma {:induction false} OccurrencesConcat(a: string, b: string, c: char)
    ensures Occurrences(a + b, c) == Occurrences(a, c) + Occurrences(b, c)
    decreases |a|
  {
    if |a| > 0 {
      assert (a + b)[1..] == a[1..] + b;
      OccurrencesConcat(a[1..], b, c);
    } else {
      assert a + b == b;
    }
  }

  lemma {:induction false} OccurrencesAbsent(s: string, c: char)
    requires c !in s
    ensures Occurrences(s, c) == 0
    decreases |s|
  {
    if |s| > 0 {
      assert c !in s[1..];
      OccurrencesAbsent(s[1..], c);
    }
  }

  /** None of the options and no element's text contains a line break. */
  ghost predicate BreakFree<T(!new)>(cfg: Config, show: T -> string)
  {
    && '\n' !in cfg.entryPrefix && '\n' !in cfg.finalPrefix && '\n' !in cfg.terminalSuffix
    && forall v :: '\n' !in show(v)
  }

  /** Right-justifying adds only blanks, so it brings in no line break. */
  lemma PadBreakFree(prefix: string, width: int)
    requires '\n' !in prefix
    ensures '\n' !in RightJustify(prefix, width)
  {
    var pad := RightJustify(prefix, width);
    forall i | 0 <= i < |pad| ensures pad[i] != '\n' {
      if i >= |pad| - |prefix| {
        assert pad[i] == pad[|pad| - |prefix|..][i - (|pad| - |prefix|)];
      }
    }
  }

  /** Each line `_prettify_node` emits holds exactly one line break. */
  lemma LineHasOneBreak<T(!new)>(n: Node<T>, cfg: Config, show: T -> string, depth: nat, finalEntry: bool)
    requires BreakFree(cfg, show)
    ensures Occurrences(Line(n, cfg, show, depth, finalEntry), '\n') == 1
  {
    var prefix := if finalEntry then cfg.finalPrefix else cfg.entryPrefix;
    var terminator := if n.isTerminal then cfg.terminalSuffix else "";
    var pad := RightJustify(prefix, |prefix| + cfg.alignmentWidth * depth);
    PadBreakFree(prefix, |prefix| + cfg.alignmentWidth * depth);
    var text := DataText(n.data, show);
    assert '\n' !in text;
    var body := pad + text + terminator;
    assert '\n' !in body;
    OccurrencesAbsent(body, '\n');
    OccurrencesConcat(body, "\n", '\n');
  }

  /** The drawing of a node and its subtree has one line per node of the subtree. */
  lemma {:induction false} NodeLines<T(!new)>(n: Node<T>, cfg: Config, show: T -> string, depth: nat, finalEntry: bool)
    requires BreakFree(cfg, show)
    ensures Occurrences(PrettifyNode(n, cfg, show, depth, finalEntry), '\n') == Size(n)
    decreases n, 1
  {
    LineHasOneBreak(n, cfg, show, depth, finalEntry);
    ChildrenLines(n, cfg, show, depth + 1, 0);
    OccurrencesConcat(Line(n, cfg, show, depth, finalEntry), PrettifyChildren(n, cfg, show, depth + 1, 0), '\n');
  }

  lemma {:induction false} ChildrenLines<T(!new)>(n: Node<T>, cfg: Config, show: T -> string, depth: nat, i: nat)
    requires BreakFree(cfg, show)
    ensures Occurrences(PrettifyChildren(n, cfg, show, depth, i), '\n') == SizeFrom(n, i)
    decreases n, 0, |n.children| - i
  {
    if i < |n.children| {
      var finalEntry := LastChild(n.children) == Some(i);
      NodeLines(n.children[i].1, cfg, show, depth, finalEntry);
      ChildrenLines(n, cfg, show, depth, i + 1);
      OccurrencesConcat(PrettifyNode(n.children[i].1, cfg, show, depth, finalEntry),
                        PrettifyChildren(n, cfg, show, depth, i + 1), '\n');
    }
  }

  /** `_prettify` emits one line per node of the trie, the root's `Root` line included, as long
      as no option and no element's text contains a line break of its own. */
  lemma PrettifyOneLinePerNode<T(!new)>(t: Trie<T>, cfg: Config, show: T -> string)
    requires BreakFree(cfg, show)
    ensures Occurrences(PrettifyRoot(t.root, cfg, show), '\n') == Size(t.root)
  {
    var text := DataText(t.root.data, show);
    assert '\n' !in text;
    OccurrencesAbsent(text, '\n');
    OccurrencesConcat(text, "\n", '\n');
    ChildrenLines(t.root, cfg, show, 0, 0);
    OccurrencesConcat(text + "\n", PrettifyChildren(t.root, cfg, show, 0, 0), '\n');
  }
}
