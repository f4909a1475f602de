/**
 * Finished blocks of a parsed deck as values (`INode` once its reader has
 * stopped): a kind, an optional header, the start line and the content,
 * which is a sequence of text lines and child blocks. A node's parents are
 * given by its position: a path of content indices from the root.
 */
module Tree {
  import opened Wrappers
  import opened Strings
  import opened LineUtils
  import opened Kinds

  datatype Item = Text(line: string) | Child(block: Block)

  datatype Block = Block(kind: Kind, header: Option<Header>, start: int, content: seq<Item>)

  // ------------------------------------------------------------- children

  /** `getchildren` over a content sequence: the blocks, in content order. */
  function ChildrenOf(items: seq<Item>): (r: seq<Block>)
    ensures |r| <= |items|
    ensures forall c :: c in r <==> Child(c) in items
  {
    if items == [] then []
    else
      var rest := ChildrenOf(items[1..]);
      assert forall c :: Child(c) in items <==> Child(c) == items[0] || Child(c) in items[1..];
      if items[0].Child? then [items[0].block] + rest else rest
  }

  function Children(b: Block): seq<Block>
  {
    ChildrenOf(b.content)
  }

  lemma {:induction false} ChildrenOfConcat(a: seq<Item>, b: seq<Item>)
    ensures ChildrenOf(a + b) == ChildrenOf(a) + ChildrenOf(b)
    decreases |a|
  {
    if a != [] {
      assert (a + b)[1..] == a[1..] + b;
      ChildrenOfConcat(a[1..], b);
    } else {
      assert a + b == b;
    }
  }

  /** Appending a text line adds no child; appending a block adds it last. */
  lemma ChildrenOfSnoc(items: seq<Item>, x: Item)
    ensures ChildrenOf(items + [x]) == ChildrenOf(items) + (if x.Child? then [x.block] else [])
  {
    ChildrenOfConcat(items, [x]);
    assert [x][1..] == [];
  }

  // --------------------------------------------------------------- length

  function HeaderLen(b: Block): nat
  {
    if b.header.Some? then 1 else 0
  }

  /** `len(node)`: one for the header, one per text line, a child's own length;
      a non-inline include counts as its one include line. */
  function Len(b: Block): nat
    decreases b
  {
    if b.kind == Include(false) then 1 else HeaderLen(b) + ItemsLen(b.content)
  }

  function ItemsLen(items: seq<Item>): nat
    decreases items
  {
    if items == [] then 0
    else ItemLen(items[0]) + ItemsLen(items[1..])
  }

  function ItemLen(x: Item): nat
    decreases x
  {
    match x case Text(_) => 1 case Child(c) => Len(c)
  }

  lemma {:induction false} ItemsLenConcat(a: seq<Item>, b: seq<Item>)
    ensures ItemsLen(a + b) == ItemsLen(a) + ItemsLen(b)
    decreases |a|
  {
    if a != [] {
      assert (a + b)[1..] == a[1..] + b;
      ItemsLenConcat(a[1..], b);
    } else {
      assert a + b == b;
    }
  }

  lemma ItemsLenSnoc(items: seq<Item>, x: Item)
    ensures ItemsLen(items + [x]) == ItemsLen(items) + ItemLen(x)
  {
    ItemsLenConcat(items, [x]);
    assert [x][1..] == [];
  }

  // ----------------------------------------------------------------- repr

  /** An inline include writes its header, so it must have one; every other block prints,
      and a non-inline include does not print its content. */
  predicate Printable(b: Block)
    decreases b
  {
    && (b.kind == Include(true) ==> b.header.Some?)
    && (b.kind != Include(false) ==> forall i :: 0 <= i < |b.content| ==> ItemPrintable(b.content[i]))
  }

  predicate ItemPrintable(x: Item)
    decreases x
  {
    x.Text? || Printable(x.block)
  }

  predicate ItemsPrintable(items: seq<Item>)
  {
    forall i :: 0 <= i < |items| ==> ItemPrintable(items[i])
  }

  lemma ItemsPrintableConcat(a: seq<Item>, b: seq<Item>)
    requires ItemsPrintable(a) && ItemsPrintable(b)
    ensures ItemsPrintable(a + b)
  {
    assert forall i :: 0 <= i < |a + b| ==> (a + b)[i] == if i < |a| then a[i] else b[i - |a|];
  }

  function HeaderLines(b: Block): seq<string>
  {
    if b.header.Some? then [b.header.value.line] else []
  }

  /** The lines of `repr(node)`: the header line (prefixed by "*" for an inline include),
      every text line without its trailing newlines, and each child's lines; a
      non-inline include is just its include line, or its name without a header. */
  function Lines(b: Block): seq<string>
    requires Printable(b)
    decreases b
  {
    if b.kind == Include(false) then
      (if b.header.Some? then [b.header.value.line] else [Name(b.kind)])
    else if b.kind == Include(true) then
      ["*" + b.header.value.line] + ItemsLines(b.content)
    else HeaderLines(b) + ItemsLines(b.content)
  }

  function ItemsLines(items: seq<Item>): seq<string>
    requires ItemsPrintable(items)
    decreases items
  {
    if items == [] then []
    else
      assert ItemPrintable(items[0]);
      assert ItemsPrintable(items[1..]) by {
        assert forall i :: 0 <= i < |items[1..]| ==> items[1..][i] == items[i + 1];
      }
      ItemLines(items[0]) + ItemsLines(items[1..])
  }

  function ItemLines(x: Item): seq<string>
    requires ItemPrintable(x)
    decreases x
  {
    match x case Text(s) => [RStripNL(s)] case Child(c) => Lines(c)
  }

  lemma {:induction false} ItemsLinesConcat(a: seq<Item>, b: seq<Item>)
    requires ItemsPrintable(a) && ItemsPrintable(b)
    ensures ItemsPrintable(a + b)
    ensures ItemsLines(a + b) == ItemsLines(a) + ItemsLines(b)
    decreases |a|
  {
    ItemsPrintableConcat(a, b);
    if a != [] {
      assert (a + b)[1..] == a[1..] + b;
      assert ItemsPrintable(a[1..]) by {
        assert forall i :: 0 <= i < |a[1..]| ==> a[1..][i] == a[i + 1];
      }
      ItemsLinesConcat(a[1..], b);
    } else {
      assert a + b == b;
    }
  }

  lemma ItemsLinesSnoc(items: seq<Item>, x: Item)
    requires ItemsPrintable(items) && ItemPrintable(x)
    ensures ItemsPrintable(items + [x])
    ensures ItemsLines(items + [x]) == ItemsLines(items) + ItemLines(x)
  {
    ItemsLinesConcat(items, [x]);
    assert [x][1..] == [];
  }

  /** `repr` and `len` agree: a block writes exactly as many lines as it counts. */
  lemma {:induction false} LinesLen(b: Block)
    requires Printable(b)
    ensures |Lines(b)| == Len(b)
    decreases b, 1
  {
    if b.kind != Include(false) {
      ItemsLinesLen(b.content);
    }
  }

  lemma {:induction false} ItemsLinesLen(items: seq<Item>)
    requires ItemsPrintable(items)
    ensures |ItemsLines(items)| == ItemsLen(items)
    decreases items, 0
  {
    if items != [] {
      assert ItemPrintable(items[0]);
      assert ItemsPrintable(items[1..]) by {
        assert forall i :: 0 <= i < |items[1..]| ==> items[1..][i] == items[i + 1];
      }
      ItemLinesLen(items[0]);
      ItemsLinesLen(items[1..]);
    }
  }

  lemma {:induction false} ItemLinesLen(x: Item)
    requires ItemPrintable(x)
    ensures |ItemLines(x)| == ItemLen(x)
    decreases x
  {
    if x.Child? {
      LinesLen(x.block);
    }
  }

  /** `repr(node)` itself: the parts joined by newlines, a child contributing its own
      `repr` as one part. */
  function Repr(b: Block): string
    requires Printable(b)
    decreases b, 1
  {
    var head :=
      if b.kind == Include(false) then (if b.header.Some? then [b.header.value.line] else [Name(b.kind)])
      else if b.kind == Include(true) then ["*" + b.header.value.line]
      else HeaderLines(b);
    Join(head + (if b.kind == Include(false) then [] else ItemsRepr(b.content)), "\n")
  }

  function ItemsRepr(items: seq<Item>): (r: seq<string>)
    requires ItemsPrintable(items)
    ensures |r| == |items|
    decreases items, 0
  {
    if items == [] then []
    else
      assert ItemPrintable(items[0]);
      assert ItemsPrintable(items[1..]) by {
        assert forall i :: 0 <= i < |items[1..]| ==> items[1..][i] == items[i + 1];
      }
      [ItemRepr(items[0])] + ItemsRepr(items[1..])
  }

  function ItemRepr(x: Item): string
    requires ItemPrintable(x)
    decreases x
  {
    match x case Text(s) => RStripNL(s) case Child(c) => Repr(c)
  }

  /** Every block below has a header. */
  predicate Headed(b: Block)
    decreases b
  {
    b.header.Some? && forall i :: 0 <= i < |b.content| ==> ItemHeaded(b.content[i])
  }

  predicate ItemHeaded(x: Item)
    decreases x
  {
    x.Text? || Headed(x.block)
  }

  /** Every block below prints at least one line: it is a non-inline include, or it
      is printable and has a header or some content. */
  predicate Shown(b: Block)
    decreases b
  {
    b.kind == Include(false) ||
    (&& (b.kind == Include(true) ==> b.header.Some?)
     && (b.header.Some? || b.content != [])
     && forall i :: 0 <= i < |b.content| ==> ItemShown(b.content[i]))
  }

  predicate ItemShown(x: Item)
    decreases x
  {
    x.Text? || Shown(x.block)
  }

  predicate ItemsShown(items: seq<Item>)
  {
    forall i :: 0 <= i < |items| ==> ItemShown(items[i])
  }

  lemma ShownPrintable(b: Block)
    requires Shown(b)
    ensures Printable(b)
    decreases b
  {
    if b.kind != Include(false) {
      forall i | 0 <= i < |b.content| ensures ItemPrintable(b.content[i]) {
        if b.content[i].Child? {
          assert ItemShown(b.content[i]);
          ShownPrintable(b.content[i].block);
        }
      }
    }
  }

  lemma JoinConcat(a: seq<string>, b: seq<string>, sep: string)
    requires a != [] && b != []
    ensures Join(a + b, sep) == Join(a, sep) + sep + Join(b, sep)
    decreases |a|
  {
    if |a| > 1 {
      assert (a + b)[1..] == a[1..] + b;
      JoinConcat(a[1..], b, sep);
    } else {
      assert (a + b)[1..] == b;
    }
  }

  /** When every block below prints a line, `repr` is the newline join of `Lines`. */
  lemma {:induction false} ReprIsJoinedLines(b: Block)
    requires Shown(b)
    ensures Printable(b) && Lines(b) != [] && Repr(b) == Join(Lines(b), "\n")
    decreases b, 1
  {
    ShownPrintable(b);
    if b.kind != Include(false) {
      var head := if b.kind == Include(true) then ["*" + b.header.value.line] else HeaderLines(b);
      assert ItemsShown(b.content);
      ItemsReprIsJoinedLines(b.content);
      if head == [] {
        assert head + ItemsRepr(b.content) == ItemsRepr(b.content);
        assert head + ItemsLines(b.content) == ItemsLines(b.content);
      } else if b.content != [] {
        JoinConcat(head, ItemsRepr(b.content), "\n");
        JoinConcat(head, ItemsLines(b.content), "\n");
      } else {
        assert head + ItemsRepr(b.content) == head;
        assert head + ItemsLines(b.content) == head;
      }
    }
  }

  /** The joined parts of a content are its joined lines. */
  lemma {:induction false} ItemsReprIsJoinedLines(items: seq<Item>)
    requires ItemsShown(items)
    ensures ItemsPrintable(items)
    ensures ItemsLines(items) == [] <==> items == []
    ensures Join(ItemsRepr(items), "\n") == Join(ItemsLines(items), "\n")
    decreases items, 0
  {
    assert ItemsPrintable(items) by {
      forall i | 0 <= i < |items| ensures ItemPrintable(items[i]) {
        assert ItemShown(items[i]);
        ItemShownPrintable(items[i]);
      }
    }
    if items != [] {
      var x, rest := items[0], items[1..];
      assert ItemShown(x);
      assert ItemsShown(rest) by {
        assert forall i :: 0 <= i < |rest| ==> rest[i] == items[i + 1];
      }
      ItemReprIsJoinedLines(x);
      ItemsReprIsJoinedLines(rest);
      if rest != [] {
        JoinConcat([ItemRepr(x)], ItemsRepr(rest), "\n");
        JoinConcat(ItemLines(x), ItemsLines(rest), "\n");
      } else {
        assert ItemsLines(items) == ItemLines(x) + [];
        assert ItemLines(x) + [] == ItemLines(x);
        assert ItemsRepr(items) == [ItemRepr(x)] + [];
        assert [ItemRepr(x)] + [] == [ItemRepr(x)];
      }
    }
  }

  lemma {:induction false} ItemReprIsJoinedLines(x: Item)
    requires ItemShown(x)
    ensures ItemPrintable(x) && ItemLines(x) != [] && Join([ItemRepr(x)], "\n") == Join(ItemLines(x), "\n")
    decreases x
  {
    ItemShownPrintable(x);
    if x.Child? {
      ReprIsJoinedLines(x.block);
    }
  }

  lemma ItemShownPrintable(x: Item)
    requires ItemShown(x)
    ensures ItemPrintable(x)
  {
    if x.Child? {
      ShownPrintable(x.block);
    }
  }

  // --------------------------------------------------------------- inline

  /** `setinline`: switch an include between its two `len`/`repr` modes. */
  function SetInline(b: Block, inline: bool): (r: Block)
    requires b.kind.Include?
    ensures r.kind == Include(inline) && r.header == b.header && r.content == b.content && r.start == b.start
  {
    b.(kind := Include(inline))
  }

  /** A non-inline include is one line, its own; an inline one is "*" + its line,
      then its content, and counts the header and content. */
  lemma IncludeModes(b: Block)
    requires b.kind.Include? && b.header.Some? && ItemsPrintable(b.content)
    ensures Printable(SetInline(b, false)) && Printable(SetInline(b, true))
    ensures Lines(SetInline(b, false)) == [b.header.value.line] && Len(SetInline(b, false)) == 1
    ensures Lines(SetInline(b, true)) == ["*" + b.header.value.line] + ItemsLines(b.content)
    ensures Len(SetInline(b, true)) == 1 + ItemsLen(b.content)
  {
    ItemsLinesLen(b.content);
  }

  // ---------------------------------------------------------------- paths

  /** A path of content indices, each naming a child block. */
  predicate IsPath(b: Block, p: seq<nat>)
    decreases |p|
  {
    |p| == 0 ||
    (p[0] < |b.content| && b.content[p[0]].Child? && IsPath(b.content[p[0]].block, p[1..]))
  }

  /** The block a path leads to. */
  function At(b: Block, p: seq<nat>): Block
    requires IsPath(b, p)
    decreases |p|
  {
    if |p| == 0 then b else At(b.content[p[0]].block, p[1..])
  }

  /** Extending a path by one more child index. */
  lemma {:induction false} PathSnoc(b: Block, p: seq<nat>, j: nat)
    requires IsPath(b, p)
    ensures IsPath(b, p + [j]) <==> j < |At(b, p).content| && At(b, p).content[j].Child?
    ensures IsPath(b, p + [j]) ==> At(b, p + [j]) == At(b, p).content[j].block
    decreases |p|
  {
    if |p| > 0 {
      assert (p + [j])[1..] == p[1..] + [j];
      PathSnoc(b.content[p[0]].block, p[1..], j);
    }
  }

  /** Every prefix of a path is a path. */
  lemma {:induction false} PathPrefix(b: Block, p: seq<nat>, k: nat)
    requires IsPath(b, p) && k <= |p|
    ensures IsPath(b, p[..k])
    decreases |p|
  {
    if k > 0 {
      assert p[..k][1..] == p[1..][..k - 1];
      PathPrefix(b.content[p[0]].block, p[1..], k - 1);
    }
  }

  /** `upstreamhierarchy`: the parent, its parent, and so on up to the root. */
  function Upstream(b: Block, p: seq<nat>): (r: seq<Block>)
    requires IsPath(b, p)
    ensures |r| == |p|
    decreases |p|
  {
    if |p| == 0 then []
    else
      PathPrefix(b, p, |p| - 1);
      [At(b, p[..|p| - 1])] + Upstream(b, p[..|p| - 1])
  }

  /** The `i`-th block upstream is the block `i + 1` steps up the path. */
  lemma {:induction false} UpstreamSpec(b: Block, p: seq<nat>, i: nat)
    requires IsPath(b, p) && i < |p|
    ensures IsPath(b, p[..|p| - 1 - i]) && Upstream(b, p)[i] == At(b, p[..|p| - 1 - i])
    decreases |p|
  {
    var q := p[..|p| - 1];
    PathPrefix(b, p, |p| - 1);
    if i > 0 {
      UpstreamSpec(b, q, i - 1);
      assert q[..|q| - 1 - (i - 1)] == p[..|p| - 1 - i];
    } else {
      assert p[..|p| - 1 - i] == q;
    }
  }

  /** `getroot`: the last block upstream, or the block itself at the top. */
  function GetRoot(b: Block, p: seq<nat>): (r: Block)
    requires IsPath(b, p)
    ensures r == b
  {
    if |p| > 0 then
      UpstreamSpec(b, p, |p| - 1);
      assert p[..0] == [];
      Upstream(b, p)[|p| - 1]
    else At(b, p)
  }

  // -------------------------------------------------------------- flatten

  function Prepend(j: nat, ps: seq<seq<nat>>): (r: seq<seq<nat>>)
    ensures |r| == |ps| && forall i :: 0 <= i < |ps| ==> r[i] == [j] + ps[i]
  {
    seq(|ps|, i requires 0 <= i < |ps| => [j] + ps[i])
  }

  /** `flatten`: every block below, each child followed by its own descendants. */
  function DescPaths(b: Block): seq<seq<nat>>
    decreases b, 1
  {
    DescFrom(b, 0)
  }

  /** The descendants reached through the content from index `j` on. */
  function DescFrom(b: Block, j: nat): seq<seq<nat>>
    decreases b, 0, |b.content| - j
  {
    if j >= |b.content| then [] else DescHere(b, j) + DescFrom(b, j + 1)
  }

  /** The flattened blocks are exactly the blocks at non-empty paths. */
  lemma {:induction false} DescPathsSpec(b: Block, p: seq<nat>)
    ensures p in DescPaths(b) <==> |p| > 0 && IsPath(b, p)
    decreases b, 1
  {
    DescFromSpec(b, 0, p);
  }

  lemma {:induction false} DescFromSpec(b: Block, j: nat, p: seq<nat>)
    ensures p in DescFrom(b, j) <==> |p| > 0 && p[0] >= j && IsPath(b, p)
    decreases b, 0, |b.content| - j
  {
    if j < |b.content| {
      DescFromSpec(b, j + 1, p);
      var rest := DescFrom(b, j + 1);
      var here := DescHere(b, j);
      DescFromCons(b, j);
      InAppend(p, here, rest);
      if b.content[j].Child? {
        DescChildSpec(b, j, p);
      } else {
        DescText(b, j, p);
      }
      DescMix(p in DescFrom(b, j), p in here, p in rest, |p| > 0 && IsPath(b, p), if |p| > 0 then p[0] else 0, j);
    }
  }

  /** The paths the item at index `j` contributes on its own. */
  function DescHere(b: Block, j: nat): seq<seq<nat>>
    requires j < |b.content|
    decreases b, 0, |b.content| - j, 0
  {
    match b.content[j]
    case Text(_) => []
    case Child(c) => [[j]] + Prepend(j, DescPaths(c))
  }

  lemma DescFromCons(b: Block, j: nat)
    requires j < |b.content|
    ensures DescFrom(b, j) == DescHere(b, j) + DescFrom(b, j + 1)
  {
  }

  lemma DescText(b: Block, j: nat, p: seq<nat>)
    requires j < |b.content| && b.content[j].Text?
    ensures DescHere(b, j) == []
    ensures !(|p| > 0 && p[0] == j && IsPath(b, p))
  {
  }

  lemma DescMix(full: bool, here: bool, rest: bool, path: bool, head: int, j: int)
    requires full <==> here || rest
    requires here <==> path && head == j
    requires rest <==> path && head >= j + 1
    ensures full <==> path && head >= j
  {
  }

  lemma InAppend<T>(x: T, a: seq<T>, b: seq<T>)
    ensures x in a + b <==> x in a || x in b
  {
  }

  /** The paths a child contributes: itself, then its descendants below it. */
  lemma {:induction false} DescChildSpec(b: Block, j: nat, p: seq<nat>)
    requires j < |b.content| && b.content[j].Child?
    ensures p in DescHere(b, j) <==> |p| > 0 && p[0] == j && IsPath(b, p)
    decreases b, 0, 0, 1
  {
    var ps := DescPaths(b.content[j].block);
    assert DescHere(b, j) == [[j]] + Prepend(j, ps);
    assert p in [[j]] + Prepend(j, ps) <==> p == [j] || p in Prepend(j, ps);
    if |p| > 1 && p[0] == j && IsPath(b, p) {
      DescBelow(b, j, p);
    }
    if p in Prepend(j, ps) {
      DescAbove(b, j, p);
    }
  }

  lemma {:induction false} DescBelow(b: Block, j: nat, p: seq<nat>)
    requires j < |b.content| && b.content[j].Child? && |p| > 1 && p[0] == j && IsPath(b, p)
    ensures p in Prepend(j, DescPaths(b.content[j].block))
    decreases b, 0, 0, 0
  {
    var c := b.content[j].block;
    var ps := DescPaths(c);
    DescPathsSpec(c, p[1..]);
    var k :| 0 <= k < |ps| && ps[k] == p[1..];
    assert p == [j] + p[1..];
    assert Prepend(j, ps)[k] == p;
  }

  lemma {:induction false} DescAbove(b: Block, j: nat, p: seq<nat>)
    requires j < |b.content| && b.content[j].Child? && p in Prepend(j, DescPaths(b.content[j].block))
    ensures |p| > 1 && p[0] == j && IsPath(b, p)
    decreases b, 0, 0, 0
  {
    var c := b.content[j].block;
    var ps := DescPaths(c);
    var k :| 0 <= k < |ps| && Prepend(j, ps)[k] == p;
    DescPathsSpec(c, ps[k]);
    assert p[1..] == ps[k];
  }

  // ------------------------------------------------------- pre-order

  /** Lexicographic order on paths, a proper prefix first: the order in which
      a depth-first walk visits the blocks. */
  predicate PathLess(p: seq<nat>, q: seq<nat>)
  {
    |q| > 0 && (|p| == 0 || p[0] < q[0] || (p[0] == q[0] && PathLess(p[1..], q[1..])))
  }

  /** Strictly increasing, hence also free of duplicates. */
  predicate Increasing(ps: seq<seq<nat>>)
  {
    forall i, k :: 0 <= i < k < |ps| ==> PathLess(ps[i], ps[k])
  }

  lemma {:induction false} PathLessIrreflexive(p: seq<nat>)
    ensures !PathLess(p, p)
    decreases |p|
  {
    if |p| > 0 {
      PathLessIrreflexive(p[1..]);
    }
  }

  lemma {:induction false} PathLessTransitive(p: seq<nat>, q: seq<nat>, s: seq<nat>)
    requires PathLess(p, q) && PathLess(q, s)
    ensures PathLess(p, s)
    decreases |p|
  {
    if |p| > 0 && p[0] == q[0] && q[0] == s[0] {
      PathLessTransitive(p[1..], q[1..], s[1..]);
    }
  }

  /** A common first step does not change the order. */
  lemma PathLessCons(j: nat, p: seq<nat>, q: seq<nat>)
    ensures PathLess([j] + p, [j] + q) <==> PathLess(p, q)
  {
    assert ([j] + p)[1..] == p;
    assert ([j] + q)[1..] == q;
  }

  /** Nor does a common prefix. */
  lemma {:induction false} PathLessPrefix(at: seq<nat>, p: seq<nat>, q: seq<nat>)
    ensures PathLess(at + p, at + q) <==> PathLess(p, q)
    decreases |at|
  {
    if |at| > 0 {
      PathLessPrefix(at[1..], p, q);
      assert at + p == [at[0]] + (at[1..] + p);
      assert at + q == [at[0]] + (at[1..] + q);
      PathLessCons(at[0], at[1..] + p, at[1..] + q);
    } else {
      assert at + p == p && at + q == q;
    }
  }

  lemma IncreasingAppend(xs: seq<seq<nat>>, ys: seq<seq<nat>>)
    requires Increasing(xs) && Increasing(ys)
    requires forall i, k :: 0 <= i < |xs| && 0 <= k < |ys| ==> PathLess(xs[i], ys[k])
    ensures Increasing(xs + ys)
  {
    var zs := xs + ys;
    forall i, k | 0 <= i < k < |zs| ensures PathLess(zs[i], zs[k]) {
      if k < |xs| {
        assert zs[i] == xs[i] && zs[k] == xs[k];
      } else if i >= |xs| {
        assert zs[i] == ys[i - |xs|] && zs[k] == ys[k - |xs|];
      } else {
        assert zs[i] == xs[i] && zs[k] == ys[k - |xs|];
      }
    }
  }

  lemma IncreasingPrepend(j: nat, ps: seq<seq<nat>>)
    requires Increasing(ps)
    ensures Increasing(Prepend(j, ps))
  {
    var r := Prepend(j, ps);
    forall i, k | 0 <= i < k < |r| ensures PathLess(r[i], r[k]) {
      PathLessCons(j, ps[i], ps[k]);
    }
  }

  /** `flatten` walks depth first: every block comes after the blocks that
      contain it and after its elder siblings with their descendants, so no
      block is listed twice. */
  lemma {:induction false} DescPathsOrdered(b: Block)
    ensures Increasing(DescPaths(b))
    decreases b, 1
  {
    DescFromOrdered(b, 0);
  }

  lemma {:induction false} DescFromOrdered(b: Block, j: nat)
    ensures Increasing(DescFrom(b, j))
    decreases b, 0, |b.content| - j
  {
    if j < |b.content| {
      DescFromOrdered(b, j + 1);
      DescFromCons(b, j);
      var here := DescHere(b, j);
      var rest := DescFrom(b, j + 1);
      if b.content[j].Child? {
        DescChildOrdered(b, j);
      }
      forall i, k | 0 <= i < |here| && 0 <= k < |rest| ensures PathLess(here[i], rest[k]) {
        DescFromSpec(b, j + 1, rest[k]);
        DescHereHead(b, j, here[i]);
      }
      IncreasingAppend(here, rest);
    }
  }

  lemma DescHereHead(b: Block, j: nat, p: seq<nat>)
    requires j < |b.content| && p in DescHere(b, j)
    ensures |p| > 0 && p[0] == j
  {
    if b.content[j].Child? {
      DescChildSpec(b, j, p);
    }
  }

  /** A child comes first, then its own descendants in order. */
  lemma {:induction false} DescChildOrdered(b: Block, j: nat)
    requires j < |b.content| && b.content[j].Child?
    ensures Increasing(DescHere(b, j))
    decreases b, 0, 0, 1
  {
    var ps := DescPaths(b.content[j].block);
    DescPathsOrdered(b.content[j].block);
    IncreasingPrepend(j, ps);
    var tail := Prepend(j, ps);
    forall k | 0 <= k < |tail| ensures PathLess([j], tail[k]) {
      DescPathsSpec(b.content[j].block, ps[k]);
      assert [j] == [j] + [];
      PathLessCons(j, [], ps[k]);
    }
    IncreasingAppend([[j]], tail);
  }

  /** `flatten` as blocks. */
  function Flatten(b: Block): (r: seq<Block>)
    ensures |r| == |DescPaths(b)|
    ensures forall i :: 0 <= i < |r| ==> IsPath(b, DescPaths(b)[i]) && r[i] == At(b, DescPaths(b)[i])
  {
    var ps := DescPaths(b);
    forall i | 0 <= i < |ps| ensures IsPath(b, ps[i]) {
      DescPathsSpec(b, ps[i]);
    }
    seq(|ps|, i requires 0 <= i < |ps| => At(b, ps[i]))
  }
}
