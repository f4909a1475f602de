/**
 * Line numbers of finished blocks: where each child starts relative to its
 * parent (`getendlinenumber` at activation), the flattened content
 * (`flattencontent`), and renumbering after edits (`updatestartlinenumber`).
 */
module Numbering {
  import opened Wrappers
  import opened LineUtils
  import opened Kinds
  import opened Tree

  /** `getendlinenumber`: one past the last line of the block. */
  function EndLine(b: Block): int
  {
    b.start + Len(b)
  }

  /** Where the item at index `j` of a block starts: after the header and the items before it. */
  function ItemStart(b: Block, j: nat): int
    requires j <= |b.content|
  {
    b.start + HeaderLen(b) + ItemsLen(b.content[..j])
  }

  /** The numbering a reader gives: every child starts where the lines before it end,
      except an include, whose reading restarts its count at 0. */
  predicate Spans(b: Block)
    decreases b
  {
    forall j :: 0 <= j < |b.content| && b.content[j].Child? ==>
      ItemSpans(b, j, b.content[j].block)
  }

  predicate ItemSpans(b: Block, j: nat, c: Block)
    requires j < |b.content| && b.content[j] == Child(c)
    decreases b, 0
  {
    if c.kind.Include? then c.start == 0 else c.start == ItemStart(b, j) && Spans(c)
  }

  /** Consecutive children share their boundary: the next starts where the previous ends. */
  lemma SpansConsecutive(b: Block, j: nat)
    requires Spans(b) && j + 1 < |b.content|
    requires b.content[j].Child? && !b.content[j].block.kind.Include?
    requires b.content[j + 1].Child? && !b.content[j + 1].block.kind.Include?
    ensures b.content[j + 1].block.start == EndLine(b.content[j].block)
  {
    assert ItemSpans(b, j, b.content[j].block);
    assert ItemSpans(b, j + 1, b.content[j + 1].block);
    assert b.content[..j + 1] == b.content[..j] + [b.content[j]];
    ItemsLenSnoc(b.content[..j], b.content[j]);
  }

  /** A child ends no later than its parent. */
  lemma SpansNested(b: Block, j: nat)
    requires Spans(b) && j < |b.content| && b.content[j].Child? && !b.content[j].block.kind.Include?
    requires b.kind != Include(false)
    ensures b.start + HeaderLen(b) <= b.content[j].block.start
    ensures EndLine(b.content[j].block) <= EndLine(b)
  {
    assert ItemSpans(b, j, b.content[j].block);
    assert b.content == b.content[..j] + [b.content[j]] + b.content[j + 1..];
    ItemsLenConcat(b.content[..j] + [b.content[j]], b.content[j + 1..]);
    ItemsLenSnoc(b.content[..j], b.content[j]);
  }

  // -------------------------------------------------------- flattencontent

  /** What `flattencontent` yields for a header: its line, or "None" without one. */
  function HeaderText(b: Block): string
  {
    if b.header.Some? then b.header.value.line else "None"
  }

  /** `flattencontent`: the header text, then the content with every child flattened
      in place (for includes too, whatever their mode). */
  function Flat(b: Block): (r: seq<string>)
    ensures |r| > 0 && r[0] == HeaderText(b)
    decreases b, 1
  {
    [HeaderText(b)] + FlatItems(b.content)
  }

  function FlatItems(items: seq<Item>): seq<string>
    decreases items, 0
  {
    if items == [] then [] else FlatItem(items[0]) + FlatItems(items[1..])
  }

  function FlatItem(x: Item): (r: seq<string>)
    ensures |r| > 0
    decreases x
  {
    match x case Text(s) => [s] case Child(c) => Flat(c)
  }

  /** The first flattened line of every item occurs in the flattened content. */
  lemma {:induction false} FlatItemsContain(items: seq<Item>, j: nat)
    requires j < |items|
    ensures FlatItem(items[j])[0] in FlatItems(items)
    decreases j
  {
    if j > 0 {
      FlatItemsContain(items[1..], j - 1);
      assert items[1..][j - 1] == items[j];
    }
  }

  /** The key of a child in `updatestartlinenumber`'s dictionary: its header line. */
  function Key(x: Item): Option<string>
  {
    if x.Child? && x.block.header.Some? then Some(x.block.header.value.line) else None
  }

  /** The dictionary keeps the last child with a given key. */
  predicate Winner(items: seq<Item>, j: nat)
    requires j < |items|
  {
    forall k :: j < k < |items| ==> Key(items[k]) != Key(items[j])
  }

  /** The last index at which `key` occurs. */
  function LastIndex(flat: seq<string>, key: string): (r: nat)
    requires key in flat
    ensures r < |flat| && flat[r] == key
    ensures forall i :: r < i < |flat| ==> flat[i] != key
  {
    if flat[|flat| - 1] == key then |flat| - 1
    else
      assert key in flat[..|flat| - 1] by {
        var i :| 0 <= i < |flat| && flat[i] == key;
        assert flat[..|flat| - 1][i] == key;
      }
      LastIndex(flat[..|flat| - 1], key)
  }

  /** Item `j` is the child the dictionary keeps for its header line. */
  predicate Wins(items: seq<Item>, j: nat)
    requires j < |items|
  {
    Key(items[j]).Some? && Winner(items, j)
  }

  lemma ChildKeyInFlat(b: Block, j: nat)
    requires j < |b.content| && Key(b.content[j]).Some?
    ensures Key(b.content[j]).value in Flat(b)
  {
    FlatItemsContain(b.content, j);
  }

  /** `updatestartlinenumber(n)` where it does not raise: the block starts at `n`; each
      child the dictionary keeps is renumbered from the last numbered line of the
      flattened content that shows its header line; every other item stays as it was. */
  function Renumber(b: Block, n: int): (r: Block)
    ensures r.kind == b.kind && r.header == b.header && r.start == n && |r.content| == |b.content|
    decreases b, 1
  {
    var flat := Flat(b);
    b.(start := n, content := seq(|b.content|, k requires 0 <= k < |b.content| => RenumberItem(b, flat, n, k)))
  }

  function RenumberItem(b: Block, flat: seq<string>, n: int, k: nat): Item
    requires k < |b.content| && flat == Flat(b)
    decreases b, 0
  {
    var x := b.content[k];
    if Wins(b.content, k) then
      ChildKeyInFlat(b, k);
      Child(Renumber(x.block, n + LastIndex(flat, x.block.header.value.line)))
    else x
  }

  /** `updatestartlinenumber` raises AttributeError when a child of the block, or of a
      child it goes on to renumber, has no header (`getheader().line` on None). */
  predicate Raises(b: Block)
    decreases b
  {
    || (exists j :: 0 <= j < |b.content| && b.content[j].Child? && b.content[j].block.header.None?)
    || (exists j :: 0 <= j < |b.content| && b.content[j].Child? && Wins(b.content, j) && Raises(b.content[j].block))
  }

  /** A tree whose blocks all have headers renumbers without raising. */
  lemma {:induction false} HeadedNeverRaises(b: Block)
    requires Headed(b)
    ensures !Raises(b)
    decreases b
  {
    forall j | 0 <= j < |b.content| && b.content[j].Child?
      ensures b.content[j].block.header.Some? && !Raises(b.content[j].block)
    {
      assert ItemHeaded(b.content[j]);
      HeadedNeverRaises(b.content[j].block);
    }
  }

  /** Two blocks that differ at most in their start lines. */
  predicate SameShape(a: Block, b: Block)
    decreases a
  {
    a.kind == b.kind && a.header == b.header && |a.content| == |b.content| &&
    forall j :: 0 <= j < |a.content| ==> SameItem(a.content[j], b.content[j])
  }

  predicate SameItem(x: Item, y: Item)
    decreases x
  {
    if x.Text? then y == x else y.Child? && SameShape(x.block, y.block)
  }

  /** Blocks of the same shape flatten alike, have the same length and agree on their keys. */
  lemma {:induction false} SameShapeFlat(a: Block, b: Block)
    requires SameShape(a, b)
    ensures Flat(a) == Flat(b) && Len(a) == Len(b)
    decreases a, 1
  {
    SameItemsFlat(a.content, b.content);
  }

  lemma {:induction false} SameItemsFlat(xs: seq<Item>, ys: seq<Item>)
    requires |xs| == |ys| && forall j :: 0 <= j < |xs| ==> SameItem(xs[j], ys[j])
    ensures FlatItems(xs) == FlatItems(ys) && ItemsLen(xs) == ItemsLen(ys)
    decreases xs, 0
  {
    if xs != [] {
      SameItemFlat(xs[0], ys[0]);
      assert forall j :: 0 <= j < |xs[1..]| ==> xs[1..][j] == xs[j + 1] && ys[1..][j] == ys[j + 1];
      SameItemsFlat(xs[1..], ys[1..]);
    }
  }

  lemma {:induction false} SameItemFlat(x: Item, y: Item)
    requires SameItem(x, y)
    ensures FlatItem(x) == FlatItem(y) && Key(x) == Key(y) && ItemLen(x) == ItemLen(y)
    decreases x
  {
    if x.Child? {
      SameShapeFlat(x.block, y.block);
    }
  }

  /** Items of the same shape, up to any index, have the same length. */
  lemma SamePrefixLen(xs: seq<Item>, ys: seq<Item>, j: nat)
    requires |xs| == |ys| && j <= |xs| && forall i :: 0 <= i < |xs| ==> SameItem(xs[i], ys[i])
    ensures ItemsLen(xs[..j]) == ItemsLen(ys[..j])
  {
    SameItemsFlat(xs[..j], ys[..j]);
  }

  lemma SameShapeRefl(b: Block)
    ensures SameShape(b, b)
    decreases b
  {
    forall j | 0 <= j < |b.content| ensures SameItem(b.content[j], b.content[j]) {
      if b.content[j].Child? {
        SameShapeRefl(b.content[j].block);
      }
    }
  }

  lemma {:induction false} SameShapeSym(a: Block, b: Block)
    requires SameShape(a, b)
    ensures SameShape(b, a)
    decreases a
  {
    forall j | 0 <= j < |b.content| ensures SameItem(b.content[j], a.content[j]) {
      assert SameItem(a.content[j], b.content[j]);
      if a.content[j].Child? {
        SameShapeSym(a.content[j].block, b.content[j].block);
      }
    }
  }

  /** Renumbering only moves start lines: the renumbered block has the shape, the
      flattened content, the length and the headers of the original. */
  lemma {:induction false} RenumberShape(b: Block, n: int)
    ensures SameShape(Renumber(b, n), b)
    ensures Flat(Renumber(b, n)) == Flat(b) && Len(Renumber(b, n)) == Len(b)
    decreases b, 1
  {
    var r := Renumber(b, n);
    forall j | 0 <= j < |b.content| ensures SameItem(r.content[j], b.content[j]) {
      RenumberShapeItem(b, n, j);
    }
    assert SameShape(r, b);
    SameShapeSym(r, b);
    SameShapeFlat(b, r);
  }

  lemma {:induction false} RenumberShapeItem(b: Block, n: int, j: nat)
    requires j < |b.content|
    ensures j < |Renumber(b, n).content| && SameItem(Renumber(b, n).content[j], b.content[j])
    decreases b, 0
  {
    var r := Renumber(b, n);
    var x := b.content[j];
    assert r.content[j] == RenumberItem(b, Flat(b), n, j);
    if Wins(b.content, j) {
      var c := x.block;
      ChildKeyInFlat(b, j);
      RenumberShape(c, n + LastIndex(Flat(b), c.header.value.line));
    } else {
      if x.Child? {
        SameShapeRefl(x.block);
      }
    }
  }

  /** A later `updatestartlinenumber` overwrites an earlier one: renumbering twice is
      renumbering once with the second number. */
  lemma {:induction false} RenumberTwice(b: Block, m: int, n: int)
    ensures Renumber(Renumber(b, m), n) == Renumber(b, n)
    decreases b, 1
  {
    var r2 := Renumber(Renumber(b, m), n);
    var r := Renumber(b, n);
    forall j | 0 <= j < |b.content| ensures r2.content[j] == r.content[j] {
      RenumberTwiceItem(b, m, n, j);
    }
    assert r2.content == r.content;
  }

  /** The item at index `j` of RenumberTwice. */
  lemma {:induction false} RenumberTwiceItem(b: Block, m: int, n: int, j: nat)
    requires j < |b.content|
    ensures Renumber(Renumber(b, m), n).content[j] == Renumber(b, n).content[j]
    decreases b, 0
  {
    RenumberShape(b, m);
    RenumberKeys(b, m);
    WinnerOfKeys(Renumber(b, m).content, b.content, j);
    var x := b.content[j];
    if Wins(b.content, j) {
      var c := x.block;
      ChildKeyInFlat(b, j);
      var k := LastIndex(Flat(b), c.header.value.line);
      RenumberTwice(c, m + k, n + k);
      RenumberWinnerTwice(b, m, n, j, k);
    } else {
      assert Renumber(b, m).content[j] == RenumberItem(b, Flat(b), m, j) == b.content[j];
      assert Renumber(Renumber(b, m), n).content[j] == RenumberItem(Renumber(b, m), Flat(b), n, j);
      assert Renumber(b, n).content[j] == RenumberItem(b, Flat(b), n, j);
    }
  }

  /** A winning child is renumbered from the same key both times. */
  lemma RenumberWinnerTwice(b: Block, m: int, n: int, j: nat, k: nat)
    requires j < |b.content| && Wins(b.content, j) && Wins(Renumber(b, m).content, j)
    requires Flat(Renumber(b, m)) == Flat(b)
    requires b.content[j].block.header.value.line in Flat(b)
    requires k == LastIndex(Flat(b), b.content[j].block.header.value.line)
    requires Renumber(Renumber(b.content[j].block, m + k), n + k) == Renumber(b.content[j].block, n + k)
    ensures Renumber(Renumber(b, m), n).content[j] == Renumber(b, n).content[j]
  {
    var r1 := Renumber(b, m);
    RenumberWinner(b, m, j, k);
    RenumberWinner(r1, n, j, k);
    RenumberWinner(b, n, j, k);
  }

  /** A winning child of a renumbered block is renumbered from its key's last line. */
  lemma RenumberWinner(b: Block, n: int, j: nat, k: nat)
    requires j < |b.content| && Wins(b.content, j)
    requires b.content[j].block.header.value.line in Flat(b)
    requires k == LastIndex(Flat(b), b.content[j].block.header.value.line)
    ensures Renumber(b, n).content[j] == Child(Renumber(b.content[j].block, n + k))
  {
    assert Renumber(b, n).content[j] == RenumberItem(b, Flat(b), n, j);
  }

  /** Renumbering keeps every item's key. */
  lemma RenumberKeys(b: Block, m: int)
    ensures forall j :: 0 <= j < |b.content| ==> Key(Renumber(b, m).content[j]) == Key(b.content[j])
  {
    var r1 := Renumber(b, m);
    RenumberShape(b, m);
    forall j | 0 <= j < |b.content| ensures Key(r1.content[j]) == Key(b.content[j]) {
      assert SameItem(r1.content[j], b.content[j]);
      SameItemFlat(r1.content[j], b.content[j]);
    }
  }

  /** Items with the same keys have the same winners. */
  lemma WinnerOfKeys(xs: seq<Item>, ys: seq<Item>, j: nat)
    requires |xs| == |ys| && j < |xs| && forall k :: 0 <= k < |xs| ==> Key(xs[k]) == Key(ys[k])
    ensures Winner(xs, j) <==> Winner(ys, j)
    ensures Wins(xs, j) <==> Wins(ys, j)
  {
  }

  /** Renumbering with the same number twice changes nothing more. */
  lemma RenumberIdempotent(b: Block, n: int)
    ensures Renumber(Renumber(b, n), n) == Renumber(b, n)
  {
    RenumberTwice(b, n, n);
  }

  // ------------------------------------------------- renumbering as intended

  /** Line numbers made continuous, as `updatestartlinenumber` means them to be: the block
      starts at `n` and every child but an include starts where the lines before it end;
      an include keeps its own numbering, which restarts at 0. */
  function Realign(b: Block, n: int): (r: Block)
    ensures r.kind == b.kind && r.header == b.header && r.start == n && |r.content| == |b.content|
    decreases b, 1
  {
    b.(start := n, content := seq(|b.content|, k requires 0 <= k < |b.content| => RealignItem(b, n, k)))
  }

  function RealignItem(b: Block, n: int, k: nat): Item
    requires k < |b.content|
    decreases b, 0
  {
    var x := b.content[k];
    if x.Child? && !x.block.kind.Include? then Child(Realign(x.block, n + HeaderLen(b) + ItemsLen(b.content[..k])))
    else x
  }

  /** Realigning moves start lines only. */
  lemma {:induction false} RealignShape(b: Block, n: int)
    ensures SameShape(Realign(b, n), b)
    decreases b
  {
    var r := Realign(b, n);
    forall j | 0 <= j < |b.content| ensures SameItem(r.content[j], b.content[j]) {
      var x := b.content[j];
      assert r.content[j] == RealignItem(b, n, j);
      if x.Child? {
        if x.block.kind.Include? {
          SameShapeRefl(x.block);
        } else {
          RealignShape(x.block, n + HeaderLen(b) + ItemsLen(b.content[..j]));
        }
      }
    }
  }

  /** Every include reached through the other children starts at line 0, as reading
      numbers it. */
  predicate IncludesRestart(b: Block)
    decreases b
  {
    forall j :: 0 <= j < |b.content| && b.content[j].Child? ==>
      if b.content[j].block.kind.Include? then b.content[j].block.start == 0
      else IncludesRestart(b.content[j].block)
  }

  lemma {:induction false} SpansRestart(b: Block)
    requires Spans(b)
    ensures IncludesRestart(b)
    decreases b
  {
    forall j | 0 <= j < |b.content| && b.content[j].Child? && !b.content[j].block.kind.Include?
      ensures IncludesRestart(b.content[j].block)
    {
      assert ItemSpans(b, j, b.content[j].block);
      SpansRestart(b.content[j].block);
    }
  }

  /** Whatever the start lines were, realigning makes them continuous: every child starts
      where the lines before it end, at every depth. */
  lemma {:induction false} RealignSpans(b: Block, n: int)
    requires IncludesRestart(b)
    ensures Spans(Realign(b, n))
    decreases b
  {
    var r := Realign(b, n);
    RealignShape(b, n);
    forall j | 0 <= j < |r.content| && r.content[j].Child? ensures ItemSpans(r, j, r.content[j].block) {
      var x := b.content[j];
      assert r.content[j] == RealignItem(b, n, j);
      if x.Child? && !x.block.kind.Include? {
        var m := n + HeaderLen(b) + ItemsLen(b.content[..j]);
        SamePrefixLen(r.content, b.content, j);
        RealignSpans(x.block, m);
      }
    }
  }

  /** A block already numbered as reading numbers it is left as it is. */
  lemma {:induction false} RealignFixpoint(b: Block)
    requires Spans(b)
    ensures Realign(b, b.start) == b
    decreases b
  {
    var r := Realign(b, b.start);
    forall j | 0 <= j < |b.content| ensures r.content[j] == b.content[j] {
      var x := b.content[j];
      assert r.content[j] == RealignItem(b, b.start, j);
      if x.Child? && !x.block.kind.Include? {
        assert ItemSpans(b, j, x.block);
        RealignFixpoint(x.block);
      }
    }
    assert r.content == b.content;
  }

  // ------------------------------------- where the two renumberings agree

  /** Item `x` occurs in `s` at index `p` only. */
  predicate OnlyAt(s: seq<string>, x: string, p: int)
  {
    forall i :: 0 <= i < |s| && s[i] == x ==> i == p
  }

  /** The trees `updatestartlinenumber` renumbers as intended: every block has a header,
      none is an include, and each child's header line shows in its parent's flattened
      content only where the child itself starts. */
  predicate Unambiguous(b: Block)
    decreases b
  {
    && b.header.Some? && !b.kind.Include?
    && forall j :: 0 <= j < |b.content| && b.content[j].Child? ==>
         && Unambiguous(b.content[j].block)
         && b.content[j].block.header.Some?
         && OnlyAt(Flat(b), b.content[j].block.header.value.line, 1 + ItemsLen(b.content[..j]))
  }

  predicate ItemsUnambiguous(items: seq<Item>)
  {
    forall i :: 0 <= i < |items| && items[i].Child? ==> Unambiguous(items[i].block)
  }

  lemma {:induction false} FlatItemsConcat(a: seq<Item>, b: seq<Item>)
    ensures FlatItems(a + b) == FlatItems(a) + FlatItems(b)
    decreases |a|
  {
    if a != [] {
      assert (a + b)[1..] == a[1..] + b;
      FlatItemsConcat(a[1..], b);
    } else {
      assert a + b == b;
    }
  }

  /** Without includes, the flattened content has one line per counted line. */
  lemma {:induction false} UnambiguousFlatLen(b: Block)
    requires Unambiguous(b)
    ensures |Flat(b)| == Len(b)
    decreases b, 1
  {
    ItemsFlatLen(b.content);
  }

  lemma {:induction false} ItemsFlatLen(items: seq<Item>)
    requires ItemsUnambiguous(items)
    ensures |FlatItems(items)| == ItemsLen(items)
    decreases items, 0
  {
    if items != [] {
      ItemFlatLen(items[0]);
      assert forall i :: 0 <= i < |items[1..]| ==> items[1..][i] == items[i + 1];
      ItemsFlatLen(items[1..]);
    }
  }

  lemma {:induction false} ItemFlatLen(x: Item)
    requires x.Child? ==> Unambiguous(x.block)
    ensures |FlatItem(x)| == ItemLen(x)
    decreases x
  {
    if x.Child? {
      UnambiguousFlatLen(x.block);
    }
  }

  /** Child `j`'s header line is the flattened line at the child's own position. */
  lemma HeaderAt(b: Block, j: nat)
    requires Unambiguous(b) && j < |b.content| && b.content[j].Child?
    ensures 1 + ItemsLen(b.content[..j]) < |Flat(b)|
    ensures b.content[j].block.header.Some?
    ensures Flat(b)[1 + ItemsLen(b.content[..j])] == b.content[j].block.header.value.line
  {
    var items := b.content;
    assert items == items[..j] + items[j..];
    FlatItemsConcat(items[..j], items[j..]);
    assert ItemsUnambiguous(items[..j]) by {
      forall i | 0 <= i < |items[..j]| && items[..j][i].Child? ensures Unambiguous(items[..j][i].block) {
        assert items[..j][i] == items[i];
      }
    }
    ItemsFlatLen(items[..j]);
    assert items[j..][0] == items[j];
    assert FlatItems(items[j..]) == Flat(items[j].block) + FlatItems(items[j..][1..]);
  }

  /** In such a tree every child is the one the dictionary keeps, and the last line
      showing its header line is its own. */
  lemma UnambiguousWins(b: Block, j: nat)
    requires Unambiguous(b) && j < |b.content| && b.content[j].Child?
    ensures Wins(b.content, j)
    ensures b.content[j].block.header.value.line in Flat(b)
    ensures LastIndex(Flat(b), b.content[j].block.header.value.line) == 1 + ItemsLen(b.content[..j])
  {
    var items := b.content;
    var line := items[j].block.header.value.line;
    HeaderAt(b, j);
    forall k | j < k < |items| ensures Key(items[k]) != Key(items[j]) {
      if Key(items[k]) == Key(items[j]) {
        assert items[..k] == items[..j + 1] + items[j + 1..k];
        assert items[..j + 1] == items[..j] + [items[j]];
        ItemsLenConcat(items[..j + 1], items[j + 1..k]);
        ItemsLenSnoc(items[..j], items[j]);
        assert false;
      }
    }
  }

  /** Where headers are unambiguous and there is no include, `updatestartlinenumber`
      renumbers exactly as intended. */
  lemma {:induction false} RenumberIsRealign(b: Block, n: int)
    requires Unambiguous(b)
    ensures Renumber(b, n) == Realign(b, n)
    decreases b
  {
    var r := Renumber(b, n);
    var a := Realign(b, n);
    forall j | 0 <= j < |b.content| ensures r.content[j] == a.content[j] {
      var x := b.content[j];
      assert r.content[j] == RenumberItem(b, Flat(b), n, j);
      assert a.content[j] == RealignItem(b, n, j);
      if x.Child? {
        UnambiguousWins(b, j);
        RenumberIsRealign(x.block, n + 1 + ItemsLen(b.content[..j]));
      }
    }
    assert r.content == a.content;
  }

  /** Such a tree renumbers without raising. */
  lemma {:induction false} UnambiguousNeverRaises(b: Block)
    requires Unambiguous(b)
    ensures !Raises(b)
    decreases b
  {
    forall j | 0 <= j < |b.content| && b.content[j].Child?
      ensures b.content[j].block.header.Some? && !Raises(b.content[j].block)
    {
      UnambiguousNeverRaises(b.content[j].block);
    }
  }

  lemma {:induction false} UnambiguousRestart(b: Block)
    requires Unambiguous(b)
    ensures IncludesRestart(b)
    decreases b
  {
    forall j | 0 <= j < |b.content| && b.content[j].Child?
      ensures !b.content[j].block.kind.Include? && IncludesRestart(b.content[j].block)
    {
      UnambiguousRestart(b.content[j].block);
    }
  }

  /** The promise of `updatestartlinenumber`, where it holds: after renumbering, the line
      numbers are continuous again, and a block already continuous is left unchanged. */
  lemma RenumberContinuous(b: Block, n: int)
    requires Unambiguous(b)
    ensures Spans(Renumber(b, n))
    ensures Spans(b) ==> Renumber(b, b.start) == b
  {
    RenumberIsRealign(b, n);
    UnambiguousRestart(b);
    RealignSpans(b, n);
    RenumberIsRealign(b, b.start);
    if Spans(b) {
      RealignFixpoint(b);
    }
  }

  // ------------------------------------------- where they disagree, as written

  /** An include moves the children after it: `flattencontent` descends into the
      include's content, whose lines the include itself does not count. */
  lemma IncludeShiftsNext(hr: Header, hi: Header, t: string, he: Header, k: Kind)
    requires he.line != hr.line && he.line != hi.line && he.line != t && !k.Include?
    ensures var inc := Block(Include(false), Some(hi), 0, [Text(t)]);
      var elem := Block(k, Some(he), 2, []);
      var b := Block(Root, Some(hr), 0, [Child(inc), Child(elem)]);
      && Spans(b) && Realign(b, 0) == b
      && Renumber(b, 0).content[1] == Child(elem.(start := 3)) && !Spans(Renumber(b, 0))
  {
    var inc := Block(Include(false), Some(hi), 0, [Text(t)]);
    var elem := Block(k, Some(he), 2, []);
    var b := Block(Root, Some(hr), 0, [Child(inc), Child(elem)]);
    var flat := [hr.line, hi.line, t, he.line];
    assert [Text(t)][1..] == [];
    assert FlatItems([Text(t)]) == FlatItem(Text(t)) + FlatItems([]) == [t];
    assert Flat(inc) == [hi.line, t];
    assert Flat(elem) == [he.line];
    assert b.content[1..] == [Child(elem)] && [Child(elem)][1..] == [];
    assert FlatItems([Child(elem)]) == FlatItem(Child(elem)) + FlatItems([]) == Flat(elem);
    assert FlatItems(b.content) == FlatItem(Child(inc)) + FlatItems([Child(elem)]);
    assert Flat(b) == flat;
    assert b.content[..1] == [Child(inc)] && [Child(inc)][1..] == [];
    assert ItemsLen([Child(inc)]) == ItemLen(Child(inc)) + ItemsLen([]) == 1;
    assert ItemSpans(b, 0, inc) && ItemSpans(b, 1, elem);
    RealignFixpoint(b);
    assert Wins(b.content, 1);
    assert LastIndex(flat, he.line) == 3;
    RenumberWinner(b, 0, 1, 3);
    assert Renumber(elem, 3) == elem.(start := 3);
    var r := Renumber(b, 0);
    RenumberShape(b, 0);
    SamePrefixLen(r.content, b.content, 1);
    assert !ItemSpans(r, 1, r.content[1].block);
  }

  /** A deck where it happens: an element block after a one-line include. */
  lemma RenumberAfterInclude()
    ensures var inc := Block(Include(false), Some(Header("*Include, input=mesh.inp", "Include", [("input", Str("mesh.inp"))])),
                             0, [Text("1, 0.0, 0.0")]);
      var elem := Block(Element, Some(Header("*Element, type=C3D8", "Element", [("type", Str("C3D8"))])), 2, []);
      var b := Block(Root, Some(Header("*Heading", "Heading", [])), 0, [Child(inc), Child(elem)]);
      && Spans(b) && Realign(b, 0) == b
      && Renumber(b, 0).content[1] == Child(elem.(start := 3)) && !Spans(Renumber(b, 0))
  {
    var he := Header("*Element, type=C3D8", "Element", [("type", Str("C3D8"))]);
    assert he.line[1] == 'E';
    IncludeShiftsNext(Header("*Heading", "Heading", []), Header("*Include, input=mesh.inp", "Include", [("input", Str("mesh.inp"))]),
                      "1, 0.0, 0.0", he, Element);
  }

  /** Of two children with the same header line, only the last is renumbered: the
      dictionary keeps one child per line, and the first keeps its old start. */
  lemma DuplicateKeepsFirst(hr: Header, h: Header, t1: string, t2: string, k: Kind)
    requires h.line != hr.line && h.line != t1 && h.line != t2 && !k.Include?
    ensures var a1 := Block(k, Some(h), 1, [Text(t1)]);
      var a2 := Block(k, Some(h), 3, [Text(t2)]);
      var b := Block(Root, Some(hr), 0, [Child(a1), Child(a2)]);
      && Spans(b)
      && Renumber(b, 10).content == [Child(a1), Child(a2.(start := 13))]
      && Realign(b, 10).content == [Child(a1.(start := 11)), Child(a2.(start := 13))]
  {
    var a1 := Block(k, Some(h), 1, [Text(t1)]);
    var a2 := Block(k, Some(h), 3, [Text(t2)]);
    var b := Block(Root, Some(hr), 0, [Child(a1), Child(a2)]);
    var flat := [hr.line, h.line, t1, h.line, t2];
    assert [Text(t1)][1..] == [] && [Text(t2)][1..] == [];
    assert FlatItems([Text(t1)]) == FlatItem(Text(t1)) + FlatItems([]) == [t1];
    assert FlatItems([Text(t2)]) == FlatItem(Text(t2)) + FlatItems([]) == [t2];
    assert Flat(a1) == [h.line, t1];
    assert Flat(a2) == [h.line, t2];
    assert b.content[1..] == [Child(a2)] && [Child(a2)][1..] == [];
    assert FlatItems([Child(a2)]) == FlatItem(Child(a2)) + FlatItems([]) == Flat(a2);
    assert FlatItems(b.content) == FlatItem(Child(a1)) + FlatItems([Child(a2)]);
    assert Flat(b) == flat;
    assert ItemsLen([Text(t1)]) == ItemLen(Text(t1)) + ItemsLen([]) == 1;
    assert ItemsLen([Text(t2)]) == ItemLen(Text(t2)) + ItemsLen([]) == 1;
    assert b.content[..1] == [Child(a1)] && [Child(a1)][1..] == [];
    assert ItemsLen([Child(a1)]) == ItemLen(Child(a1)) + ItemsLen([]) == 2;
    assert b.content[..0] == [];
    assert a1.content[..0] == [] && a2.content[..0] == [];
    assert Spans(a1) && Spans(a2);
    assert ItemSpans(b, 0, a1) && ItemSpans(b, 1, a2);
    assert !Wins(b.content, 0) && Wins(b.content, 1);
    assert LastIndex(flat, h.line) == 3;
    RenumberWinner(b, 10, 1, 3);
    assert Renumber(b, 10).content[0] == RenumberItem(b, Flat(b), 10, 0) == Child(a1);
    assert Renumber(a2, 13) == a2.(start := 13);
    var a := Realign(b, 10);
    assert a.content[0] == RealignItem(b, 10, 0);
    assert a.content[1] == RealignItem(b, 10, 1);
    assert Realign(a1, 11) == a1.(start := 11);
    assert Realign(a2, 13) == a2.(start := 13);
  }

  /** A deck where it happens: two node sets of the same name. */
  lemma RenumberDuplicateHeader()
    ensures var h := Some(Header("*Nset, nset=A", "Nset", [("nset", Str("A"))]));
      var a1 := Block(Nset, h, 1, [Text("1")]);
      var a2 := Block(Nset, h, 3, [Text("2")]);
      var b := Block(Root, Some(Header("*Heading", "Heading", [])), 0, [Child(a1), Child(a2)]);
      && Spans(b)
      && Renumber(b, 10).content == [Child(a1), Child(a2.(start := 13))]
      && Realign(b, 10).content == [Child(a1.(start := 11)), Child(a2.(start := 13))]
  {
    var h := Header("*Nset, nset=A", "Nset", [("nset", Str("A"))]);
    assert h.line[1] == 'N';
    DuplicateKeepsFirst(Header("*Heading", "Heading", []), h, "1", "2", Nset);
  }
}
