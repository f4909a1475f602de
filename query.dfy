/**
 * `INode.query` over a finished tree. A node is named by its path from the
 * tree's root; a result is a sequence of nodes in the order the generator
 * yields them, where `None` stands for the missing parent of the root.
 */
module Query {
  import opened Wrappers
  import opened Strings
  import opened LineUtils
  import opened Kinds
  import opened Tree

  type Node = Option<seq<nat>>

  /** Every node of a result exists in the tree. */
  predicate ValidNodes(t: Block, xs: seq<Node>)
  {
    forall i :: 0 <= i < |xs| && xs[i].Some? ==> IsPath(t, xs[i].value)
  }

  /** The content of a block that is text. */
  function Texts(items: seq<Item>): (r: seq<string>)
    ensures forall s :: s in r <==> Text(s) in items
  {
    if items == [] then []
    else
      assert forall s :: Text(s) in items <==> Text(s) == items[0] || Text(s) in items[1..];
      (if items[0].Text? then [items[0].line] else []) + Texts(items[1..])
  }

  /** The children of the node at `at`, from content index `j` on, as nodes. */
  function ChildNodes(t: Block, at: seq<nat>, j: nat): (r: seq<Node>)
    requires IsPath(t, at)
    ensures ValidNodes(t, r)
    ensures forall i :: 0 <= i < |r| ==> (r[i].Some? && IsPath(t, r[i].value) &&
      |r[i].value| == |at| + 1 && r[i].value[..|at|] == at && r[i].value[|at|] >= j)
    decreases |At(t, at).content| - j
  {
    var b := At(t, at);
    if j >= |b.content| then []
    else
      PathSnoc(t, at, j);
      var rest := ChildNodes(t, at, j + 1);
      if b.content[j].Child? then
        assert (at + [j])[..|at|] == at;
        [Some(at + [j])] + rest
      else rest
  }

  /** The children whose reader name matches `name` (`findchildrenbyname`): equal names,
      or with `regex` the node's name used as a pattern matched at the start of `name`. */
  function NamedChildren(t: Block, at: seq<nat>, j: nat, name: string, regex: bool, re: Regex): (r: seq<Node>)
    requires IsPath(t, at)
    ensures ValidNodes(t, r)
    decreases |At(t, at).content| - j
  {
    var b := At(t, at);
    if j >= |b.content| then []
    else
      PathSnoc(t, at, j);
      var rest := NamedChildren(t, at, j + 1, name, regex, re);
      if b.content[j].Child? && NameMatches(b.content[j].block, name, regex, re) then
        [Some(at + [j])] + rest
      else rest
  }

  predicate NameMatches(c: Block, name: string, regex: bool, re: Regex)
  {
    if regex then re.matchStart(Name(c.kind), name) else Name(c.kind) == name
  }

  /** The nodes below `at`, in `flatten` order. */
  function DescNodes(t: Block, at: seq<nat>): (r: seq<Node>)
    requires IsPath(t, at)
    ensures ValidNodes(t, r)
  {
    var ds := DescPaths(At(t, at));
    forall i | 0 <= i < |ds| ensures IsPath(t, at + ds[i]) {
      DescPathsSpec(At(t, at), ds[i]);
      PathConcat(t, at, ds[i]);
    }
    seq(|ds|, i requires 0 <= i < |ds| => Some(at + ds[i]))
  }

  /** A path from the node at `at` extends to a path from the root. */
  lemma {:induction false} PathConcat(t: Block, at: seq<nat>, d: seq<nat>)
    requires IsPath(t, at) && IsPath(At(t, at), d)
    ensures IsPath(t, at + d) && At(t, at + d) == At(At(t, at), d)
    decreases |at|
  {
    if |at| > 0 {
      assert (at + d)[1..] == at[1..] + d;
      PathConcat(t.content[at[0]].block, at[1..], d);
    } else {
      assert at + d == d;
    }
  }

  /** Keep the nodes whose header attributes match `attrs` (`matchdict2str`); the first
      node that is `None` or has no header, or a malformed clause, raises. */
  function FilterAttrs(t: Block, xs: seq<Node>, attrs: string, regex: bool, re: Regex): (r: Result<seq<Node>>)
    requires ValidNodes(t, xs)
    ensures r.Ok? ==> forall i :: 0 <= i < |r.value| ==> r.value[i] in xs
    ensures r.Ok? ==> ValidNodes(t, r.value)
  {
    if xs == [] then Ok([])
    else
      assert ValidNodes(t, xs[1..]) by {
        assert forall i :: 0 <= i < |xs[1..]| ==> xs[1..][i] == xs[i + 1];
      }
      match xs[0]
      case None => Err(NoneHasNoAttribute)
      case Some(p) =>
        var b := At(t, p);
        if b.header.None? then Err(NoHeader)
        else match (MatchAttrs(b.header.value.props, attrs, regex, re), FilterAttrs(t, xs[1..], attrs, regex, re))
          case (Err(e), _) => Err(e)
          case (_, Err(e)) => Err(e)
          case (Ok(keep), Ok(rest)) => Ok(if keep then [xs[0]] + rest else rest)
  }

  /** Keep the nodes with a text line matching `m` (`matchcontent`); `None` raises. */
  function FilterContent(t: Block, xs: seq<Node>, m: string, regex: bool, re: Regex): (r: Result<seq<Node>>)
    requires ValidNodes(t, xs)
    ensures r.Ok? ==> forall i :: 0 <= i < |r.value| ==> r.value[i] in xs
    ensures r.Ok? ==> ValidNodes(t, r.value)
  {
    if xs == [] then Ok([])
    else
      assert ValidNodes(t, xs[1..]) by {
        assert forall i :: 0 <= i < |xs[1..]| ==> xs[1..][i] == xs[i + 1];
      }
      match xs[0]
      case None => Err(TypeError("'NoneType' object is not iterable"))
      case Some(p) =>
        match FilterContent(t, xs[1..], m, regex, re)
        case Err(e) => Err(e)
        case Ok(rest) =>
          Ok(if MatchContent(Texts(At(t, p).content), m, regex, re) then [xs[0]] + rest else rest)
  }

  /** `query` on the node at `at`: the first of ">", "|", "[" and "(" in the query decides
      the form, else one of the keywords "*", "**", "..", "root", else a child name. */
  function Query(t: Block, at: seq<nat>, q: string, regex: bool, re: Regex): (r: Result<seq<Node>>)
    requires IsPath(t, at)
    ensures r.Ok? ==> ValidNodes(t, r.value)
    decreases |q|, 1, 0
  {
    if '>' in q then QueryChild(t, at, q, regex, re)
    else if '|' in q then
      SplitPiecesShorter(q, '|');
      QueryTerms(t, at, Split(q, '|'), |q|, regex, re)
    else if '[' in q then QueryAttrs(t, at, q, regex, re)
    else if '(' in q then QueryContent(t, at, q, regex, re)
    else Ok(QueryKeyword(t, at, q, regex, re))
  }

  /** "parent > child": the child query on every result of the parent query. */
  function QueryChild(t: Block, at: seq<nat>, q: string, regex: bool, re: Regex): (r: Result<seq<Node>>)
    requires IsPath(t, at) && '>' in q
    ensures r.Ok? ==> ValidNodes(t, r.value)
    decreases |q|, 0, 0
  {
    var (pn, cn) := SplitOnce(q, '>');
    match Query(t, at, StripWs(pn), regex, re)
    case Err(e) => Err(e)
    case Ok(parents) => QueryEach(t, parents, StripWs(cn), regex, re)
  }

  /** "name[attrs]": the nodes of the query without the brackets whose header matches. */
  function QueryAttrs(t: Block, at: seq<nat>, q: string, regex: bool, re: Regex): (r: Result<seq<Node>>)
    requires IsPath(t, at) && '[' in q && '>' !in q && '|' !in q
    ensures r.Ok? ==> ValidNodes(t, r.value)
    decreases |q|, 0, 0
  {
    var i, j := Find(q, '['), Find(q, ']');
    if j < i then Err(RecursionLimit(q))
    else
      match Query(t, at, q[..i] + q[j + 1..], regex, re)
      case Err(e) => Err(e)
      case Ok(xs) => FilterAttrs(t, xs, q[i + 1..j], regex, re)
  }

  /** "name(text)": the nodes of the query without the parentheses with a matching text
      line; a leading "ø" in the text turns regex matching on for it. */
  function QueryContent(t: Block, at: seq<nat>, q: string, regex: bool, re: Regex): (r: Result<seq<Node>>)
    requires IsPath(t, at) && '(' in q && '>' !in q && '|' !in q && '[' !in q
    ensures r.Ok? ==> ValidNodes(t, r.value)
    decreases |q|, 0, 0
  {
    var i, j := Find(q, '('), Find(q, ')');
    if j < i then Err(RecursionLimit(q))
    else
      var m := q[i + 1..j];
      var local := StartsWith(m, [RegexEnabler]);
      match Query(t, at, q[..i] + q[j + 1..], regex, re)
      case Err(e) => Err(e)
      case Ok(xs) => FilterContent(t, xs, if local then LStrip(m, {RegexEnabler}) else m, regex || local, re)
  }

  /** The keyword queries and the plain child name. */
  function QueryKeyword(t: Block, at: seq<nat>, q: string, regex: bool, re: Regex): (r: seq<Node>)
    requires IsPath(t, at)
    ensures ValidNodes(t, r)
  {
    var k := StripWs(q);
    if k == "*" then ChildNodes(t, at, 0)
    else if k == "**" then DescNodes(t, at)
    else if k == ".." then
      if |at| == 0 then [None]
      else
        PathPrefix(t, at, |at| - 1);
        [Some(at[..|at| - 1])]
    else if k == "root" then [Some([])]
    else NamedChildren(t, at, 0, q, regex, re)
  }

  /** The rest of a child-selector query applied to every parent, results concatenated. */
  function QueryEach(t: Block, parents: seq<Node>, q: string, regex: bool, re: Regex): (r: Result<seq<Node>>)
    requires ValidNodes(t, parents)
    ensures r.Ok? ==> ValidNodes(t, r.value)
    decreases |q|, 2, |parents|
  {
    if parents == [] then Ok([])
    else
      assert ValidNodes(t, parents[1..]) by {
        assert forall i :: 0 <= i < |parents[1..]| ==> parents[1..][i] == parents[i + 1];
      }
      match parents[0]
      case None => Err(NoneHasNoAttribute)
      case Some(p) =>
        match (Query(t, p, q, regex, re), QueryEach(t, parents[1..], q, regex, re))
        case (Err(e), _) => Err(e)
        case (_, Err(e)) => Err(e)
        case (Ok(xs), Ok(ys)) => Ok(xs + ys)
  }

  /** The terms of a union query, each stripped and queried in turn, results concatenated. */
  function QueryTerms(t: Block, at: seq<nat>, terms: seq<string>, bound: nat, regex: bool, re: Regex): (r: Result<seq<Node>>)
    requires IsPath(t, at) && forall s :: s in terms ==> |s| < bound
    ensures r.Ok? ==> ValidNodes(t, r.value)
    decreases bound, 0, |terms|
  {
    if terms == [] then Ok([])
    else
      assert terms[0] in terms;
      Concat(Query(t, at, StripWs(terms[0]), regex, re), QueryTerms(t, at, terms[1..], bound, regex, re))
  }

  /** Two results one after the other; the first error wins. */
  function Concat(a: Result<seq<Node>>, b: Result<seq<Node>>): (r: Result<seq<Node>>)
    ensures r.Ok? <==> a.Ok? && b.Ok?
    ensures r.Ok? ==> r.value == a.value + b.value
    ensures a.Err? ==> r == a
  {
    match (a, b)
    case (Err(e), _) => Err(e)
    case (_, Err(e)) => Err(e)
    case (Ok(xs), Ok(ys)) => Ok(xs + ys)
  }

  // ------------------------------------------------------------- properties

  /** The blocks a result's nodes stand for. */
  function Blocks(t: Block, xs: seq<Node>): (r: seq<Block>)
    requires ValidNodes(t, xs) && forall i :: 0 <= i < |xs| ==> xs[i].Some?
    ensures |r| == |xs| && forall i :: 0 <= i < |xs| ==> r[i] == At(t, xs[i].value)
  {
    seq(|xs|, i requires 0 <= i < |xs| => At(t, xs[i].value))
  }

  lemma {:induction false} ChildNodesAreChildren(t: Block, at: seq<nat>, j: nat)
    requires IsPath(t, at) && j <= |At(t, at).content|
    ensures Blocks(t, ChildNodes(t, at, j)) == ChildrenOf(At(t, at).content[j..])
    decreases |At(t, at).content| - j
  {
    var b := At(t, at);
    if j < |b.content| {
      ChildNodesAreChildren(t, at, j + 1);
      var items := b.content[j..];
      assert items[0] == b.content[j] && items[1..] == b.content[j + 1..];
      if b.content[j].Child? {
        PathSnoc(t, at, j);
        BlocksCons(t, Some(at + [j]), ChildNodes(t, at, j + 1));
      }
    } else {
      assert b.content[j..] == [];
    }
  }

  lemma BlocksCons(t: Block, x: Node, xs: seq<Node>)
    requires x.Some? && IsPath(t, x.value) && ValidNodes(t, xs) && forall i :: 0 <= i < |xs| ==> xs[i].Some?
    ensures ValidNodes(t, [x] + xs) && Blocks(t, [x] + xs) == [At(t, x.value)] + Blocks(t, xs)
  {
    var ys := [x] + xs;
    assert forall i :: 0 < i < |ys| ==> ys[i] == xs[i - 1];
  }

  /** "*" yields the children, in content order (`getchildren`). */
  lemma QueryStar(t: Block, at: seq<nat>, q: string, regex: bool, re: Regex)
    requires IsPath(t, at) && '>' !in q && '|' !in q && '[' !in q && '(' !in q && StripWs(q) == "*"
    ensures var r := Query(t, at, q, regex, re);
      && r.Ok? && (forall i :: 0 <= i < |r.value| ==> r.value[i].Some?)
      && Blocks(t, r.value) == Children(At(t, at))
  {
    ChildNodesAreChildren(t, at, 0);
    assert At(t, at).content[0..] == At(t, at).content;
  }

  /** A path from the root through `at` is a path from the node at `at`. */
  lemma {:induction false} PathSplit(t: Block, at: seq<nat>, d: seq<nat>)
    requires IsPath(t, at) && IsPath(t, at + d)
    ensures IsPath(At(t, at), d)
    decreases |at|
  {
    if |at| > 0 {
      assert (at + d)[1..] == at[1..] + d;
      PathSplit(t.content[at[0]].block, at[1..], d);
    } else {
      assert at + d == d;
    }
  }

  /** Nodes listed depth first, none twice. */
  predicate NodesIncreasing(xs: seq<Node>)
  {
    forall i, k :: 0 <= i < k < |xs| ==> xs[i].Some? && xs[k].Some? && PathLess(xs[i].value, xs[k].value)
  }

  /** "**" yields exactly the nodes strictly below `at` (`flatten`), in
      depth-first order and each once. */
  lemma QueryDescendants(t: Block, at: seq<nat>, q: string, regex: bool, re: Regex, p: seq<nat>)
    requires IsPath(t, at) && '>' !in q && '|' !in q && '[' !in q && '(' !in q && StripWs(q) == "**"
    ensures Query(t, at, q, regex, re).Ok?
    ensures Some(p) in Query(t, at, q, regex, re).value <==> |p| > |at| && p[..|at|] == at && IsPath(t, p)
    ensures NodesIncreasing(Query(t, at, q, regex, re).value)
  {
    assert Query(t, at, q, regex, re) == Ok(DescNodes(t, at));
    DescNodesOrdered(t, at);
    if Some(p) in DescNodes(t, at) {
      DescNodesSound(t, at, p);
    }
    if |p| > |at| && p[..|at|] == at && IsPath(t, p) {
      DescNodesComplete(t, at, p);
    }
  }

  lemma DescNodesOrdered(t: Block, at: seq<nat>)
    requires IsPath(t, at)
    ensures NodesIncreasing(DescNodes(t, at))
  {
    var xs := DescNodes(t, at);
    var ds := DescPaths(At(t, at));
    DescPathsOrdered(At(t, at));
    forall i, k | 0 <= i < k < |xs| ensures xs[i].Some? && xs[k].Some? && PathLess(xs[i].value, xs[k].value) {
      PathLessPrefix(at, ds[i], ds[k]);
    }
  }

  lemma DescNodesSound(t: Block, at: seq<nat>, p: seq<nat>)
    requires IsPath(t, at) && Some(p) in DescNodes(t, at)
    ensures |p| > |at| && p[..|at|] == at && IsPath(t, p)
  {
    var xs := DescNodes(t, at);
    var ds := DescPaths(At(t, at));
    var i :| 0 <= i < |xs| && xs[i] == Some(p);
    DescPathsSpec(At(t, at), ds[i]);
    assert p == at + ds[i];
    assert p[..|at|] == at;
  }

  lemma DescNodesComplete(t: Block, at: seq<nat>, p: seq<nat>)
    requires IsPath(t, at) && |p| > |at| && p[..|at|] == at && IsPath(t, p)
    ensures Some(p) in DescNodes(t, at)
  {
    var xs := DescNodes(t, at);
    var ds := DescPaths(At(t, at));
    var d := p[|at|..];
    assert p == at + d;
    PathSplit(t, at, d);
    DescPathsSpec(At(t, at), d);
    var i :| 0 <= i < |ds| && ds[i] == d;
    assert xs[i] == Some(p);
  }

  /** ".." yields the parent, whose content holds the node, or `None` above the root. */
  lemma QueryParent(t: Block, at: seq<nat>, q: string, regex: bool, re: Regex)
    requires IsPath(t, at) && '>' !in q && '|' !in q && '[' !in q && '(' !in q && StripWs(q) == ".."
    ensures |at| == 0 ==> Query(t, at, q, regex, re) == Ok([None])
    ensures |at| > 0 ==>
      var up := at[..|at| - 1];
      && IsPath(t, up) && Query(t, at, q, regex, re) == Ok([Some(up)])
      && at[|at| - 1] < |At(t, up).content| && At(t, up).content[at[|at| - 1]] == Child(At(t, at))
  {
    if |at| > 0 {
      var up := at[..|at| - 1];
      PathPrefix(t, at, |at| - 1);
      assert at == up + [at[|at| - 1]];
      PathSnoc(t, up, at[|at| - 1]);
    }
  }

  /** "root" yields the top of the tree, the node `getroot` reaches. */
  lemma QueryRoot(t: Block, at: seq<nat>, q: string, regex: bool, re: Regex)
    requires IsPath(t, at) && '>' !in q && '|' !in q && '[' !in q && '(' !in q && StripWs(q) == "root"
    ensures Query(t, at, q, regex, re) == Ok([Some([])]) && At(t, []) == GetRoot(t, at)
  {
  }

  /** A node that is a child of `at`, at index `j` or later, with a matching reader name. */
  predicate NamedChild(t: Block, at: seq<nat>, j: nat, name: string, regex: bool, re: Regex, x: Node)
  {
    x.Some? && |x.value| == |at| + 1 && x.value[..|at|] == at && j <= x.value[|at|] &&
    IsPath(t, x.value) && NameMatches(At(t, x.value), name, regex, re)
  }

  /** The children from index `j` on whose name matches, and every one of them. */
  lemma NamedChildrenSpec(t: Block, at: seq<nat>, j: nat, name: string, regex: bool, re: Regex)
    requires IsPath(t, at)
    ensures var xs := NamedChildren(t, at, j, name, regex, re);
      && (forall i :: 0 <= i < |xs| ==> NamedChild(t, at, j, name, regex, re, xs[i]))
      && (forall k :: (j <= k < |At(t, at).content| && At(t, at).content[k].Child? &&
            NameMatches(At(t, at).content[k].block, name, regex, re)) ==> Some(at + [k]) in xs)
  {
    NamedChildrenSound(t, at, j, name, regex, re);
    forall k | j <= k < |At(t, at).content| && At(t, at).content[k].Child? &&
        NameMatches(At(t, at).content[k].block, name, regex, re)
      ensures Some(at + [k]) in NamedChildren(t, at, j, name, regex, re)
    {
      NamedChildrenComplete(t, at, j, name, regex, re, k);
    }
  }

  lemma {:induction false} NamedChildrenSound(t: Block, at: seq<nat>, j: nat, name: string, regex: bool, re: Regex)
    requires IsPath(t, at)
    ensures forall i :: 0 <= i < |NamedChildren(t, at, j, name, regex, re)| ==>
      NamedChild(t, at, j, name, regex, re, NamedChildren(t, at, j, name, regex, re)[i])
    decreases |At(t, at).content| - j
  {
    var b := At(t, at);
    if j < |b.content| {
      NamedChildrenSound(t, at, j + 1, name, regex, re);
      PathSnoc(t, at, j);
      var rest := NamedChildren(t, at, j + 1, name, regex, re);
      forall i | 0 <= i < |rest| ensures NamedChild(t, at, j, name, regex, re, rest[i]) {
        assert NamedChild(t, at, j + 1, name, regex, re, rest[i]);
      }
      if b.content[j].Child? && NameMatches(b.content[j].block, name, regex, re) {
        assert (at + [j])[..|at|] == at;
        assert NamedChild(t, at, j, name, regex, re, Some(at + [j]));
        AllOfCons(Some(at + [j]), rest, x => NamedChild(t, at, j, name, regex, re, x));
      }
    }
  }

  lemma {:induction false} NamedChildrenComplete(t: Block, at: seq<nat>, j: nat, name: string, regex: bool, re: Regex, k: nat)
    requires IsPath(t, at) && j <= k < |At(t, at).content| && At(t, at).content[k].Child?
    requires NameMatches(At(t, at).content[k].block, name, regex, re)
    ensures Some(at + [k]) in NamedChildren(t, at, j, name, regex, re)
    decreases k - j
  {
    PathSnoc(t, at, j);
    if j < k {
      NamedChildrenComplete(t, at, j + 1, name, regex, re, k);
    }
  }

  lemma AllOfCons<T>(x: T, rest: seq<T>, p: T -> bool)
    requires p(x) && forall i :: 0 <= i < |rest| ==> p(rest[i])
    ensures forall i :: 0 <= i < |[x] + rest| ==> p(([x] + rest)[i])
  {
  }

  /** A plain name yields the children whose reader name matches it, in content order. */
  lemma QueryName(t: Block, at: seq<nat>, q: string, regex: bool, re: Regex, k: nat)
    requires IsPath(t, at) && '>' !in q && '|' !in q && '[' !in q && '(' !in q
    requires StripWs(q) != "*" && StripWs(q) != "**" && StripWs(q) != ".." && StripWs(q) != "root"
    ensures Query(t, at, q, regex, re).Ok?
    ensures var xs := Query(t, at, q, regex, re).value;
      && (forall i :: 0 <= i < |xs| ==> (xs[i].Some? && |xs[i].value| == |at| + 1 && xs[i].value[..|at|] == at
            && IsPath(t, xs[i].value) && NameMatches(At(t, xs[i].value), q, regex, re)))
      && ((k < |At(t, at).content| && At(t, at).content[k].Child? &&
            NameMatches(At(t, at).content[k].block, q, regex, re)) ==> Some(at + [k]) in xs)
  {
    NamedChildrenSpec(t, at, 0, q, regex, re);
  }

  lemma QueryTermsPair(t: Block, at: seq<nat>, a: string, b: string, bound: nat, regex: bool, re: Regex)
    requires IsPath(t, at) && |a| < bound && |b| < bound
    ensures QueryTerms(t, at, [a, b], bound, regex, re) ==
      Concat(Query(t, at, StripWs(a), regex, re), Query(t, at, StripWs(b), regex, re))
  {
    var terms := [a, b];
    assert terms[1..] == [b];
    assert [b][1..] == [];
    var rb := Query(t, at, StripWs(b), regex, re);
    assert QueryTerms(t, at, [b], bound, regex, re) == Concat(rb, Ok([]));
    if rb.Ok? { assert rb.value + [] == rb.value; }
  }

  /** "A | B" yields the results of A, then those of B, duplicates kept. */
  lemma QueryUnion(t: Block, at: seq<nat>, a: string, b: string, regex: bool, re: Regex)
    requires IsPath(t, at) && '>' !in a && '>' !in b && '|' !in a && '|' !in b
    ensures Query(t, at, a + "|" + b, regex, re) ==
      Concat(Query(t, at, StripWs(a), regex, re), Query(t, at, StripWs(b), regex, re))
  {
    var q := a + "|" + b;
    assert q == a + ['|'] + b;
    assert '>' !in q by {
      forall k | 0 <= k < |q| ensures q[k] != '>' {
        if k < |a| { assert q[k] == a[k]; } else if k > |a| { assert q[k] == b[k - |a| - 1]; }
      }
    }
    assert q[|a|] == '|';
    SplitCons(a, b, '|');
    assert Split(q, '|') == [a, b];
    assert Query(t, at, q, regex, re) == QueryTerms(t, at, [a, b], |q|, regex, re);
    QueryTermsPair(t, at, a, b, |q|, regex, re);
  }

  /** A union with itself yields every node twice. */
  lemma QueryUnionSelf(t: Block, at: seq<nat>, a: string, regex: bool, re: Regex)
    requires IsPath(t, at) && '>' !in a && '|' !in a
    ensures Query(t, at, StripWs(a), regex, re).Ok? ==>
      Query(t, at, a + "|" + a, regex, re) == Ok(Query(t, at, StripWs(a), regex, re).value + Query(t, at, StripWs(a), regex, re).value)
    ensures Query(t, at, StripWs(a), regex, re).Err? ==> Query(t, at, a + "|" + a, regex, re).Err?
  {
    QueryUnion(t, at, a, a, regex, re);
  }

  /** A parent the child query succeeds on. */
  predicate Answers(t: Block, n: Node, q: string, regex: bool, re: Regex)
  {
    n.Some? && IsPath(t, n.value) && Query(t, n.value, q, regex, re).Ok?
  }

  /** A parent the child query yields `y` on. */
  predicate Yields(t: Block, n: Node, q: string, regex: bool, re: Regex, y: Node)
  {
    Answers(t, n, q, regex, re) && y in Query(t, n.value, q, regex, re).value
  }

  /** The child query applied to each parent: defined only when every parent is a node
      whose query succeeds, and then yielding exactly their results. */
  lemma {:induction false} QueryEachSpec(t: Block, ps: seq<Node>, q: string, regex: bool, re: Regex, y: Node)
    requires ValidNodes(t, ps) && QueryEach(t, ps, q, regex, re).Ok?
    ensures forall i :: 0 <= i < |ps| ==> Answers(t, ps[i], q, regex, re)
    ensures y in QueryEach(t, ps, q, regex, re).value <==> exists i :: 0 <= i < |ps| && Yields(t, ps[i], q, regex, re, y)
    decreases |ps|
  {
    if ps != [] {
      QueryEachCons(t, ps, q, regex, re);
      QueryEachSpec(t, ps[1..], q, regex, re, y);
      assert Answers(t, ps[0], q, regex, re);
      AllShift(ps, n => Answers(t, n, q, regex, re));
      ExistsShift(ps, n => Yields(t, n, q, regex, re, y));
    }
  }

  /** A successful run on a non-empty list: the first parent's result, then the rest's. */
  lemma QueryEachCons(t: Block, ps: seq<Node>, q: string, regex: bool, re: Regex)
    requires ValidNodes(t, ps) && ps != [] && QueryEach(t, ps, q, regex, re).Ok?
    ensures ValidNodes(t, ps[1..]) && ps[0].Some? && IsPath(t, ps[0].value)
    ensures Query(t, ps[0].value, q, regex, re).Ok? && QueryEach(t, ps[1..], q, regex, re).Ok?
    ensures QueryEach(t, ps, q, regex, re).value ==
      Query(t, ps[0].value, q, regex, re).value + QueryEach(t, ps[1..], q, regex, re).value
  {
    assert ValidNodes(t, ps[1..]) by {
      assert forall i :: 0 <= i < |ps[1..]| ==> ps[1..][i] == ps[i + 1];
    }
  }

  lemma AllShift<T>(xs: seq<T>, p: T -> bool)
    requires xs != [] && p(xs[0]) && forall i :: 0 <= i < |xs[1..]| ==> p(xs[1..][i])
    ensures forall i :: 0 <= i < |xs| ==> p(xs[i])
  {
    assert forall i :: 1 <= i < |xs| ==> xs[i] == xs[1..][i - 1];
  }

  lemma KeepStep<T>(xs: seq<T>, r: seq<T>, rest: seq<T>, x: T, p: T -> bool)
    requires xs != [] && r == (if p(xs[0]) then [xs[0]] else []) + rest
    requires x in rest <==> x in xs[1..] && p(x)
    ensures x in r <==> x in xs && p(x)
  {
    assert xs == [xs[0]] + xs[1..];
  }

  lemma ExistsShift<T>(xs: seq<T>, p: T -> bool)
    requires xs != []
    ensures (p(xs[0]) || exists i :: 0 <= i < |xs[1..]| && p(xs[1..][i])) <==> exists i :: 0 <= i < |xs| && p(xs[i])
  {
    if exists i :: 0 <= i < |xs[1..]| && p(xs[1..][i]) {
      var i :| 0 <= i < |xs[1..]| && p(xs[1..][i]);
      assert xs[i + 1] == xs[1..][i];
    }
    if exists i :: 0 <= i < |xs| && p(xs[i]) {
      var i :| 0 <= i < |xs| && p(xs[i]);
      if i > 0 { assert xs[1..][i - 1] == xs[i]; }
    }
  }

  /** "A > B" runs B on every result of A; the first ">" splits, so "A > B | C > B"
      is "A" followed by "B | C > B". */
  lemma QueryChildSelector(t: Block, at: seq<nat>, a: string, b: string, regex: bool, re: Regex)
    requires IsPath(t, at) && '>' !in a
    ensures Query(t, at, a + ">" + b, regex, re) ==
      match Query(t, at, StripWs(a), regex, re)
      case Err(e) => Err(e)
      case Ok(ps) => QueryEach(t, ps, StripWs(b), regex, re)
  {
    var q := a + ">" + b;
    assert q == a + ['>'] + b;
    assert q[|a|] == '>';
    var i := IndexOf(q, '>');
    IndexOfAt(q, '>', |a|);
    assert q[..|a|] == a && q[|a| + 1..] == b;
  }

  /** A node whose header the attribute clauses can be matched against. */
  predicate AttrsDecided(t: Block, n: Node, attrs: string, regex: bool, re: Regex)
  {
    n.Some? && IsPath(t, n.value) && At(t, n.value).header.Some? &&
    MatchAttrs(At(t, n.value).header.value.props, attrs, regex, re).Ok?
  }

  /** A node whose header matches the attribute clauses. */
  predicate AttrsMatch(t: Block, n: Node, attrs: string, regex: bool, re: Regex)
  {
    AttrsDecided(t, n, attrs, regex, re) && MatchAttrs(At(t, n.value).header.value.props, attrs, regex, re).value
  }

  /** An attribute filter keeps the nodes whose header matches; it succeeds only if
      every node has a header and every clause is well formed. */
  lemma {:induction false} FilterAttrsSpec(t: Block, xs: seq<Node>, attrs: string, regex: bool, re: Regex, x: Node)
    requires ValidNodes(t, xs) && FilterAttrs(t, xs, attrs, regex, re).Ok?
    ensures forall i :: 0 <= i < |xs| ==> AttrsDecided(t, xs[i], attrs, regex, re)
    ensures x in FilterAttrs(t, xs, attrs, regex, re).value <==> x in xs && AttrsMatch(t, x, attrs, regex, re)
    decreases |xs|
  {
    if xs != [] {
      FilterAttrsCons(t, xs, attrs, regex, re);
      FilterAttrsSpec(t, xs[1..], attrs, regex, re, x);
      AllShift(xs, n => AttrsDecided(t, n, attrs, regex, re));
      KeepStep(xs, FilterAttrs(t, xs, attrs, regex, re).value, FilterAttrs(t, xs[1..], attrs, regex, re).value,
               x, n => AttrsMatch(t, n, attrs, regex, re));
    }
  }

  /** One step of a successful attribute filter. */
  lemma FilterAttrsCons(t: Block, xs: seq<Node>, attrs: string, regex: bool, re: Regex)
    requires ValidNodes(t, xs) && xs != [] && FilterAttrs(t, xs, attrs, regex, re).Ok?
    ensures ValidNodes(t, xs[1..]) && AttrsDecided(t, xs[0], attrs, regex, re)
    ensures FilterAttrs(t, xs[1..], attrs, regex, re).Ok?
    ensures FilterAttrs(t, xs, attrs, regex, re).value ==
      (if AttrsMatch(t, xs[0], attrs, regex, re) then [xs[0]] else []) + FilterAttrs(t, xs[1..], attrs, regex, re).value
  {
    assert ValidNodes(t, xs[1..]) by {
      assert forall i :: 0 <= i < |xs[1..]| ==> xs[1..][i] == xs[i + 1];
    }
  }

  /** A node with a text line the content pattern matches. */
  predicate ContentMatch(t: Block, n: Node, m: string, regex: bool, re: Regex)
  {
    n.Some? && IsPath(t, n.value) && MatchContent(Texts(At(t, n.value).content), m, regex, re)
  }

  /** A content filter keeps the nodes with a matching text line; it succeeds only if
      every element is a node. */
  lemma {:induction false} FilterContentSpec(t: Block, xs: seq<Node>, m: string, regex: bool, re: Regex, x: Node)
    requires ValidNodes(t, xs) && FilterContent(t, xs, m, regex, re).Ok?
    ensures forall i :: 0 <= i < |xs| ==> xs[i].Some?
    ensures x in FilterContent(t, xs, m, regex, re).value <==> x in xs && ContentMatch(t, x, m, regex, re)
    decreases |xs|
  {
    if xs != [] {
      FilterContentCons(t, xs, m, regex, re);
      FilterContentSpec(t, xs[1..], m, regex, re, x);
      AllShift(xs, (n: Node) => n.Some?);
      KeepStep(xs, FilterContent(t, xs, m, regex, re).value, FilterContent(t, xs[1..], m, regex, re).value,
               x, n => ContentMatch(t, n, m, regex, re));
    }
  }

  /** One step of a successful content filter. */
  lemma FilterContentCons(t: Block, xs: seq<Node>, m: string, regex: bool, re: Regex)
    requires ValidNodes(t, xs) && xs != [] && FilterContent(t, xs, m, regex, re).Ok?
    ensures ValidNodes(t, xs[1..]) && xs[0].Some? && IsPath(t, xs[0].value)
    ensures FilterContent(t, xs[1..], m, regex, re).Ok?
    ensures FilterContent(t, xs, m, regex, re).value ==
      (if ContentMatch(t, xs[0], m, regex, re) then [xs[0]] else []) + FilterContent(t, xs[1..], m, regex, re).value
  {
    assert ValidNodes(t, xs[1..]) by {
      assert forall i :: 0 <= i < |xs[1..]| ==> xs[1..][i] == xs[i + 1];
    }
  }

  /** Without a closing bracket after the opening one, the query with the brackets cut
      out (Python `q[:i] + q[j+1:]`) is no shorter, still has its closing bracket before
      its opening one and meets none of the earlier separators, so the rewriting never
      ends; this is why those queries give `RecursionLimit`. */
  lemma BracketRewriteRepeats(q: string, open: char, close: char, earlier: set<char>)
    requires open in q && open !in earlier && close !in earlier && Find(q, close) < Find(q, open)
    requires forall c :: c in earlier ==> c !in q
    ensures var i, j := Find(q, open), Find(q, close);
      var name := q[..i] + PySuffix(q, j + 1);
      && |name| >= |q| && open in name
      && Find(name, open) == 2 * i - j - 1 && Find(name, close) == j
      && forall c :: c in earlier ==> c !in name
  {
    var i, j := Find(q, open), Find(q, close);
    assert PySuffix(q, j + 1) == q[j + 1..];
    CutOpen(q, open, i, j);
    CutClose(q, close, i, j);
    CutKeepsOut(q, i, j, earlier);
  }

  /** A character of `q[..i] + q[j+1..]` and where it comes from. */
  lemma CutAt(q: string, i: nat, j: int, k: nat)
    requires -1 <= j < i <= |q| && k < i + |q| - (j + 1)
    ensures (q[..i] + q[j + 1..])[k] == if k < i then q[k] else q[j + 1 + k - i]
  {
  }

  /** The first `open` of the cut query is the original one, moved right by `i - j - 1`. */
  lemma CutOpen(q: string, open: char, i: nat, j: int)
    requires -1 <= j < i < |q| && q[i] == open && open !in q[..i]
    ensures |q[..i] + q[j + 1..]| >= |q| && Find(q[..i] + q[j + 1..], open) == 2 * i - j - 1
  {
    var name := q[..i] + q[j + 1..];
    var at := 2 * i - j - 1;
    CutAt(q, i, j, at);
    forall k | 0 <= k < at ensures name[k] != open {
      CutAt(q, i, j, k);
      if k >= i { assert q[j + 1 + k - i] == q[..i][j + 1 + k - i]; } else { assert q[k] == q[..i][k]; }
    }
    assert open !in name[..at];
    IndexOfAt(name, open, at);
  }

  /** The first `close` of the cut query stays where it was. */
  lemma CutClose(q: string, close: char, i: nat, j: int)
    requires -1 <= j < i <= |q| && Find(q, close) == j
    ensures Find(q[..i] + q[j + 1..], close) == j
  {
    if j >= 0 {
      CutCloseAt(q, close, i, j);
    } else {
      CutKeepsOut(q, i, j, {close});
    }
  }

  lemma CutCloseAt(q: string, close: char, i: nat, j: nat)
    requires j < i <= |q| && q[j] == close && close !in q[..j]
    ensures Find(q[..i] + q[j + 1..], close) == j
  {
    var name := q[..i] + q[j + 1..];
    forall k | 0 <= k < j ensures name[k] != close {
      CutAt(q, i, j, k);
      assert q[k] == q[..j][k];
    }
    assert close !in name[..j];
    CutAt(q, i, j, j);
    IndexOfAt(name, close, j);
  }

  /** Characters missing from `q` are missing from the cut query. */
  lemma CutKeepsOut(q: string, i: nat, j: int, earlier: set<char>)
    requires -1 <= j < i <= |q| && forall c :: c in earlier ==> c !in q
    ensures forall c :: c in earlier ==> c !in q[..i] + q[j + 1..]
  {
    var name := q[..i] + q[j + 1..];
    forall c | c in earlier ensures c !in name {
      forall k | 0 <= k < |name| ensures name[k] != c {
        CutAt(q, i, j, k);
      }
    }
  }
}
