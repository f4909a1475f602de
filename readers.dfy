/**
 * The block readers as objects: `BlockReaderBase` and `RootReader.parse`. A
 * reader keeps the fields the source updates in place (`_isreading`,
 * `startlinenumber`, `_nlines`, `content`, `_activechildreader` and the parent
 * link of the active child); the chain of active readers is a chain of
 * objects, each owning the next through `Repr`. A finished child is appended
 * to `content` as the block it stands for. Every method is proved to do what
 * the function of the same name in `Reading` does to the reader's `Model()`,
 * so the properties proved there hold of the objects.
 */
module Readers {
  import opened Wrappers
  import opened Strings
  import opened LineUtils
  import opened Kinds
  import opened Resolvers
  import opened Tree
  import opened Numbering
  import opened Reading
  import opened ReadingInvariants

  /** A call's outcome against the function that specifies it: the same error, or the
      same exit code and alerts with the reader left in the state the function gives. */
  ghost predicate Answers(spec: Result<Out>, r: Result<(Exit, seq<string>)>, m: State)
  {
    match spec
    case Err(e) => r == Err(e)
    case Ok(o) => r == Ok((o.exit, o.alerts)) && m == o.state
  }

  class Reader {
    const kind: Kind
    var resolver: Option<Resolver>
    var header: Option<Header>
    var start: int
    var content: seq<Item>
    var nlines: int
    var reading: bool
    var active: Reader?
    var parent: Reader?
    ghost var Repr: set<object>

    /** The active chain: a child is only activated once the header is read; each active
        child is owned, reads for this reader as its parent, and is valid in turn. */
    ghost predicate Valid()
      reads this, Repr
      decreases Repr
    {
      && this in Repr
      && (header.None? ==> active == null)
      && (active != null ==>
            && active in Repr && active.Repr <= Repr && this !in active.Repr
            && active.parent == this && active.Valid())
    }

    /** The reader as a value of `Reading.State`. */
    ghost function Model(): State
      reads this, Repr
      requires Valid()
      decreases Repr
    {
      State(kind, resolver, header, start, content, nlines, reading,
            if active == null then None else Some(active.Model()))
    }

    /** The reader's own fields; its model while no child is active. */
    function Shallow(): (s: State)
      reads this
      ensures s.kind == kind && s.resolver == resolver && s.active.None?
    {
      State(kind, resolver, header, start, content, nlines, reading, None)
    }

    /** A copy of a prototype, as `deepcopy` makes it: not reading, empty, no header. */
    constructor (k: Kind, res: Option<Resolver>)
      ensures Valid() && fresh(Repr) && parent == null
      ensures Model() == State(k, res, None, -1, [], 0, false, None)
    {
      kind := k;
      resolver := res;
      header := None;
      start := -1;
      content := [];
      nlines := 0;
      reading := false;
      active := null;
      parent := null;
      Repr := {this};
    }

    /** `__len__`: the header, the text lines, each child's length and, while reading,
        the active child's; a non-inline include counts as one line. */
    function Len(): (n: nat)
      reads this, Repr
      requires Valid()
      ensures n == LenNow(Model())
      decreases Repr
    {
      if kind == Include(false) then 1
      else HeaderLen(Base(Shallow())) + ItemsLen(content) + (if reading && active != null then active.Len() else 0)
    }

    /** `getendlinenumber`: where the next line read will be numbered. */
    function EndLineNumber(): (n: int)
      reads this, Repr
      requires Valid()
      ensures n == start + LenNow(Model())
    {
      start + Len()
    }

    /** The block the reader stands for once its active child is closed. */
    function Snapshot(): (b: Block)
      reads this, Repr
      requires Valid()
      ensures b == Close(Model())
      decreases Repr
    {
      if active == null then Block(kind, header, start, content)
      else Block(kind, header, start, content + [Child(active.Snapshot())])
    }

    /** `startreading(n)`: refused when the block already has content. */
    method StartReading(n: int) returns (r: Result<()>)
      requires Valid()
      modifies this
      ensures Valid() && Repr == old(Repr) && parent == old(parent)
      ensures r.Err? <==> Reading.StartReading(old(Model()), n).Err?
      ensures r.Err? ==> r.error == PreexistingContent && Model() == old(Model())
      ensures r.Ok? ==> Model() == Reading.StartReading(old(Model()), n).value
    {
      if |content| > 0 {
        return Err(PreexistingContent);
      }
      reading := true;
      start := n;
      content := [];
      r := Ok(());
    }

    /** `stopreading`: the active child is stopped and appended first. */
    method StopReading()
      requires Valid()
      modifies Repr
      ensures Valid() && Repr == old(Repr) && parent == old(parent) && active == null
      ensures Model() == Stop(old(Model()))
      decreases Repr, 1
    {
      if active != null {
        StopActiveChildReader();
      }
      reading := false;
    }

    /** `_stopactivechildreader`: stop the active child, append it, forget it. */
    method StopActiveChildReader()
      requires Valid() && active != null
      modifies Repr
      ensures Valid() && Repr == old(Repr) && parent == old(parent) && active == null
      ensures Model() == old(Model()).(content := Close(old(Model())).content, active := None)
      decreases Repr, 0
    {
      var c := active;
      ghost var cm := c.Model();
      c.StopReading();
      assert c.Model() == Stop(cm);
      var b := c.Snapshot();
      content := content + [Child(b)];
      active := null;
    }

    /** `_activatechildreader`: a fresh copy of the prototype starts where this block ends
        and reads for this reader; an include without a resolver of its own takes this
        reader's (`IncludeReader.getchildreaderresolver`). */
    method ActivateChildReader(p: Proto)
      requires Valid() && header.Some? && active == null
      modifies this
      ensures Valid() && fresh(Repr - old(Repr)) && parent == old(parent) && active != null
      ensures Model() == old(Model()).(active := Some(Fresh(p, old(Model()))))
    {
      var res := if p.kind.Include? && p.resolver.None? then resolver else p.resolver;
      var c := new Reader(p.kind, res);
      var at := EndLineNumber();
      var started := c.StartReading(at);
      assert started.Ok?;
      c.parent := this;
      active := c;
      Repr := Repr + c.Repr;
    }

    /** `read(line, sibling)` for a reader whose ancestors have the names `anc`. */
    method Read(raw: string, sib: Option<Proto>, anc: seq<string>, alerts: seq<string>, inc: Includes)
      returns (r: Result<(Exit, seq<string>)>)
      requires Valid()
      modifies Repr
      ensures Valid() && fresh(Repr - old(Repr)) && parent == old(parent)
      ensures Answers(Reading.Read(old(Model()), raw, sib, anc, alerts, inc), r, Model())
      decreases Weight(Model()), 4
    {
      ghost var m := Model();
      if header.Some? && EndsGreedy(kind, raw) {
        ReadEnd(m, raw, sib, anc, alerts, inc);
        StopReading();
        content := content + [Text(raw)];
        nlines := nlines + 1;
        return Ok((Done, alerts));
      }
      if kind.Include? && header.None? {
        ReadIncludeLine(m, raw, sib, anc, alerts, inc);
        r := ReadInclude(IncludeTarget(raw), alerts, inc);
        assert r.Ok? ==> Model() == Shallow();
        return;
      }
      if !reading {
        return Err(NotReading);
      }
      var line := RStripNL(raw);
      if header.None? {
        r := ReadHeader(line);
        ReadHeaderLine(m, raw, sib, anc, alerts, inc);
        r := if r.Ok? then Ok((Continue, alerts)) else r;
        return;
      }
      ReadAfterHeader(m, raw, sib, anc, alerts, inc);
      r := ReadBody(line, sib, anc, alerts, inc);
    }

    /** The first line read becomes the header (`parameterizeheader`). */
    method ReadHeader(line: string) returns (r: Result<(Exit, seq<string>)>)
      requires Valid() && header.None?
      modifies this
      ensures Valid() && Repr == old(Repr) && parent == old(parent)
      ensures match ParseHeader(line)
        case Err(e) => r == Err(e) && Model() == old(Model())
        case Ok(h) => r.Ok? && Model() == old(Model()).(header := Some(h), nlines := old(Model()).nlines + 1)
    {
      var h := ParseHeader(line);
      if h.Err? {
        return Err(h.error);
      }
      header := Some(h.value);
      nlines := nlines + 1;
      r := Ok((Continue, []));
    }

    /** `IncludeReader.read` on its include line, whose header and path (or the error
        met reading them) are `target`: the named file, already parsed, becomes the
        content, numbered from line 0, and the reading is over. */
    method ReadInclude(target: Result<(Header, string)>, alerts: seq<string>, inc: Includes)
      returns (r: Result<(Exit, seq<string>)>)
      requires Valid() && kind.Include? && header.None?
      modifies this
      ensures Valid() && Repr == old(Repr) && parent == old(parent)
      ensures resolver == old(resolver) && nlines == old(nlines)
      ensures match target
        case Err(e) => r == Err(e)
        case Ok((h, path)) =>
          if |old(content)| > 0 then r == Err(PreexistingContent)
          else r == Ok((Done, alerts)) && header == Some(h) && start == 0 && content == inc(path)
               && !reading && active == null
    {
      if target.Err? {
        return Err(target.error);
      }
      if |content| > 0 {
        return Err(PreexistingContent);
      }
      header := Some(target.value.0);
      start := 0;
      content := inc(target.value.1);
      reading := false;
      r := Ok((Done, alerts));
    }

    /** The part of `read` after the header: hand the line back (`doterminate`), keep it
        as text, or start the candidate child and delegate to the active one. */
    method ReadBody(line: string, sib: Option<Proto>, anc: seq<string>, alerts: seq<string>, inc: Includes)
      returns (r: Result<(Exit, seq<string>)>)
      requires Valid() && header.Some?
      modifies Repr
      ensures Valid() && fresh(Repr - old(Repr)) && parent == old(parent)
      ensures Answers(Reading.ReadBody(old(Model()), line, sib, anc, alerts, inc), r, Model())
      decreases Weight(Model()), 3
    {
      ghost var m := Model();
      var alerts1 := Notify(Shallow(), line, sib, anc, alerts);
      if DoTerminate(kind, resolver, line, sib) {
        BodyTerminates(m, line, sib, anc, alerts, inc);
        StopReading();
        return Ok((Reject, alerts1));
      }
      var cand := Candidate(Shallow(), line);
      if active == null && cand.None? {
        BodyText(m, line, sib, anc, alerts, inc);
        content := content + [Text(line)];
        nlines := nlines + 1;
        return Ok((Continue, alerts1));
      }
      if active == null {
        BodyStarts(m, line, sib, anc, alerts, inc);
        ActivateChildReader(cand.value);
      } else {
        BodyDelegates(m, line, sib, anc, alerts, inc);
      }
      assert Weight(Model()) <= Weight(m);
      r := Delegate(line, sib, cand, anc, alerts1, inc);
    }

    /** The line handed to the active child. On `DONE` or `REJECT` the child is stopped
        and appended; on `REJECT` the candidate child, if any, is started and the line is
        read again. */
    method Delegate(line: string, sib: Option<Proto>, cand: Option<Proto>, anc: seq<string>,
                    alerts: seq<string>, inc: Includes)
      returns (r: Result<(Exit, seq<string>)>)
      requires Valid() && header.Some? && active != null
      modifies Repr
      ensures Valid() && fresh(Repr - old(Repr)) && parent == old(parent)
      ensures Answers(Reading.Delegate(old(Model()), line, sib, cand, anc, alerts, inc), r, Model())
      decreases Weight(Model()), 2
    {
      ghost var m := Model();
      var rc := ChildRead(line, cand, anc + [Name(kind)], alerts, inc);
      ghost var spec := Reading.Read(m.active.value, line, cand, anc + [Name(kind)], alerts, inc);
      if rc.Err? {
        DelegateErr(m, line, sib, cand, anc, alerts, inc, spec);
        r := Err(rc.error);
      } else if rc.value.0 == Continue {
        DelegateContinue(m, line, sib, cand, anc, alerts, inc, spec);
        nlines := nlines + 1;
        r := Ok((Continue, rc.value.1));
      } else {
        var done := rc.value.0 == Done;
        if done {
          DelegateDone(m, line, sib, cand, anc, alerts, inc, spec);
        } else {
          DelegateReject(m, line, sib, cand, anc, alerts, inc, spec);
          assert Weight(m) > 1;
        }
        r := HandBack(line, sib, cand, anc, rc.value.1, inc, done, Weight(m));
      }
    }

    /** The active child has finished (`DONE`) or handed the line back (`REJECT`): it is
        stopped and appended; on `DONE` the line counts as read here, on `REJECT` it is
        read again with the candidate child, if any, started. */
    method HandBack(line: string, sib: Option<Proto>, cand: Option<Proto>, anc: seq<string>,
                    alerts: seq<string>, inc: Includes, done: bool, ghost w: nat)
      returns (r: Result<(Exit, seq<string>)>)
      requires Valid() && header.Some? && active != null && (done || w > 1)
      modifies Repr
      ensures Valid() && fresh(Repr - old(Repr)) && parent == old(parent)
      ensures var m := old(Model());
        var s2 := m.(content := m.content + [Child(Close(m.active.value))], active := None);
        && (done ==> r == Ok((Continue, alerts)) && Model() == s2.(nlines := s2.nlines + 1))
        && (!done ==> Answers(Reading.Read(Redo(s2, cand), line, sib, anc, alerts, inc), r, Model()))
      decreases w, 1
    {
      ghost var m := Model();
      StopActiveChildReader();
      assert Close(m).content == m.content + [Child(Close(m.active.value))];
      if done {
        nlines := nlines + 1;
        return Ok((Continue, alerts));
      }
      r := RedoRead(line, sib, cand, anc, alerts, inc, w);
    }

    /** The active child reads the line; this reader is left as it was but for its child. */
    method ChildRead(line: string, cand: Option<Proto>, anc: seq<string>, alerts: seq<string>, inc: Includes)
      returns (r: Result<(Exit, seq<string>)>)
      requires Valid() && active != null
      modifies Repr
      ensures Valid() && fresh(Repr - old(Repr)) && parent == old(parent) && active != null
      ensures var spec := Reading.Read(old(Model()).active.value, line, cand, anc, alerts, inc);
        && (spec.Err? ==> r == Err(spec.error))
        && (spec.Ok? ==> r == Ok((spec.value.exit, spec.value.alerts))
                         && Model() == old(Model()).(active := Some(spec.value.state)))
      decreases Weight(Model()), 0
    {
      ghost var m := Model();
      var c := active;
      ghost var cm := c.Model();
      assert m.active == Some(cm);
      r := c.Read(line, cand, anc, alerts, inc);
      Repr := Repr + c.Repr;
      assert Model() == m.(active := Some(c.Model()));
    }

    /** The redo after the active child handed the line back: start the candidate child,
        if any, and read the line again. */
    method RedoRead(line: string, sib: Option<Proto>, cand: Option<Proto>, anc: seq<string>,
                    alerts: seq<string>, inc: Includes, ghost w: nat)
      returns (r: Result<(Exit, seq<string>)>)
      requires Valid() && header.Some? && active == null && w > 1
      modifies Repr
      ensures Valid() && fresh(Repr - old(Repr)) && parent == old(parent)
      ensures Answers(Reading.Read(Redo(old(Model()), cand), line, sib, anc, alerts, inc), r, Model())
      decreases w, 0
    {
      if cand.Some? {
        ActivateChildReader(cand.value);
      }
      assert Model() == Redo(old(Model()), cand);
      assert Weight(Model()) == 1;
      r := Read(line, sib, anc, alerts, inc);
    }

    /** `updatestartlinenumber(n)`: the block starts at `n`; unless a child it reaches has
        no header, which raises, its children are renumbered as `RenumberedContent` walks them. */
    method UpdateStartLineNumber(n: int) returns (r: Result<()>)
      requires Valid()
      modifies this`start, this`content
      ensures Valid() && start == n
      ensures r.Err? <==> Raises(old(Base(Shallow())))
      ensures r.Err? ==> r.error == NoneHasNoAttribute && content == old(content)
      ensures r.Ok? ==> Base(Shallow()) == Renumber(old(Base(Shallow())), n)
      ensures Unambiguous(old(Base(Shallow()))) ==> r.Ok? && Spans(Base(Shallow()))
      ensures Model() == old(Model()).(start := n, content := content)
    {
      var b := Base(Shallow());
      assert Unambiguous(b) ==> !Raises(b) && Spans(Renumber(b, n)) by {
        if Unambiguous(b) {
          UnambiguousNeverRaises(b);
          RenumberContinuous(b, n);
        }
      }
      start := n;
      if Raises(b) {
        return Err(NoneHasNoAttribute);
      }
      var items := RenumberedContent(b, n);
      content := items;
      r := Ok(());
    }

    /** `RootReader.parse`: start at line 0, read every line with no sibling, stop. */
    method Parse(lines: seq<string>, alerts: seq<string>, inc: Includes) returns (r: Result<seq<string>>)
      requires Valid() && kind == Root
      modifies Repr
      ensures Valid() && fresh(Repr - old(Repr))
      ensures var spec := ParseState(old(Model()), lines, alerts, inc);
        && (r.Err? <==> spec.Err?)
        && (r.Err? ==> r.error == spec.error)
        && (r.Ok? ==> r.value == spec.value.1 && Model() == spec.value.0)
    {
      ghost var m0 := Model();
      var started := StartReading(0);
      if started.Err? {
        return Err(started.error);
      }
      ghost var t := Model();
      var a := alerts;
      var i := 0;
      while i < |lines|
        invariant 0 <= i <= |lines|
        invariant Valid() && fresh(Repr - old(Repr))
        invariant ReadAll(t, lines, alerts, inc) == ReadAll(Model(), lines[i..], a, inc)
        decreases |lines| - i
      {
        ghost var mi := Model();
        var ri := Read(lines[i], None, [], a, inc);
        assert lines[i..][0] == lines[i] && lines[i..][1..] == lines[i + 1..];
        if ri.Err? {
          return Err(ri.error);
        }
        a := ri.value.1;
        i := i + 1;
      }
      StopReading();
      r := Ok(a);
    }
  }

  /** The loop of `updatestartlinenumber(n)` over block `b`: the children are indexed by
      their header lines, the last child with a line winning, and every numbered line of
      the flattened content that is such a key renumbers its child from that line. */
  method RenumberedContent(b: Block, n: int) returns (content: seq<Item>)
    ensures content == Renumber(b, n).content
  {
    var items := b.content;
    var flat := Flat(b);
    var children := ChildIndex(items);
    content := items;
    PartialNone(b, n);
    var i := 0;
    while i < |flat|
      invariant 0 <= i <= |flat| && content == PartialSeq(b, flat[..i], n)
    {
      var l := flat[i];
      if l in children {
        var k := children[l];
        RenumberAgain(b, flat[..i], n, k, n + i);
        content := content[k := Child(Renumber(content[k].block, n + i))];
        StepKey(b, flat, i, n, k);
      } else {
        StepNoKey(b, flat, i, n);
      }
      i := i + 1;
    }
    assert flat[..i] == flat;
    PartialAll(b, n);
  }

  /** Renumbering a child already renumbered is renumbering the child as it was. */
  lemma RenumberAgain(b: Block, done: seq<string>, n: int, k: nat, m: int)
    requires k < |b.content| && Wins(b.content, k)
    ensures b.content[k].Child? && Partial(b, done, n, k).Child?
    ensures Renumber(Partial(b, done, n, k).block, m) == Renumber(b.content[k].block, m)
  {
    var c := b.content[k].block;
    if c.header.value.line in done {
      RenumberTwice(c, n + LastIndex(done, c.header.value.line), m);
    }
  }

  /** A numbered line that is the key of child `k`: that child alone is renumbered. */
  lemma StepKey(b: Block, flat: seq<string>, i: nat, n: int, k: nat)
    requires k < |b.content| && i < |flat|
    requires Key(b.content[k]) == Some(flat[i]) && Winner(b.content, k)
    requires PartialSeq(b, flat[..i], n)[k].Child?
    ensures var before := PartialSeq(b, flat[..i], n);
      PartialSeq(b, flat[..i + 1], n) == before[k := Child(Renumber(before[k].block, n + i))]
  {
    var done := flat[..i];
    assert flat[..i + 1] == done + [flat[i]];
    var before := PartialSeq(b, done, n);
    RenumberAgain(b, done, n, k, n + i);
    var after := before[k := Child(Renumber(before[k].block, n + i))];
    forall j | 0 <= j < |after| ensures after[j] == PartialSeq(b, done + [flat[i]], n)[j] {
      PartialStep(b, done, flat[i], n, j);
    }
  }

  /** A numbered line that is no child's key changes nothing. */
  lemma StepNoKey(b: Block, flat: seq<string>, i: nat, n: int)
    requires i < |flat|
    requires forall j :: 0 <= j < |b.content| ==> Key(b.content[j]) != Some(flat[i])
    ensures PartialSeq(b, flat[..i + 1], n) == PartialSeq(b, flat[..i], n)
  {
    var done := flat[..i];
    assert flat[..i + 1] == done + [flat[i]];
    forall j | 0 <= j < |b.content| ensures PartialSeq(b, done + [flat[i]], n)[j] == PartialSeq(b, done, n)[j] {
      PartialStep(b, done, flat[i], n, j);
    }
  }

  /** Once every numbered line is looked up, the items are those of `Renumber`. */
  lemma PartialAll(b: Block, n: int)
    ensures PartialSeq(b, Flat(b), n) == Renumber(b, n).content
  {
    forall k | 0 <= k < |b.content| ensures PartialSeq(b, Flat(b), n)[k] == Renumber(b, n).content[k] {
      PartialDone(b, n, k);
    }
  }

  lemma PartialDone(b: Block, n: int, k: nat)
    requires k < |b.content|
    ensures Partial(b, Flat(b), n, k) == Renumber(b, n).content[k]
  {
    assert Renumber(b, n).content[k] == RenumberItem(b, Flat(b), n, k);
    if Key(b.content[k]).Some? {
      ChildKeyInFlat(b, k);
    }
  }

  /** The dictionary `{c.getheader().line: c for c in getchildren()}`: each header line of a
      child maps to the last child that has it. */
  method ChildIndex(items: seq<Item>) returns (children: map<string, nat>)
    ensures forall key :: key in children <==> exists k :: 0 <= k < |items| && Key(items[k]) == Some(key)
    ensures forall key :: key in children ==>
      children[key] < |items| && Key(items[children[key]]) == Some(key) && Winner(items, children[key])
  {
    children := map[];
    var j := 0;
    while j < |items|
      invariant 0 <= j <= |items|
      invariant KeysMet(items, children, j) && LastMet(items, children, j)
    {
      var key := Key(items[j]);
      KeysStep(items, children, j);
      LastStep(items, children, j);
      if key.Some? {
        children := children[key.value := j];
      }
      j := j + 1;
    }
  }

  /** The keys of `children` are those of the first `j` items. */
  ghost predicate KeysMet(items: seq<Item>, children: map<string, nat>, j: nat)
    requires j <= |items|
  {
    forall key :: key in children <==> exists k :: 0 <= k < j && Key(items[k]) == Some(key)
  }

  /** Each key maps to the last of the first `j` items that has it. */
  ghost predicate LastMet(items: seq<Item>, children: map<string, nat>, j: nat)
    requires j <= |items|
  {
    forall key :: key in children ==>
      children[key] < j && Key(items[children[key]]) == Some(key)
      && forall k :: children[key] < k < j ==> Key(items[k]) != Some(key)
  }

  /** The dictionary after one more item, as the loop body builds it. */
  function Enter(children: map<string, nat>, key: Option<string>, j: nat): map<string, nat>
  {
    if key.Some? then children[key.value := j] else children
  }

  lemma KeysStep(items: seq<Item>, children: map<string, nat>, j: nat)
    requires j < |items| && KeysMet(items, children, j)
    ensures KeysMet(items, Enter(children, Key(items[j]), j), j + 1)
  {
    var c := Enter(children, Key(items[j]), j);
    forall key
      ensures key in c <==> exists k :: 0 <= k < j + 1 && Key(items[k]) == Some(key)
    {
      if key in c && Key(items[j]) == Some(key) {
        assert 0 <= j < j + 1 && Key(items[j]) == Some(key);
      }
    }
  }

  lemma LastStep(items: seq<Item>, children: map<string, nat>, j: nat)
    requires j < |items| && LastMet(items, children, j)
    ensures LastMet(items, Enter(children, Key(items[j]), j), j + 1)
  {
  }

  /** The items of `b` after the numbered lines `done` of its flattened content (numbered
      from `n`) have been looked up: a winning child whose key was met is renumbered from
      the last line it was met at; every other item is as it was. */
  ghost function Partial(b: Block, done: seq<string>, n: int, k: nat): Item
    requires k < |b.content|
  {
    var x := b.content[k];
    if Wins(b.content, k) && x.block.header.value.line in done then
      Child(Renumber(x.block, n + LastIndex(done, x.block.header.value.line)))
    else x
  }

  /** All items of `b` as `Partial` gives them. */
  ghost function PartialSeq(b: Block, done: seq<string>, n: int): (r: seq<Item>)
    ensures |r| == |b.content|
  {
    seq(|b.content|, k requires 0 <= k < |b.content| => Partial(b, done, n, k))
  }

  /** Before any line is looked up, nothing is renumbered. */
  lemma PartialNone(b: Block, n: int)
    ensures PartialSeq(b, [], n) == b.content
  {
  }

  lemma LastIndexSnoc(s: seq<string>, l: string, key: string)
    requires key in s + [l]
    ensures LastIndex(s + [l], key) == if key == l then |s| else LastIndex(s, key)
  {
    assert (s + [l])[..|s|] == s;
  }

  /** One more numbered line `l`: only the winning child with key `l` changes, to the
      renumbering from the new line. */
  lemma PartialStep(b: Block, done: seq<string>, l: string, n: int, k: nat)
    requires k < |b.content|
    ensures var x := b.content[k];
      Partial(b, done + [l], n, k) ==
        if Key(x) == Some(l) && Winner(b.content, k) then
          Child(Renumber(x.block, n + |done|))
        else Partial(b, done, n, k)
  {
    var x := b.content[k];
    if x.Child? && x.block.header.Some? && x.block.header.value.line in done + [l] {
      LastIndexSnoc(done, l, x.block.header.value.line);
      assert x.block.header.value.line != l ==> x.block.header.value.line in done;
    }
  }

  /** `RootReader(resolver).parse(lines)`: a new root reader gives the tree of `Reading.Parse`. */
  method ParseDeck(lines: seq<string>, res: Resolver, alerts: seq<string>, inc: Includes)
    returns (root: Reader, r: Result<seq<string>>)
    ensures root.Valid() && fresh(root.Repr)
    ensures var spec := Parse(lines, res, alerts, inc);
      && (r.Err? <==> spec.Err?)
      && (r.Ok? ==> spec.value == (root.Snapshot(), r.value))
  {
    root := new Reader(Root, Some(res));
    r := root.Parse(lines, alerts, inc);
  }
}
