/**
 * What the readers promise, proved on the values of `Reading`: a reader that is
 * ready (sound, printable, numbered as a reader numbers) stays ready through
 * every `read` call; the call's exit code is the one the source decides; the
 * line is added to the reader's lines exactly when it is not handed back. The
 * root reads every line of a deck, so its tree holds the deck line for line.
 */
module ReadingInvariants {
  import opened Wrappers
  import opened Strings
  import opened LineUtils
  import opened Kinds
  import opened Resolvers
  import opened Tree
  import opened Numbering
  import opened Reading

  // ------------------------------------------------------------ invariants

  /** A block with one more item. */
  function Snoc(b: Block, x: Item): Block
  {
    b.(content := b.content + [x])
  }

  /** Where a reader numbers a child appended to `b`: an include at 0, any other where
      `b`'s lines end, numbered within. */
  predicate Placed(b: Block, c: Block)
  {
    if c.kind.Include? then c.start == 0 else c.start == b.start + HeaderLen(b) + ItemsLen(b.content) && Spans(c)
  }

  lemma SnocLines(b: Block, x: Item)
    requires !b.kind.Include? && Printable(b) && ItemPrintable(x)
    ensures Printable(Snoc(b, x)) && Lines(Snoc(b, x)) == Lines(b) + ItemLines(x)
  {
    var c := Snoc(b, x).content;
    assert forall i :: 0 <= i < |c| ==> c[i] == if i < |b.content| then b.content[i] else x;
    assert ItemsPrintable(b.content);
    ItemsLinesSnoc(b.content, x);
  }

  lemma PrintableOfSnoc(b: Block, x: Item)
    requires !b.kind.Include? && Printable(Snoc(b, x))
    ensures Printable(b) && ItemPrintable(x)
  {
    var c := Snoc(b, x).content;
    assert c[|b.content|] == x;
    assert forall i :: 0 <= i < |b.content| ==> c[i] == b.content[i];
  }

  lemma SnocSpans(b: Block, x: Item)
    requires Spans(b) && (x.Child? ==> Placed(b, x.block))
    ensures Spans(Snoc(b, x))
  {
    var b' := Snoc(b, x);
    forall j | 0 <= j < |b'.content| && b'.content[j].Child?
      ensures ItemSpans(b', j, b'.content[j].block)
    {
      if j < |b.content| {
        assert b'.content[j] == b.content[j];
        assert b'.content[..j] == b.content[..j];
        assert ItemSpans(b, j, b.content[j].block);
        assert ItemStart(b', j) == ItemStart(b, j);
      } else {
        assert b'.content[..j] == b.content;
      }
    }
  }

  lemma SpansOfSnoc(b: Block, x: Item)
    requires Spans(Snoc(b, x))
    ensures Spans(b) && (x.Child? ==> Placed(b, x.block))
  {
    var b' := Snoc(b, x);
    forall j | 0 <= j < |b.content| && b.content[j].Child?
      ensures ItemSpans(b, j, b.content[j].block)
    {
      assert b'.content[j] == b.content[j];
      assert b'.content[..j] == b.content[..j];
      assert ItemSpans(b', j, b'.content[j].block);
      assert ItemStart(b', j) == ItemStart(b, j);
    }
    if x.Child? {
      var j := |b.content|;
      assert b'.content[j] == x;
      assert b'.content[..j] == b.content;
      assert ItemSpans(b', j, x.block);
    }
  }

  /** The readers of a parse: never an include (an include stops on its first line), a
      resolver building no inline include, content that prints, content only after the
      header, and an active child that reads and has its header. */
  predicate Sound(s: State)
    decreases s
  {
    && !s.kind.Include?
    && (s.resolver.Some? ==> NoInline(s.resolver.value))
    && ItemsShown(s.content)
    && (s.header.None? && s.reading ==> s.content == [] && s.active.None?)
    && (s.active.Some? ==> s.reading && s.active.value.header.Some? && Sound(s.active.value))
  }

  /** A sound reader whose block prints and is numbered as a reader numbers it. */
  predicate Ready(s: State)
  {
    Sound(s) && Printable(Close(s)) && Spans(Close(s))
  }

  lemma ItemsShownPrintable(items: seq<Item>)
    requires ItemsShown(items)
    ensures ItemsPrintable(items)
  {
    forall i | 0 <= i < |items| ensures ItemPrintable(items[i]) {
      ItemShownPrintable(items[i]);
    }
  }

  lemma ItemsShownSnoc(items: seq<Item>, x: Item)
    requires ItemsShown(items) && ItemShown(x)
    ensures ItemsShown(items + [x])
  {
    assert forall i :: 0 <= i < |items + [x]| ==> (items + [x])[i] == if i < |items| then items[i] else x;
  }

  /** What a sound reader stands for prints, and shows once it has a header. */
  lemma {:induction false} SoundShown(s: State)
    requires Sound(s)
    ensures ItemsShown(Close(s).content) && Printable(Close(s))
    ensures s.header.Some? ==> Shown(Close(s))
    decreases s
  {
    var b := Close(s);
    if s.active.Some? {
      var c := s.active.value;
      SoundShown(c);
      ItemsShownSnoc(s.content, Child(Close(c)));
    }
    ItemsShownPrintable(b.content);
  }

  /** `stopreading` keeps a reader sound; its block is what it stood for. */
  lemma StopSound(s: State)
    requires Sound(s)
    ensures Sound(Stop(s)) && Base(Stop(s)) == Close(s)
  {
    SoundShown(s);
  }

  /** Appending an item to a reader with no active child. */
  lemma AppendReady(t: State, x: Item, n: int)
    requires Sound(t) && t.active.None? && Printable(Base(t)) && Spans(Base(t))
    requires ItemShown(x) && (x.Child? ==> Placed(Base(t), x.block))
    requires t.reading ==> t.header.Some?
    ensures ItemPrintable(x)
    ensures var t' := t.(content := t.content + [x], nlines := n);
      && Close(t') == Snoc(Base(t), x) && Ready(t') && Shown(Close(t'))
      && Lines(Close(t')) == Lines(Base(t)) + ItemLines(x)
  {
    var t' := t.(content := t.content + [x], nlines := n);
    ItemShownPrintable(x);
    ItemsShownSnoc(t.content, x);
    assert Close(t') == Snoc(Base(t), x);
    SnocLines(Base(t), x);
    SnocSpans(Base(t), x);
    assert Sound(t');
    SoundShown(t');
  }

  /** Making a reader with a header, ready and reading, the active child. */
  lemma ActiveReady(t: State, c: State, n: int)
    requires Sound(t) && t.active.None? && Printable(Base(t)) && Spans(Base(t)) && t.reading && t.header.Some?
    requires Ready(c) && c.header.Some? && c.reading && Placed(Base(t), Close(c))
    ensures var t' := t.(active := Some(c), nlines := n);
      && Close(t') == Snoc(Base(t), Child(Close(c))) && Ready(t') && Shown(Close(t'))
      && Lines(Close(t')) == Lines(Base(t)) + Lines(Close(c))
  {
    var t' := t.(active := Some(c), nlines := n);
    assert Close(t') == Snoc(Base(t), Child(Close(c)));
    SoundShown(c);
    SnocLines(Base(t), Child(Close(c)));
    SnocSpans(Base(t), Child(Close(c)));
    assert Sound(t');
    SoundShown(t');
  }

  /** What a call promises of a ready reader, apart from its exit code: the new reader
      is ready and shows; its kind, start and (once set) header are kept; on `CONTINUE`
      it has a header and reads on; the line is appended to its lines unless it is
      rejected, and then they are unchanged; `_nlines` counts the lines taken; alerts are
      only added, once each. */
  predicate Steps(s: State, line: string, alerts: seq<string>, o: Out)
    requires Ready(s)
  {
    && Ready(o.state) && Shown(Close(o.state))
    && o.state.kind == s.kind && o.state.start == s.start
    && (s.header.Some? ==> o.state.header == s.header)
    && (o.exit == Continue ==> o.state.header.Some? && o.state.reading)
    && Lines(Close(o.state)) == Lines(Close(s)) + (if o.exit == Reject then [] else [line])
    && o.state.nlines == s.nlines + (if o.exit == Reject then 0 else 1)
    && alerts <= o.alerts && (Distinct(alerts) ==> Distinct(o.alerts))
  }

  /** Everything one `read` call promises: `Steps` on the line without its trailing
      newlines, and the exit code is `DONE` exactly on a greedy reader's end line and
      `REJECT` exactly when `doterminate` holds after the header. */
  predicate Advances(s: State, raw: string, sib: Option<Proto>, alerts: seq<string>, o: Out)
    requires Ready(s)
  {
    && Steps(s, RStripNL(raw), alerts, o)
    && o.exit == (if EndsOn(s, raw) then Done
                  else if s.header.Some? && DoTerminate(s.kind, s.resolver, RStripNL(raw), sib) then Reject
                  else Continue)
  }


  lemma {:induction false} StrippedLinesSplit(text: string)
    ensures StrippedLines(Split(text, '\n')) == Split(text, '\n')
  {
    var lines := Split(text, '\n');
    StrippedLinesNoNewline(lines);
  }

  lemma {:induction false} StrippedLinesNoNewline(lines: seq<string>)
    requires forall i :: 0 <= i < |lines| ==> '\n' !in lines[i]
    ensures StrippedLines(lines) == lines
    decreases |lines|
  {
    if lines != [] {
      RStripNLNoNewline(lines[0]);
      StrippedLinesNoNewline(lines[1..]);
    }
  }


  // ------------------------------------------------------- one step each

  /** A greedy reader that has its header stops on its end line, keeps it as content
      and answers `DONE`. Like the other unfoldings below it holds by the definition of
      `Read`; `ReadReady` states what the branches promise together. */
  lemma ReadEnd(s: State, raw: string, sib: Option<Proto>, anc: seq<string>, alerts: seq<string>, inc: Includes)
    requires EndsOn(s, raw)
    ensures Read(s, raw, sib, anc, alerts, inc)
      == Ok(Out(Stop(s).(content := Stop(s).content + [Text(raw)], nlines := s.nlines + 1), Done, alerts))
  {
  }

  /** An include without header reads its include line (by definition). */
  lemma ReadIncludeLine(s: State, raw: string, sib: Option<Proto>, anc: seq<string>, alerts: seq<string>, inc: Includes)
    requires s.kind.Include? && s.header.None?
    ensures Read(s, raw, sib, anc, alerts, inc) == ReadInclude(s, raw, alerts, inc)
  {
  }

  /** A greedy reader reads its header line as its header even when the line holds
      the reader's end phrase (`*Part, name=Blend Part`), and reads on. */
  lemma GreedyKeepsHeader(s: State, raw: string, sib: Option<Proto>, anc: seq<string>, alerts: seq<string>, inc: Includes)
    requires IsGreedy(s.kind) && s.reading && s.header.None?
    ensures var r := Read(s, raw, sib, anc, alerts, inc);
      && (r.Ok? <==> ParseHeader(RStripNL(raw)).Ok?)
      && (r.Ok? ==> r.value.exit == Continue && r.value.state.header == Some(ParseHeader(RStripNL(raw)).value))
  {
    ReadHeaderLine(s, raw, sib, anc, alerts, inc);
  }

  /** As written, the same reader stops on that line: it ends with no header, the line
      kept as its only content, and answers `DONE`. */
  lemma GreedyEndsOnOwnHeader(s: State, raw: string, sib: Option<Proto>, anc: seq<string>, alerts: seq<string>,
                              inc: Includes)
    requires IsGreedy(s.kind) && s.reading && s.header.None? && s.content == [] && s.active.None?
    requires EndsGreedy(s.kind, raw)
    ensures var w := GreedyReadAsWritten(s, raw, sib, anc, alerts, inc);
      && w.Ok? && w.value.exit == Done && w.value.state.header.None? && w.value.state.content == [Text(raw)]
      && !w.value.state.reading
    ensures var r := Read(s, raw, sib, anc, alerts, inc);
      r.Ok? ==> r.value.exit == Continue && r.value.state.header.Some? && r.value.state.reading
  {
    GreedyKeepsHeader(s, raw, sib, anc, alerts, inc);
    assert Close(s).content == [];
  }

  /** A part header that holds the part's end phrase. */
  lemma PartNameEnds()
    ensures EndsGreedy(Part, "*Part, name=Blend Part")
  {
    var part := "*Part, name=Blend Part";
    assert part[14..22] == "end Part";
    LowerWord(part, "end part", 14);
  }

  /** A step header that holds the step's end phrase. */
  lemma StepNameEnds()
    ensures EndsGreedy(Step, "*Step, name=Extend Step")
  {
    var step := "*Step, name=Extend Step";
    assert step[15..23] == "end Step";
    LowerWord(step, "end step", 15);
  }

  /** A reader that is not reading raises (by definition). */
  lemma ReadNotReading(s: State, raw: string, sib: Option<Proto>, anc: seq<string>, alerts: seq<string>, inc: Includes)
    requires !EndsOn(s, raw) && !s.kind.Include? && !s.reading
    ensures Read(s, raw, sib, anc, alerts, inc) == Err(NotReading)
  {
  }

  /** The first line a reader reads is its header (by definition). */
  lemma ReadHeaderLine(s: State, raw: string, sib: Option<Proto>, anc: seq<string>, alerts: seq<string>, inc: Includes)
    requires s.reading && s.header.None? && !s.kind.Include?
    ensures Read(s, raw, sib, anc, alerts, inc) ==
      match ParseHeader(RStripNL(raw))
      case Err(e) => Err(e)
      case Ok(h) => Ok(Out(s.(header := Some(h), nlines := s.nlines + 1), Continue, alerts))
  {
  }

  /** After the header, `read` is the body step (by definition). */
  lemma ReadAfterHeader(s: State, raw: string, sib: Option<Proto>, anc: seq<string>, alerts: seq<string>, inc: Includes)
    requires !EndsOn(s, raw) && s.reading && s.header.Some?
    ensures Read(s, raw, sib, anc, alerts, inc) == ReadBody(s, RStripNL(raw), sib, anc, alerts, inc)
  {
  }

  /** The body step when `doterminate` holds (by definition of `ReadBody`). */
  lemma BodyTerminates(s: State, line: string, sib: Option<Proto>, anc: seq<string>, alerts: seq<string>, inc: Includes)
    requires s.header.Some? && DoTerminate(s.kind, s.resolver, line, sib)
    ensures ReadBody(s, line, sib, anc, alerts, inc) == Ok(Out(Stop(s), Reject, Notify(s, line, sib, anc, alerts)))
  {
  }

  /** The body step that keeps a line as text (by definition of `ReadBody`). */
  lemma BodyText(s: State, line: string, sib: Option<Proto>, anc: seq<string>, alerts: seq<string>, inc: Includes)
    requires s.header.Some? && !DoTerminate(s.kind, s.resolver, line, sib) && s.active.None? && Candidate(s, line).None?
    ensures ReadBody(s, line, sib, anc, alerts, inc)
      == Ok(Out(s.(content := s.content + [Text(line)], nlines := s.nlines + 1), Continue, Notify(s, line, sib, anc, alerts)))
  {
  }

  /** The body step that starts a child (by definition of `ReadBody`). */
  lemma BodyStarts(s: State, line: string, sib: Option<Proto>, anc: seq<string>, alerts: seq<string>, inc: Includes)
    requires s.header.Some? && !DoTerminate(s.kind, s.resolver, line, sib) && s.active.None? && Candidate(s, line).Some?
    ensures ReadBody(s, line, sib, anc, alerts, inc)
      == Delegate(s.(active := Some(Fresh(Candidate(s, line).value, s))), line, sib, Candidate(s, line), anc,
                  Notify(s, line, sib, anc, alerts), inc)
  {
  }

  /** The body step that hands the line to the active child (by definition of `ReadBody`). */
  lemma BodyDelegates(s: State, line: string, sib: Option<Proto>, anc: seq<string>, alerts: seq<string>, inc: Includes)
    requires s.header.Some? && !DoTerminate(s.kind, s.resolver, line, sib) && s.active.Some?
    ensures ReadBody(s, line, sib, anc, alerts, inc)
      == Delegate(s, line, sib, Candidate(s, line), anc, Notify(s, line, sib, anc, alerts), inc)
  {
  }

  lemma DelegateErr(s: State, line: string, sib: Option<Proto>, cand: Option<Proto>, anc: seq<string>,
                    alerts: seq<string>, inc: Includes, rc: Result<Out>)
    requires s.active.Some? && s.header.Some?
    requires rc == Read(s.active.value, line, cand, anc + [Name(s.kind)], alerts, inc) && rc.Err?
    ensures Delegate(s, line, sib, cand, anc, alerts, inc) == Err(rc.error)
  {
  }

  lemma DelegateContinue(s: State, line: string, sib: Option<Proto>, cand: Option<Proto>, anc: seq<string>,
                         alerts: seq<string>, inc: Includes, rc: Result<Out>)
    requires s.active.Some? && s.header.Some?
    requires rc == Read(s.active.value, line, cand, anc + [Name(s.kind)], alerts, inc)
    requires rc.Ok? && rc.value.exit == Continue
    ensures Delegate(s, line, sib, cand, anc, alerts, inc)
      == Ok(Out(s.(active := Some(rc.value.state), nlines := s.nlines + 1), Continue, rc.value.alerts))
  {
  }

  lemma DelegateDone(s: State, line: string, sib: Option<Proto>, cand: Option<Proto>, anc: seq<string>,
                     alerts: seq<string>, inc: Includes, rc: Result<Out>)
    requires s.active.Some? && s.header.Some?
    requires rc == Read(s.active.value, line, cand, anc + [Name(s.kind)], alerts, inc)
    requires rc.Ok? && rc.value.exit == Done
    ensures Delegate(s, line, sib, cand, anc, alerts, inc)
      == Ok(Out(s.(content := s.content + [Child(Close(rc.value.state))], active := None, nlines := s.nlines + 1),
                Continue, rc.value.alerts))
  {
    var o := rc.value;
    assert Close(Stop(o.state)) == Close(o.state);
    var s2 := s.(content := s.content + [Child(Close(o.state))], active := None);
    assert s2.(nlines := s2.nlines + 1) == s.(content := s.content + [Child(Close(o.state))], active := None, nlines := s.nlines + 1);
  }

  /** The reader the redo reads with: the candidate child started, if there is one. */
  function Redo(s2: State, cand: Option<Proto>): State
  {
    if cand.Some? then s2.(active := Some(Fresh(cand.value, s2))) else s2
  }

  lemma DelegateReject(s: State, line: string, sib: Option<Proto>, cand: Option<Proto>, anc: seq<string>,
                       alerts: seq<string>, inc: Includes, rc: Result<Out>)
    requires s.active.Some? && s.header.Some?
    requires rc == Read(s.active.value, line, cand, anc + [Name(s.kind)], alerts, inc)
    requires rc.Ok? && rc.value.exit == Reject
    ensures Delegate(s, line, sib, cand, anc, alerts, inc)
      == Read(Redo(s.(content := s.content + [Child(Close(rc.value.state))], active := None), cand),
              line, sib, anc, rc.value.alerts, inc)
  {
    assert Close(Stop(rc.value.state)) == Close(rc.value.state);
  }

  /** Reading again after the active child handed the line back is reading it with the
      child stopped and appended. */
  lemma RedoIsReadBody(s2: State, line: string, sib: Option<Proto>, cand: Option<Proto>, anc: seq<string>,
                       alerts: seq<string>, inc: Includes)
    requires s2.header.Some? && s2.reading && s2.active.None? && !s2.kind.Include? && !EndsOn(s2, line)
    requires RStripNL(line) == line && cand == Candidate(s2, line) && !DoTerminate(s2.kind, s2.resolver, line, sib)
    ensures Read(Redo(s2, cand), line, sib, anc, alerts, inc) == ReadBody(s2, line, sib, anc, alerts, inc)
  {
    var s3 := Redo(s2, cand);
    ReadAfterHeader(s3, line, sib, anc, alerts, inc);
    if cand.Some? {
      assert Candidate(s3, line) == cand;
      assert Notify(s3, line, sib, anc, alerts) == Notify(s2, line, sib, anc, alerts);
      BodyDelegates(s3, line, sib, anc, alerts, inc);
      BodyStarts(s2, line, sib, anc, alerts, inc);
    }
  }

  lemma ReadAllStep(s: State, lines: seq<string>, alerts: seq<string>, inc: Includes, r0: Result<Out>)
    requires lines != [] && r0 == Read(s, lines[0], None, [], alerts, inc)
    ensures r0.Err? ==> ReadAll(s, lines, alerts, inc).Err?
    ensures r0.Ok? ==> ReadAll(s, lines, alerts, inc) == ReadAll(r0.value.state, lines[1..], r0.value.alerts, inc)
  {
  }

  // ------------------------------------------------------ what a read does

  /** A child just started under a reader with no active child reads one line: it never
      rejects it, and afterwards it is the block of that one line, placed where the
      reader's lines end (an include at 0). */
  lemma FreshRead(s: State, p: Proto, line: string, cand: Option<Proto>, anc: seq<string>,
                  alerts: seq<string>, inc: Includes, r: Result<Out>)
    requires Sound(s) && s.active.None? && ProtoNoInline(p) && RStripNL(line) == line
    requires r == Read(Fresh(p, s), line, cand, anc, alerts, inc)
    ensures r.Ok? ==>
      && r.value.exit != Reject && r.value.alerts == alerts
      && Shown(Close(r.value.state)) && Printable(Close(r.value.state))
      && Lines(Close(r.value.state)) == [line] && Placed(Base(s), Close(r.value.state))
      && (r.value.exit == Continue ==> Ready(r.value.state) && r.value.state.header.Some? && r.value.state.reading)
  {
    var f := Fresh(p, s);
    assert s.content[..|s.content|] == s.content;
    if p.kind.Include? {
      ReadIncludeLine(f, line, cand, anc, alerts, inc);
      assert p.kind == Include(false);
    } else {
      ReadHeaderLine(f, line, cand, anc, alerts, inc);
      if r.Ok? {
        HeadedFresh(s, p, ParseHeader(line).value);
      }
    }
  }

  /** A child started on its header line is ready and reads on. */
  lemma HeadedFresh(s: State, p: Proto, h: Header)
    requires Sound(s) && s.active.None? && ProtoNoInline(p) && !p.kind.Include?
    ensures var t := Fresh(p, s).(header := Some(h), nlines := Fresh(p, s).nlines + 1);
      && Ready(t) && Shown(Close(t)) && Printable(Close(t))
      && Lines(Close(t)) == [h.line] && Placed(Base(s), Close(t))
  {
    var t := Fresh(p, s).(header := Some(h), nlines := Fresh(p, s).nlines + 1);
    var b := Block(p.kind, Some(h), t.start, []);
    assert Close(t) == b;
    assert Shown(b);
    ShownPrintable(b);
    assert Spans(b);
    assert Sound(t);
    assert s.content[..|s.content|] == s.content;
  }

  /** A reader with no active child, after the child it started took the line. */
  lemma ChildTaken(s: State, line: string, alerts: seq<string>, c: Out)
    requires Ready(s) && s.active.None? && s.header.Some? && s.reading
    requires c.exit != Reject && c.alerts == alerts
    requires Shown(Close(c.state)) && Printable(Close(c.state)) && Lines(Close(c.state)) == [line]
    requires Placed(Base(s), Close(c.state))
    requires c.exit == Continue ==> Ready(c.state) && c.state.header.Some? && c.state.reading
    ensures c.exit == Continue ==>
      Steps(s, line, alerts, Out(s.(active := Some(c.state), nlines := s.nlines + 1), Continue, alerts))
    ensures c.exit == Done ==>
      Steps(s, line, alerts, Out(s.(content := s.content + [Child(Close(c.state))], nlines := s.nlines + 1), Continue, alerts))
  {
    assert Close(s) == Base(s);
    if c.exit == Continue {
      ActiveReady(s, c.state, s.nlines + 1);
    } else {
      AppendReady(s, Child(Close(c.state)), s.nlines + 1);
    }
  }

  /** The candidate child started by a reader with no active child takes the line. */
  lemma StartChild(s: State, p: Proto, line: string, sib: Option<Proto>, cand: Option<Proto>, anc: seq<string>,
                   alerts: seq<string>, inc: Includes, r: Result<Out>)
    requires Ready(s) && s.active.None? && s.header.Some? && s.reading
    requires ProtoNoInline(p) && RStripNL(line) == line
    requires r == Delegate(s.(active := Some(Fresh(p, s))), line, sib, cand, anc, alerts, inc)
    ensures r.Ok? ==> Steps(s, line, alerts, r.value) && r.value.exit == Continue
  {
    var f := Fresh(p, s);
    var anc' := anc + [Name(s.kind)];
    var rc := Read(f, line, cand, anc', alerts, inc);
    if rc.Err? {
      DelegateErr(s.(active := Some(f)), line, sib, cand, anc, alerts, inc, rc);
    } else {
      FreshRead(s, p, line, cand, anc', alerts, inc, rc);
      ChildTaken(s, line, alerts, rc.value);
      if rc.value.exit == Continue {
        StartedContinue(s, f, line, sib, cand, anc, alerts, inc, rc);
      } else {
        StartedDone(s, f, line, sib, cand, anc, alerts, inc, rc);
      }
    }
  }

  /** The child started by a reader with no active child reads on. */
  lemma StartedContinue(s: State, f: State, line: string, sib: Option<Proto>, cand: Option<Proto>, anc: seq<string>,
                        alerts: seq<string>, inc: Includes, rc: Result<Out>)
    requires s.header.Some?
    requires rc == Read(f, line, cand, anc + [Name(s.kind)], alerts, inc) && rc.Ok? && rc.value.exit == Continue
    ensures Delegate(s.(active := Some(f)), line, sib, cand, anc, alerts, inc)
      == Ok(Out(s.(active := Some(rc.value.state), nlines := s.nlines + 1), Continue, rc.value.alerts))
  {
    DelegateContinue(s.(active := Some(f)), line, sib, cand, anc, alerts, inc, rc);
    ReActivate(s, f, rc.value.state);
  }

  /** Replacing the active child twice is replacing it once. */
  lemma ReActivate(s: State, f: State, g: State)
    ensures s.(active := Some(f)).(active := Some(g), nlines := s.(active := Some(f)).nlines + 1)
      == s.(active := Some(g), nlines := s.nlines + 1)
  {
  }

  /** Closing a child just started leaves the reader as if the child were appended directly. */
  lemma ReClose(s: State, f: State, b: Block)
    requires s.active.None?
    ensures s.(active := Some(f)).(content := s.(active := Some(f)).content + [Child(b)], active := None,
                                   nlines := s.(active := Some(f)).nlines + 1)
      == s.(content := s.content + [Child(b)], nlines := s.nlines + 1)
  {
  }

  /** The child started by a reader with no active child is done at once. */
  lemma StartedDone(s: State, f: State, line: string, sib: Option<Proto>, cand: Option<Proto>, anc: seq<string>,
                    alerts: seq<string>, inc: Includes, rc: Result<Out>)
    requires s.header.Some? && s.active.None?
    requires rc == Read(f, line, cand, anc + [Name(s.kind)], alerts, inc) && rc.Ok? && rc.value.exit == Done
    ensures Delegate(s.(active := Some(f)), line, sib, cand, anc, alerts, inc)
      == Ok(Out(s.(content := s.content + [Child(Close(rc.value.state))], nlines := s.nlines + 1), Continue, rc.value.alerts))
  {
    DelegateDone(s.(active := Some(f)), line, sib, cand, anc, alerts, inc, rc);
    ReClose(s, f, Close(rc.value.state));
  }

  /** After the header, with no active child, a line not handed back is kept as text or
      taken by the child it starts. */
  lemma StartSteps(s: State, line: string, sib: Option<Proto>, anc: seq<string>, alerts: seq<string>,
                   inc: Includes, r: Result<Out>)
    requires Ready(s) && s.active.None? && s.header.Some? && s.reading
    requires RStripNL(line) == line && !DoTerminate(s.kind, s.resolver, line, sib)
    requires r == ReadBody(s, line, sib, anc, alerts, inc)
    ensures r.Ok? ==> Steps(s, line, alerts, r.value) && r.value.exit == Continue
  {
    var alerts1 := Notify(s, line, sib, anc, alerts);
    var cand := Candidate(s, line);
    if cand.None? {
      BodyText(s, line, sib, anc, alerts, inc);
      assert Close(s) == Base(s);
      AppendReady(s, Text(line), s.nlines + 1);
    } else {
      BodyStarts(s, line, sib, anc, alerts, inc);
      ResolveNoInline(s.resolver.value, line);
      StartChild(s, cand.value, line, sib, cand, anc, alerts1, inc, r);
    }
  }

  /** The active child of a ready reader is ready. */
  lemma ChildReady(s: State)
    requires Ready(s) && s.active.Some?
    ensures Ready(s.active.value)
  {
    var c := s.active.value;
    assert Close(s) == Snoc(Base(s), Child(Close(c)));
    PrintableOfSnoc(Base(s), Child(Close(c)));
    SpansOfSnoc(Base(s), Child(Close(c)));
  }

  /** A ready reader after its active child read a line as `Steps` says. */
  lemma ChildStepped(s: State, line: string, alerts: seq<string>, oc: Out)
    requires Ready(s) && s.active.Some? && s.header.Some?
    requires Ready(s.active.value) && Steps(s.active.value, line, alerts, oc)
    ensures oc.exit == Continue ==>
      Steps(s, line, alerts, Out(s.(active := Some(oc.state), nlines := s.nlines + 1), Continue, oc.alerts))
    ensures oc.exit == Done ==>
      Steps(s, line, alerts, Out(s.(content := s.content + [Child(Close(oc.state))], active := None, nlines := s.nlines + 1),
                                 Continue, oc.alerts))
    ensures oc.exit == Reject ==>
      var s2 := s.(content := s.content + [Child(Close(oc.state))], active := None);
      Ready(s2) && Lines(Close(s2)) == Lines(Close(s))
  {
    var c := s.active.value;
    var t := s.(active := None);
    var b := Base(s);
    assert Base(t) == b;
    assert Close(s) == Snoc(b, Child(Close(c)));
    PrintableOfSnoc(b, Child(Close(c)));
    SpansOfSnoc(b, Child(Close(c)));
    SnocLines(b, Child(Close(c)));
    assert Placed(b, Close(oc.state));
    if oc.exit == Continue {
      assert s.(active := Some(oc.state), nlines := s.nlines + 1) == t.(active := Some(oc.state), nlines := s.nlines + 1);
      ActiveReady(t, oc.state, s.nlines + 1);
    } else {
      AppendReady(t, Child(Close(oc.state)), if oc.exit == Done then s.nlines + 1 else s.nlines);
    }
  }

  /** What the redo promises of the reader it reads with, it promises of the reader
      whose child handed the line back. */
  lemma StepsRedo(s: State, s2: State, line: string, alerts: seq<string>, alerts2: seq<string>, o: Out)
    requires Ready(s) && Ready(s2) && Steps(s2, line, alerts2, o)
    requires s2.kind == s.kind && s2.start == s.start && s2.header == s.header && s2.nlines == s.nlines
    requires Lines(Close(s2)) == Lines(Close(s))
    requires alerts <= alerts2 && (Distinct(alerts) ==> Distinct(alerts2))
    ensures Steps(s, line, alerts, o)
  {
  }

  /** The redo: after the active child handed the line back, the reader reads it again. */
  lemma RedoSteps(s: State, line: string, sib: Option<Proto>, cand: Option<Proto>, anc: seq<string>,
                  alerts: seq<string>, inc: Includes, rc: Result<Out>, r: Result<Out>)
    requires Ready(s) && s.active.Some? && s.header.Some?
    requires RStripNL(line) == line && !EndsOn(s, line) && !DoTerminate(s.kind, s.resolver, line, sib)
    requires cand == Candidate(s, line)
    requires rc == Read(s.active.value, line, cand, anc + [Name(s.kind)], alerts, inc)
    requires rc.Ok? && rc.value.exit == Reject
    requires alerts <= rc.value.alerts && (Distinct(alerts) ==> Distinct(rc.value.alerts))
    requires Ready(s.(content := s.content + [Child(Close(rc.value.state))], active := None))
    requires Lines(Close(s.(content := s.content + [Child(Close(rc.value.state))], active := None))) == Lines(Close(s))
    requires r == Delegate(s, line, sib, cand, anc, alerts, inc)
    ensures r.Ok? ==> Steps(s, line, alerts, r.value) && r.value.exit == Continue
  {
    var oc := rc.value;
    var s2 := s.(content := s.content + [Child(Close(oc.state))], active := None);
    DelegateReject(s, line, sib, cand, anc, alerts, inc, rc);
    RedoIsReadBody(s2, line, sib, cand, anc, oc.alerts, inc);
    var r2 := ReadBody(s2, line, sib, anc, oc.alerts, inc);
    StartSteps(s2, line, sib, anc, oc.alerts, inc, r2);
    if r2.Ok? {
      StepsRedo(s, s2, line, alerts, oc.alerts, r2.value);
    }
  }

  /** A reader handing the line back is stopped and keeps its lines. */
  lemma StopReady(s: State, line: string, alerts: seq<string>, alerts1: seq<string>)
    requires Ready(s) && s.header.Some?
    requires alerts <= alerts1 && (Distinct(alerts) ==> Distinct(alerts1))
    ensures Steps(s, line, alerts, Out(Stop(s), Reject, alerts1))
  {
    StopSound(s);
    SoundShown(s);
  }

  /** A line handed to a ready reader's active child. */
  lemma {:induction false} DelegateSteps(s: State, line: string, sib: Option<Proto>, cand: Option<Proto>, anc: seq<string>,
                                         alerts: seq<string>, inc: Includes, r: Result<Out>)
    requires Ready(s) && s.active.Some? && s.header.Some?
    requires RStripNL(line) == line && !EndsOn(s, line) && !DoTerminate(s.kind, s.resolver, line, sib)
    requires cand == Candidate(s, line)
    requires r == Delegate(s, line, sib, cand, anc, alerts, inc)
    ensures r.Ok? ==> Steps(s, line, alerts, r.value) && r.value.exit == Continue
    decreases Weight(s), 0
  {
    var c := s.active.value;
    var anc' := anc + [Name(s.kind)];
    ChildReady(s);
    var rc := Read(c, line, cand, anc', alerts, inc);
    ReadSteps(c, line, cand, anc', alerts, inc, rc);
    if rc.Err? {
      DelegateErr(s, line, sib, cand, anc, alerts, inc, rc);
    } else {
      var oc := rc.value;
      ChildStepped(s, line, alerts, oc);
      if oc.exit == Continue {
        DelegateContinue(s, line, sib, cand, anc, alerts, inc, rc);
      } else if oc.exit == Done {
        DelegateDone(s, line, sib, cand, anc, alerts, inc, rc);
      } else {
        RedoSteps(s, line, sib, cand, anc, alerts, inc, rc, r);
      }
    }
  }

  /** The part of a read after the header. */
  lemma {:induction false} BodySteps(s: State, line: string, sib: Option<Proto>, anc: seq<string>,
                                     alerts: seq<string>, inc: Includes, r: Result<Out>)
    requires Ready(s) && s.header.Some? && s.reading
    requires RStripNL(line) == line && !EndsOn(s, line)
    requires r == ReadBody(s, line, sib, anc, alerts, inc)
    ensures r.Ok? ==> Steps(s, line, alerts, r.value)
                      && r.value.exit == if DoTerminate(s.kind, s.resolver, line, sib) then Reject else Continue
    decreases Weight(s), 1
  {
    var alerts1 := Notify(s, line, sib, anc, alerts);
    if DoTerminate(s.kind, s.resolver, line, sib) {
      BodyTerminates(s, line, sib, anc, alerts, inc);
      StopReady(s, line, alerts, alerts1);
    } else if s.active.None? {
      StartSteps(s, line, sib, anc, alerts, inc, r);
    } else {
      BodyDelegates(s, line, sib, anc, alerts, inc);
      DelegateSteps(s, line, sib, Candidate(s, line), anc, alerts1, inc, r);
    }
  }

  /** A header line read by a reader that has none. */
  lemma HeaderSteps(s: State, line: string, alerts: seq<string>, h: Header)
    requires Ready(s) && s.header.None? && s.reading && h.line == line
    ensures Steps(s, line, alerts, Out(s.(header := Some(h), nlines := s.nlines + 1), Continue, alerts))
  {
    var t := s.(header := Some(h), nlines := s.nlines + 1);
    assert Close(t) == Block(s.kind, Some(h), s.start, []);
    assert Close(s) == Block(s.kind, None, s.start, []);
    ShownPrintable(Close(t));
  }

  /** One read of a ready reader. */
  lemma {:induction false} ReadSteps(s: State, raw: string, sib: Option<Proto>, anc: seq<string>,
                                     alerts: seq<string>, inc: Includes, r: Result<Out>)
    requires Ready(s) && r == Read(s, raw, sib, anc, alerts, inc)
    ensures r.Ok? ==> Advances(s, raw, sib, alerts, r.value)
    decreases Weight(s), 2
  {
    var line := RStripNL(raw);
    RStripNLIdempotent(raw);
    if EndsOn(s, raw) {
      ReadEnd(s, raw, sib, anc, alerts, inc);
      StopSound(s);
      AppendReady(Stop(s), Text(raw), s.nlines + 1);
    } else if !s.reading {
      ReadNotReading(s, raw, sib, anc, alerts, inc);
    } else if s.header.None? {
      ReadHeaderLine(s, raw, sib, anc, alerts, inc);
      if r.Ok? {
        HeaderSteps(s, line, alerts, ParseHeader(line).value);
      }
    } else {
      if EndsGreedy(s.kind, line) {
        ContainsLowerStripped(raw, if s.kind.Assembly? then "end assembly" else if s.kind.Part? then "end part" else "end step");
      }
      ReadAfterHeader(s, raw, sib, anc, alerts, inc);
      BodySteps(s, line, sib, anc, alerts, inc, r);
    }
  }

  /** One `read` call on a ready reader does what `Advances` says. */
  lemma ReadReady(s: State, raw: string, sib: Option<Proto>, anc: seq<string>, alerts: seq<string>, inc: Includes)
    requires Ready(s)
    ensures Read(s, raw, sib, anc, alerts, inc).Ok? ==> Advances(s, raw, sib, alerts, Read(s, raw, sib, anc, alerts, inc).value)
  {
    ReadSteps(s, raw, sib, anc, alerts, inc, Read(s, raw, sib, anc, alerts, inc));
  }

  // ----------------------------------------------------------------- parse

  /** The root reads every line of the deck: it never hands a line back, so it reads to
      the end, and its lines are those of the deck, one for each. */
  lemma {:induction false} ReadAllSteps(s: State, lines: seq<string>, alerts: seq<string>, inc: Includes,
                                        r: Result<(State, seq<string>)>)
    requires Ready(s) && s.kind == Root && s.reading && r == ReadAll(s, lines, alerts, inc)
    ensures r.Ok? ==>
      && Ready(r.value.0) && r.value.0.kind == Root && r.value.0.reading && r.value.0.start == s.start
      && Lines(Close(r.value.0)) == Lines(Close(s)) + StrippedLines(lines)
      && (s.header.Some? ==> r.value.0.header == s.header)
      && (lines != [] ==> r.value.0.header.Some?)
      && r.value.0.nlines == s.nlines + |lines|
      && alerts <= r.value.1 && (Distinct(alerts) ==> Distinct(r.value.1))
    decreases |lines|
  {
    if lines == [] {
      assert r == Ok((s, alerts));
    } else {
      var r0 := Read(s, lines[0], None, [], alerts, inc);
      RootStep(s, lines[0], alerts, inc, r0);
      ReadAllStep(s, lines, alerts, inc, r0);
      if r0.Ok? {
        var o := r0.value;
        ReadAllSteps(o.state, lines[1..], o.alerts, inc, r);
        if r.Ok? {
          assert StrippedLines(lines) == [RStripNL(lines[0])] + StrippedLines(lines[1..]);
          AppendAssoc(Lines(Close(s)), [RStripNL(lines[0])], StrippedLines(lines[1..]));
        }
      }
    }
  }

  lemma AppendAssoc<T>(a: seq<T>, b: seq<T>, c: seq<T>)
    ensures (a + b) + c == a + (b + c)
  {
  }

  /** One line read by the root: it is taken, and the root reads on. */
  lemma RootStep(s: State, raw: string, alerts: seq<string>, inc: Includes, r0: Result<Out>)
    requires Ready(s) && s.kind == Root && s.reading && r0 == Read(s, raw, None, [], alerts, inc)
    ensures r0.Ok? ==>
      && Ready(r0.value.state) && r0.value.state.kind == Root && r0.value.state.reading
      && r0.value.state.start == s.start && r0.value.state.header.Some?
      && (s.header.Some? ==> r0.value.state.header == s.header)
      && Lines(Close(r0.value.state)) == Lines(Close(s)) + [RStripNL(raw)]
      && r0.value.state.nlines == s.nlines + 1
      && alerts <= r0.value.alerts && (Distinct(alerts) ==> Distinct(r0.value.alerts))
  {
    ReadSteps(s, raw, None, [], alerts, inc, r0);
  }

  /** `RootReader.parse`: the tree of a deck holds every line of it, in order and without
      trailing newlines, the first line as the root's header; the root starts at line 0
      and every child starts where the lines before it end; alerts are only added, once each. */
  lemma ParseSpec(lines: seq<string>, res: Resolver, alerts: seq<string>, inc: Includes)
    requires NoInline(res)
    ensures Parse(lines, res, alerts, inc).Ok? ==>
      var b := Parse(lines, res, alerts, inc).value.0;
      var a := Parse(lines, res, alerts, inc).value.1;
      && b.kind == Root && b.start == 0 && Printable(b) && Spans(b)
      && Lines(b) == StrippedLines(lines) && Len(b) == |lines|
      && (lines != [] ==> Shown(b) && b.header.Some? && b.header.value.line == RStripNL(lines[0]))
      && alerts <= a && (Distinct(alerts) ==> Distinct(a))
  {
    var t := RootState(res).(reading := true, start := 0, content := []);
    RootStart(res);
    var r := ReadAll(t, lines, alerts, inc);
    ReadAllSteps(t, lines, alerts, inc, r);
    ParseReadAll(lines, res, alerts, inc);
    if r.Ok? {
      var u := r.value.0;
      LinesLen(Close(u));
      if lines != [] {
        SoundShown(u);
        assert Lines(Close(u))[0] == Close(u).header.value.line;
      }
    }
  }

  /** The root reader just started is ready, at line 0 and empty. */
  lemma RootStart(res: Resolver)
    requires NoInline(res)
    ensures var t := RootState(res).(reading := true, start := 0, content := []);
      Ready(t) && Close(t) == Block(Root, None, 0, [])
  {
  }

  /** `parse` is the loop over the lines from the started root reader, closed at the end. */
  lemma ParseReadAll(lines: seq<string>, res: Resolver, alerts: seq<string>, inc: Includes)
    ensures var r := ReadAll(RootState(res).(reading := true, start := 0, content := []), lines, alerts, inc);
      && (Parse(lines, res, alerts, inc).Ok? <==> r.Ok?)
      && (r.Ok? ==> Parse(lines, res, alerts, inc).value == (Close(r.value.0), r.value.1))
  {
    var t := RootState(res).(reading := true, start := 0, content := []);
    assert StartReading(RootState(res), 0) == Ok(t);
    var r := ReadAll(t, lines, alerts, inc);
    if r.Ok? {
      assert Close(Stop(r.value.0)) == Close(r.value.0);
    }
  }

  /** `parse` on a string, then `repr` of the tree, gives the string back. */
  lemma ParseTextRepr(text: string, res: Resolver, alerts: seq<string>, inc: Includes)
    requires NoInline(res)
    ensures ParseText(text, res, alerts, inc).Ok? ==>
      Shown(ParseText(text, res, alerts, inc).value.0) && Printable(ParseText(text, res, alerts, inc).value.0)
      && Repr(ParseText(text, res, alerts, inc).value.0) == text
  {
    var lines := Split(text, '\n');
    ParseSpec(lines, res, alerts, inc);
    var r := Parse(lines, res, alerts, inc);
    if r.Ok? {
      var b := r.value.0;
      StrippedLinesSplit(text);
      ReprIsJoinedLines(b);
      SplitJoin(text, '\n');
    }
  }
}
