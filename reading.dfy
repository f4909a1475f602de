/**
 * What one `read` call does to a reader, stated on values: a reader while it
 * reads is its block so far plus its active child reader, itself a reader
 * state. `Read` follows `BlockReaderBase.read` and the overrides of the greedy
 * readers (Part, Assembly, Step) and of the include reader, including the
 * redo after a child rejects a line. The class `Readers.Reader` is proved to
 * behave exactly like these functions.
 */
module Reading {
  import opened Wrappers
  import opened Strings
  import opened LineUtils
  import opened Kinds
  import opened Resolvers
  import opened Tree
  import opened Numbering

  /** `ReaderExitCode`. */
  datatype Exit = Continue | Done | Reject

  /** The files an include can name, already parsed: from the `input` path to the content. */
  type Includes = string -> seq<Item>

  /** A reader: its kind, its child resolver, its header, start line and content so far,
      its line counter `_nlines`, whether it is reading, and the active child reader. */
  datatype State = State(kind: Kind, resolver: Option<Resolver>, header: Option<Header>, start: int,
                         content: seq<Item>, nlines: int, reading: bool, active: Option<State>)

  /** What a call returns: the new reader, the exit code and the missing-reader alerts. */
  datatype Out = Out(state: State, exit: Exit, alerts: seq<string>)

  /** The block of a reader without its active child. */
  function Base(s: State): Block
  {
    Block(s.kind, s.header, s.start, s.content)
  }

  /** The block a reader stands for: its content, then its active child, itself closed. */
  function Close(s: State): Block
    decreases s
  {
    match s.active
    case None => Base(s)
    case Some(c) => Block(s.kind, s.header, s.start, s.content + [Child(Close(c))])
  }

  /** `stopreading`: the active child, stopped in turn, is appended; the block is unchanged. */
  function Stop(s: State): (r: State)
    ensures Close(r) == Close(s) && !r.reading && r.active.None?
    ensures r.kind == s.kind && r.header == s.header && r.start == s.start && r.nlines == s.nlines
  {
    s.(content := Close(s).content, reading := false, active := None)
  }

  /** Every reader of the active chain is reading. */
  predicate Linked(s: State)
    decreases s
  {
    s.active.Some? ==> s.reading && Linked(s.active.value)
  }

  /** `len(reader)`: header, text lines and children, plus the active child while reading;
      a non-inline include is one line. */
  function LenNow(s: State): nat
    decreases s
  {
    if s.kind == Include(false) then 1
    else HeaderLen(Base(s)) + ItemsLen(s.content) + (if s.reading && s.active.Some? then LenNow(s.active.value) else 0)
  }

  /** While every active reader is reading, a reader's length is that of the block it stands for. */
  lemma {:induction false} LenNowIsLen(s: State)
    requires Linked(s)
    ensures LenNow(s) == Len(Close(s))
    decreases s
  {
    if s.active.Some? && s.kind != Include(false) {
      var c := s.active.value;
      LenNowIsLen(c);
      ItemsLenSnoc(s.content, Child(Close(c)));
    }
  }

  /** The copy of a prototype that `_activatechildreader` starts: it reads from the parent's
      end line, and an include without its own resolver uses its parent's
      (`getchildreaderresolver`). */
  function Fresh(p: Proto, parent: State): (r: State)
    ensures r.kind == p.kind && r.header.None? && r.content == [] && r.reading && r.active.None?
  {
    var res := if p.kind.Include? && p.resolver.None? then parent.resolver else p.resolver;
    State(p.kind, res, None, parent.start + LenNow(parent), [], 0, true, None)
  }

  /** The end line a greedy reader stops at, anywhere in the line and in any case. */
  predicate EndsGreedy(k: Kind, line: string)
  {
    match k
    case Assembly => Contains(Lower(line), "end assembly")
    case Part => Contains(Lower(line), "end part")
    case Step => Contains(Lower(line), "end step")
    case _ => false
  }

  /** The end line a greedy reader stops at, once it holds its header. As written,
      `BlockReaderPart.read` and the other greedy overrides test the line before the
      header is parsed, so a reader whose own header holds its end phrase stops on that
      header line (`GreedyReadAsWritten`); the model tests it from the second line on. */
  predicate EndsOn(s: State, raw: string)
  {
    s.header.Some? && EndsGreedy(s.kind, raw)
  }

  /** The greedy reader's answer to its end line: stopped, the line kept as content. */
  function EndRead(s: State, raw: string, alerts: seq<string>): Out
  {
    var t := Stop(s);
    Out(t.(content := t.content + [Text(raw)], nlines := t.nlines + 1), Done, alerts)
  }

  /** `read` of a greedy reader as written: the end phrase is looked for before anything
      else, also on the line that should become the header. */
  function GreedyReadAsWritten(s: State, raw: string, sib: Option<Proto>, anc: seq<string>, alerts: seq<string>,
                               inc: Includes): (r: Result<Out>)
    ensures EndsGreedy(s.kind, raw) ==> r == Ok(EndRead(s, raw, alerts))
    ensures !EndsGreedy(s.kind, raw) ==> r == Read(s, raw, sib, anc, alerts, inc)
  {
    if EndsGreedy(s.kind, raw) then Ok(EndRead(s, raw, alerts)) else Read(s, raw, sib, anc, alerts, inc)
  }

  /** `doterminate`: whether the reader hands the line back. A greedy reader never does. */
  predicate DoTerminate(k: Kind, res: Option<Resolver>, line: string, sib: Option<Proto>)
  {
    if IsGreedy(k) then false
    else
      var hasChild := ChildReader(k, res, line).Some?;
      match sib
      case Some(p) =>
        !(IsFunctionalBlock(line) && hasChild && (PreferChildOverSibling || !TakesSiblingPreference(p.kind)))
      case None =>
        if hasChild || IsComment(line) then false
        else IsFunctionalBlock(line) && !AcceptUnimplemented(k)
  }

  /** The decision of `doterminate`, case by case. With a sibling candidate the reader
      keeps the line only for a child it can resolve itself; as `preferchildoversibling`
      is never changed, the sibling's `takesiblingpreference` never matters. Without one
      it hands back only a `*` line that is no comment, that no child reader takes, and
      that the reader may not keep as text. The root never hands a line back. */
  lemma DoTerminateCases(k: Kind, res: Option<Resolver>, line: string, sib: Option<Proto>)
    ensures IsGreedy(k) ==> !DoTerminate(k, res, line, sib)
    ensures !IsGreedy(k) && sib.Some? ==>
      (DoTerminate(k, res, line, sib) <==> !(IsFunctionalBlock(line) && ChildReader(k, res, line).Some?))
    ensures !IsGreedy(k) && sib.None? ==>
      (DoTerminate(k, res, line, sib) <==>
        IsFunctionalBlock(line) && !IsComment(line) && ChildReader(k, res, line).None? && !AcceptUnimplemented(k))
    ensures k == Root && sib.None? ==> !DoTerminate(k, res, line, sib)
    ensures !AcceptChildren(k) && !IsGreedy(k) && sib.Some? ==> DoTerminate(k, res, line, sib)
  {
  }

  /** The key of a missing-reader alert: the names from the root down, the reader's own
      name and the block's keyword (the text before the first comma), lower-cased. */
  function AlertKey(anc: seq<string>, k: Kind, line: string): string
  {
    var rn := LStrip(line, StarSpace);
    var readername := Split(rn, ',')[0];
    Lower(Join(anc + [Name(k), readername], " > "))
  }

  /** Whether `doterminate` reports a missing reader: a `*` line nobody reads. */
  predicate Unread(k: Kind, res: Option<Resolver>, line: string, sib: Option<Proto>)
  {
    !IsGreedy(k) && sib.None? && ChildReader(k, res, line).None? && !IsComment(line) && IsFunctionalBlock(line)
  }

  /** `__notifymissingreader`: a key is added once. */
  function Notify(s: State, line: string, sib: Option<Proto>, anc: seq<string>, alerts: seq<string>): (r: seq<string>)
    ensures Unread(s.kind, s.resolver, line, sib) ==> AlertKey(anc, s.kind, line) in r
    ensures !Unread(s.kind, s.resolver, line, sib) ==> r == alerts
    ensures r == alerts || r == alerts + [AlertKey(anc, s.kind, line)]
    ensures AlertKey(anc, s.kind, line) in alerts ==> r == alerts
    ensures Distinct(alerts) ==> Distinct(r)
  {
    var key := AlertKey(anc, s.kind, line);
    if Unread(s.kind, s.resolver, line, sib) && key !in alerts then alerts + [key] else alerts
  }

  /** The child reader a line calls for: only `*` lines are looked up. */
  function Candidate(s: State, line: string): Option<Proto>
  {
    if IsFunctionalBlock(line) then ChildReader(s.kind, s.resolver, line) else None
  }

  /** A reader's size for the redo recursion: the length of the active chain, plus one
      for a header at its end. */
  function Weight(s: State): nat
    decreases s
  {
    match s.active
    case None => if s.header.Some? then 1 else 0
    case Some(c) => 1 + Weight(c)
  }

  /** The header of an include line and the file its `input` property names (a missing
      one raises `KeyError`, a non-text one `TypeError`). */
  function IncludeTarget(raw: string): (r: Result<(Header, string)>)
  {
    match ParseHeader(raw)
    case Err(e) => Err(e)
    case Ok(h) =>
      match Lookup(h.props, "input")
      case None => Err(KeyError("input"))
      case Some(v) => if v.Str? then Ok((h, v.s)) else Err(TypeError("path must be text"))
  }

  /** `IncludeReader.read` on its include line: the header is parsed, and the parse of the
      file it names restarts the line count at 0 and ends the reading. */
  function ReadInclude(s: State, raw: string, alerts: seq<string>, inc: Includes): (r: Result<Out>)
  {
    match IncludeTarget(raw)
    case Err(e) => Err(e)
    case Ok((h, path)) =>
      if |s.content| > 0 then Err(PreexistingContent)
      else Ok(Out(State(s.kind, s.resolver, Some(h), 0, inc(path), s.nlines, false, None), Done, alerts))
  }

  /** `read(line, sibling)` of a reader whose ancestors have the names `anc`. */
  function Read(s: State, raw: string, sib: Option<Proto>, anc: seq<string>, alerts: seq<string>, inc: Includes): (r: Result<Out>)
    ensures r.Ok? && r.value.exit == Reject ==> s.header.Some?
    decreases Weight(s), 2
  {
    if EndsOn(s, raw) then Ok(EndRead(s, raw, alerts))
    else if s.kind.Include? && s.header.None? then ReadInclude(s, raw, alerts, inc)
    else if !s.reading then Err(NotReading)
    else
      var line := RStripNL(raw);
      if s.header.None? then
        match ParseHeader(line)
        case Err(e) => Err(e)
        case Ok(h) => Ok(Out(s.(header := Some(h), nlines := s.nlines + 1), Continue, alerts))
      else ReadBody(s, line, sib, anc, alerts, inc)
  }

  /** The part of `read` after the header: terminate, or keep the line as text, or start
      the candidate child when none is active and hand the line to the active child. */
  function ReadBody(s: State, line: string, sib: Option<Proto>, anc: seq<string>, alerts: seq<string>, inc: Includes): (r: Result<Out>)
    requires s.header.Some?
    decreases Weight(s), 1
  {
    var alerts1 := Notify(s, line, sib, anc, alerts);
    if DoTerminate(s.kind, s.resolver, line, sib) then Ok(Out(Stop(s), Reject, alerts1))
    else
      var cand := Candidate(s, line);
      if s.active.None? && cand.None? then Ok(Out(s.(content := s.content + [Text(line)], nlines := s.nlines + 1), Continue, alerts1))
      else
        var s1 := if s.active.None? then s.(active := Some(Fresh(cand.value, s))) else s;
        assert Weight(s1) <= Weight(s);
        Delegate(s1, line, sib, cand, anc, alerts1, inc)
  }

  /** The line handed to the active child: on `DONE` the child is stopped and appended
      (`_stopactivechildreader`); on `REJECT` it is too, the candidate child is started and
      the line is read again. */
  function Delegate(s: State, line: string, sib: Option<Proto>, cand: Option<Proto>, anc: seq<string>,
                    alerts: seq<string>, inc: Includes): (r: Result<Out>)
    requires s.header.Some? && s.active.Some?
    decreases Weight(s), 0
  {
    match Read(s.active.value, line, cand, anc + [Name(s.kind)], alerts, inc)
    case Err(e) => Err(e)
    case Ok(o) =>
      if o.exit == Continue then Ok(Out(s.(active := Some(o.state), nlines := s.nlines + 1), Continue, o.alerts))
      else
        var s2 := s.(content := s.content + [Child(Close(Stop(o.state)))], active := None);
        if o.exit == Done then Ok(Out(s2.(nlines := s2.nlines + 1), Continue, o.alerts))
        else
          var s3 := if cand.Some? then s2.(active := Some(Fresh(cand.value, s2))) else s2;
          assert Weight(s3) == 1 < Weight(s);
          Read(s3, line, sib, anc, o.alerts, inc)
  }

  /** `startreading(n)`: refused when the reader already has content. */
  function StartReading(s: State, n: int): (r: Result<State>)
    ensures r.Err? <==> |s.content| > 0
    ensures r.Ok? ==> r.value == s.(reading := true, start := n, content := [])
  {
    if |s.content| > 0 then Err(PreexistingContent) else Ok(s.(reading := true, start := n, content := []))
  }

  /** The loop of `RootReader.parse`: every line read with no sibling, exit codes ignored. */
  function ReadAll(s: State, lines: seq<string>, alerts: seq<string>, inc: Includes): Result<(State, seq<string>)>
    decreases |lines|
  {
    if lines == [] then Ok((s, alerts))
    else
      match Read(s, lines[0], None, [], alerts, inc)
      case Err(e) => Err(e)
      case Ok(o) => ReadAll(o.state, lines[1..], o.alerts, inc)
  }

  /** A root reader as built: no header, no content, nothing read. */
  function RootState(res: Resolver): State
  {
    State(Root, Some(res), None, -1, [], 0, false, None)
  }

  /** `RootReader.parse` on a reader: start at line 0, read every line, stop. */
  function ParseState(s: State, lines: seq<string>, alerts: seq<string>, inc: Includes): Result<(State, seq<string>)>
  {
    match StartReading(s, 0)
    case Err(e) => Err(e)
    case Ok(t) =>
      match ReadAll(t, lines, alerts, inc)
      case Err(e) => Err(e)
      case Ok((u, a)) => Ok((Stop(u), a))
  }

  /** Parsing the lines of a deck with a new root reader and the given resolver. */
  function Parse(lines: seq<string>, res: Resolver, alerts: seq<string>, inc: Includes): Result<(Block, seq<string>)>
  {
    match ParseState(RootState(res), lines, alerts, inc)
    case Err(e) => Err(e)
    case Ok((u, a)) => Ok((Close(u), a))
  }

  /** `parse(text)` on a string: its lines are the pieces between newlines. */
  function ParseText(text: string, res: Resolver, alerts: seq<string>, inc: Includes): Result<(Block, seq<string>)>
  {
    Parse(Split(text, '\n'), res, alerts, inc)
  }

  /** The lines of a deck as a reader keeps them: without trailing newlines. */
  function StrippedLines(lines: seq<string>): (r: seq<string>)
    ensures |r| == |lines|
  {
    if lines == [] then [] else [RStripNL(lines[0])] + StrippedLines(lines[1..])
  }
}
