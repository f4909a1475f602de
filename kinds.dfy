/**
 * The reader classes of the deck parser as one datatype of kinds: each kind
 * carries the name, the behaviour flags and the `matchheader` test of its
 * reader class, and the `getid` short name built from a header.
 */
module Kinds {
  import opened Wrappers
  import opened Strings
  import opened LineUtils

  datatype Kind =
    | Root
    | Include(inline: bool)
    | Element
    | Node
    | Nset
    | Elset
    | Surface
    | Distribution
    | Material
    | Section
    | SolidSection
    | ShellSection
    | BeamSection
    | Parameter
    | Orientation
    | Assembly
    | Part
    | Step

  /** The `name` each reader class passes to its base constructor. */
  function Name(k: Kind): string
  {
    match k
    case Root => "Root"
    case Include(_) => "Include"
    case Element => "Element"
    case Node => "Node"
    case Nset => "Nset"
    case Elset => "Elset"
    case Surface => "Surface"
    case Distribution => "Distribution"
    case Material => "Material"
    case Section => "Section"
    case SolidSection => "Solid Section"
    case ShellSection => "Shell Section"
    case BeamSection => "Beam Section"
    case Parameter => "Parameter"
    case Orientation => "Orientation"
    case Assembly => "Assembly"
    case Part => "Part"
    case Step => "Step"
  }

  predicate IsSectionChild(k: Kind)
  {
    k.SolidSection? || k.ShellSection? || k.BeamSection?
  }

  /** Part, Assembly and Step read until their own end line and never terminate early. */
  predicate IsGreedy(k: Kind)
  {
    k.Assembly? || k.Part? || k.Step?
  }

  /** `acceptchildren`: only the section children refuse child readers. */
  predicate AcceptChildren(k: Kind)
  {
    !IsSectionChild(k)
  }

  /** `acceptunimplementedchildren`: whether an unknown `*` block is kept as text. */
  predicate AcceptUnimplemented(k: Kind)
  {
    match k
    case Element | Node | Nset | Elset | Surface | Distribution | Section | Parameter | Orientation => false
    case _ => true
  }

  /** `takesiblingpreference`: false only for an include. */
  predicate TakesSiblingPreference(k: Kind)
  {
    !k.Include?
  }

  /** `preferchildoversibling` is never changed from its initial value. */
  const PreferChildOverSibling: bool := true

  /** The characters `lstrip("* ")` and `strip("* ")` remove. */
  const StarSpace: set<char> := {'*', ' '}

  /** `iscomment`: the line starts with "**" after leading whitespace. */
  predicate IsComment(line: string)
  {
    StartsWith(LStripWs(line), "**")
  }

  /** `isfunctionalblock`: the line starts with "*" after leading whitespace. */
  predicate IsFunctionalBlock(line: string)
  {
    StartsWith(LStripWs(line), "*")
  }

  /** The `line.lstrip(); line.startswith("*") and line[1:].startswith(word)` test. */
  predicate StarThen(line: string, word: string)
  {
    var l := LStripWs(line);
    StartsWith(l, "*") && StartsWith(l[1..], word)
  }

  /** Each reader class's `matchheader`; the root reader inherits the base `False`. */
  predicate MatchHeader(k: Kind, line: string)
  {
    match k
    case Root => false
    case Include(_) => !IsComment(line) && StartsWith(Lower(LStrip(line, StarSpace)), "include")
    case Element => !IsComment(line) && StartsWith(Strip(line, StarSpace), "Element,")
    case Node =>
      var namepart := Split(line, ',')[0];
      !IsComment(namepart) && EndsWith(RStrip(namepart, {' ', '\n'}), "Node")
    case Nset => !IsComment(line) && StartsWith(Strip(line, StarSpace), "Nset,")
    case Elset => !IsComment(line) && StartsWith(Strip(line, StarSpace), "Elset,")
    case Surface => StarThen(line, "Surface,")
    case Distribution => !IsComment(line) && StartsWith(Strip(line, StarSpace), "Distribution,")
    case Material => StarThen(line, "Material,")
    case Section => StartsWith(LStrip(line, StarSpace), "Section:")
    case SolidSection => !IsComment(line) && StartsWith(LStrip(line, StarSpace), Name(k) + ",")
    case ShellSection => !IsComment(line) && StartsWith(LStrip(line, StarSpace), Name(k) + ",")
    case BeamSection => !IsComment(line) && StartsWith(LStrip(line, StarSpace), Name(k) + ",")
    case Parameter => StarThen(line, "parameter")
    case Orientation => !IsComment(line) && StartsWith(Strip(line, StarSpace), "Orientation")
    case Assembly => !IsComment(line) && StartsWith(LStrip(line, StarSpace), "Assembly")
    case Part => !IsComment(line) && StartsWith(LStrip(line, StarSpace), "Part")
    case Step => !IsComment(line) && StartsWith(LStrip(line, StarSpace), "Step")
  }

  /** A comment line is never a header, except for the section reader, which has no
      comment test and so takes the generated "** Section: ..." comments. */
  lemma CommentIsNoHeader(k: Kind, line: string)
    requires IsComment(line) && !k.Section?
    ensures !MatchHeader(k, line)
  {
    match k
    case Node =>
      var namepart := Split(line, ',')[0];
      CommentPrefix(line, namepart);
    case Surface => StarThenComment(line, "Surface,");
    case Material => StarThenComment(line, "Material,");
    case Parameter => StarThenComment(line, "parameter");
    case _ =>
  }

  lemma StarThenComment(line: string, word: string)
    requires IsComment(line) && |word| > 0 && word[0] != '*'
    ensures !StarThen(line, word)
  {
    var l := LStripWs(line);
    assert l[1] == '*';
    assert |l[1..]| > 0 && l[1..][0] == '*';
  }

  /** The text before the first comma of a comment line is still a comment. */
  lemma CommentPrefix(line: string, namepart: string)
    requires IsComment(line) && namepart == Split(line, ',')[0]
    ensures IsComment(namepart)
  {
    SplitHead(line, ',');
    if ',' in line {
      CommentCut(line, IndexOf(line, ','));
    }
  }

  /** A comment line cut before a comma is still a comment. */
  lemma CommentCut(line: string, c: nat)
    requires IsComment(line) && c < |line| && line[c] == ',' && ',' !in line[..c]
    ensures IsComment(line[..c])
  {
    var lead := CommentLead(line);
    assert c >= lead by { assert !IsSpace(line[c]); }
    var p := line[..c];
    assert forall i :: 0 <= i < lead ==> IsSpace(p[i]);
    CommentOfLead(p, lead);
  }

  /** A comment line is whitespace, then "**". */
  lemma CommentLead(line: string) returns (lead: nat)
    requires IsComment(line)
    ensures lead + 1 < |line| && line[lead] == '*' && line[lead + 1] == '*'
    ensures forall i :: 0 <= i < lead ==> IsSpace(line[i])
  {
    var l := LStripWs(line);
    LStripWsSlice(line);
    lead := |line| - |l|;
    assert l[0] == '*' && l[1] == '*';
    assert l[0] == line[lead] && l[1] == line[lead + 1];
  }

  /** Whitespace, then "**", is a comment line. */
  lemma CommentOfLead(p: string, lead: nat)
    requires lead + 1 < |p| && p[lead] == '*' && p[lead + 1] == '*'
    requires forall i :: 0 <= i < lead ==> IsSpace(p[i])
    ensures IsComment(p)
  {
    LStripWsSkip(p, lead);
    assert p[lead..][..2] == "**";
  }

  /** The section reader takes the "** Section: ..." comment lines Abaqus writes. */
  lemma SectionTakesComment(t: string)
    requires StartsWith(t, "Section:")
    ensures IsComment("** " + t) && MatchHeader(Section, "** " + t)
  {
    var l := "** " + t;
    assert !IsSpace(l[0]);
    LStripWsSkip(l, 0);
    assert l[..2] == "**";
    assert t[0] == 'S';
    assert l[3..] == t;
    LStripSkip(l, StarSpace, 3);
  }

  // ---------------------------------------------------------------- getid

  /** `name + ":" + value` with Python's `str + x`, which needs `x` to be a string. */
  function Tagged(name: string, v: Value): Result<string>
  {
    if v.Str? then Ok(name + ":" + v.s) else Err(TypeError("can only concatenate str to str"))
  }

  /** The section id as written: `id[:id.find(" ")]`, where a missing space gives
      `id[:-1]` and so drops the last character. */
  function SectionIdAsWritten(name: string): string
  {
    var id := LStripWs(PySuffix(name, 8));
    PyPrefix(id, Find(id, ' '))
  }

  /** The section id as intended: the text after "Section:" up to the first space. */
  function SectionId(name: string): (id: string)
    ensures ' ' !in id
    ensures StartsWith(LStripWs(PySuffix(name, 8)), id)
  {
    var rest := LStripWs(PySuffix(name, 8));
    var i := Find(rest, ' ');
    if i < 0 then rest else rest[..i]
  }

  /** Where the id has a space the two agree; without one, the written code loses a character. */
  lemma SectionIdDiscrepancy(name: string)
    ensures var rest := LStripWs(PySuffix(name, 8));
      && (' ' in rest ==> SectionIdAsWritten(name) == SectionId(name))
      && (' ' !in rest && |rest| > 0 ==>
            SectionIdAsWritten(name) == rest[..|rest| - 1] && SectionId(name) == rest)
  {
    var rest := LStripWs(PySuffix(name, 8));
    var i := Find(rest, ' ');
    if ' ' in rest {
      assert 0 <= i < |rest|;
      assert PyPrefix(rest, i) == rest[..i];
    } else {
      assert i == -1;
      assert PyIndex(i, |rest|) == if |rest| > 0 then |rest| - 1 else 0;
    }
  }

  /** An id without spaces loses its last character: "Section: Section-11-F1" gets
      the id "Section-11-F". */
  lemma SectionIdWithoutSpace(id: string)
    requires ' ' !in id && |id| > 0 && !IsSpace(id[0])
    ensures SectionIdAsWritten("Section: " + id) == id[..|id| - 1]
    ensures SectionId("Section: " + id) == id
  {
    var name := "Section: " + id;
    var suffix := " " + id;
    assert name[8..] == suffix;
    assert IsSpace(suffix[0]);
    LStripWsSkip(suffix, 1);
    assert suffix[1..] == id;
  }

  /** `getid` of a reader of kind `k` with the given header (the intended section id). */
  function GetId(k: Kind, header: Option<Header>): (r: Result<string>)
    ensures header.None? ==> r == Ok(Name(k))
    ensures r.Err? ==> k.Element? || k.Nset? || k.Elset? || IsGreedy(k)
  {
    match header
    case None => Ok(Name(k))
    case Some(h) =>
      if k.Element? || k.Nset? || k.Elset? then
        var key := if k.Element? then "type" else if k.Nset? then "nset" else "elset";
        match Lookup(h.props, key)
        case None => Err(KeyError(key))
        case Some(v) => Tagged(Name(k), v)
      else if IsGreedy(k) then
        match Lookup(h.props, "name")
        case None => Ok(Name(k))
        case Some(v) => Tagged(Name(k), v)
      else if k.Section? then Ok(SectionId(h.name))
      else Ok(Name(k))
  }

  /** The id of an element, node-set or element-set block names its key attribute,
      which must be present and be text; a missing one raises `KeyError`. */
  lemma GetIdKeyed(k: Kind, h: Header, key: string)
    requires k.Element? || k.Nset? || k.Elset?
    requires key == (if k.Element? then "type" else if k.Nset? then "nset" else "elset")
    ensures Lookup(h.props, key).None? <==> GetId(k, Some(h)) == Err(KeyError(key))
    ensures Lookup(h.props, key).Some? && Lookup(h.props, key).value.Str? ==>
      GetId(k, Some(h)) == Ok(Name(k) + ":" + Lookup(h.props, key).value.s)
  {
  }
}
