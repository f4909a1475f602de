# A verified model of the dotinp keyword-deck parser

This project models the core of `parser.py` in Dafny. `parser.py` reads Abaqus-style
input decks: line-oriented files of nested `*Keyword, key=value, flag` blocks. A block
ends when a later keyword line is claimed by another reader, or at an explicit
`*End Part` / `*End Assembly` / `*End Step` line. The parser builds a tree of readers
and offers a small path-query language over that tree.

Modules, leaves first:

- `Wrappers` holds `Option`, `Result` and the Python exceptions the parser raises, as values.
- `Strings` holds the Python `str` operations the parser relies on (`split`, `strip`,
  `lstrip`, `startswith`, `in`, `lower`, slicing with negative indices).
- `LineUtils` covers `infernumber`, `parseheader` and the header value
  (`ParameterizedLine`) with its ordered attribute map, plus the two query matchers
  `matchdict2str` and `matchcontent`.
- `Kinds` has one constructor per reader class. Each kind carries the class's behaviour
  flags (`acceptchildren`, `acceptunimplementedchildren`, `takesiblingpreference`), its
  `matchheader` test and its `getid`.
- `Resolvers` covers `findreader`, `__FUSE_RESOLVERS`, `__DEFAULT_RESOLVER_BUILDER`, the
  scope table of the concrete readers and `_resolvechildreader`. A prototype is a kind
  plus the resolver its copies use, and building a fresh reader from it stands for
  `deepcopy`.
- `Tree` covers finished blocks (`INode`) as values. It has `getchildren`, `flatten`,
  `getroot`, `upstreamhierarchy`, `__len__`, `__repr__`, and the include reader's two
  modes. A node's parent link is its position: a path of content indices from the root.
- `Numbering` covers line spans (`getendlinenumber`), `flattencontent`, the renumbering it is meant to do and
  `updatestartlinenumber`.
- `Reading` describes on values what one `read` call does to a reader and its chain of
  active child readers. This covers the header, `doterminate`, delegation, the redo
  after a `REJECT`, the greedy readers, the include reader and `RootReader.parse`.
- `ReadingInvariants` proves what a `read` call promises:
  - the exit code;
  - every line not handed back is stored exactly once, in order;
  - spans are contiguous;
  - `len` and `repr` agree;
  - the root takes every line of the deck, so `repr` of a parsed text gives the text back.
- `Readers` holds `BlockReaderBase` as a class whose fields the methods update in place
  (`_isreading`, `startlinenumber`, `_nlines`, `content`, `_activechildreader`, parent
  link). Each method is proved to do what the matching function of `Reading` does to the
  reader's abstract value. It also holds `RootReader.parse` as a loop over the lines and
  `updatestartlinenumber` as a loop over the flattened content.
- `Query` covers `INode.query` over a finished tree.

Regular expressions are not modelled. `re.search` and `re.match` are two functions
passed in as a parameter (`LineUtils.Regex`). Numbers are modelled as decimal literals
read as reals.

Four behaviours of the code are easy to misread:

- A query such as `A > B | C > B` is split at its first `>`. It is therefore `A`
  followed by `B | C > B`, not the union of `A > B` and `C > B` (`Query.QueryChildSelector`).
- `Solid Section`, `Shell Section` and `Beam Section` are resolved only inside a
  `Section` block. Inside a part, such a line is no child of anything and is kept as
  text by the reader that sees it (`Resolvers.PartScopeKinds`).
- An inline include counts its own include line plus its content. It writes `*` before
  its include line (`Tree.IncludeModes`).
- `RootReader.parse` ignores the exit codes of `read`. No check for an unconsumed line is
  needed: the root never hands a line back (`ReadingInvariants.ParseSpec`).

## Model

| member | source | states |
|---|---|---|
| `LineUtils.InferNumber` | parser.py:58-85 | A decimal literal becomes its number: an int when integral, unless `explicit` is set and the text has a "."; any other text comes back unchanged |
| `LineUtils.InferNumberDowncast` | parser.py:77-83 | "n.0" becomes the int n by default, and the float n with `explicit` |
| `LineUtils.InferNumberOfInt` | parser.py:77-83 | The decimal text of any integer infers back to that integer |
| `LineUtils.Put` | parser.py:142-149 | Assigning into the ordered map: an existing key keeps its position and takes the new value, a new key goes last, other keys are untouched |
| `LineUtils.ParseHeader` | parser.py:140-151 | The header keeps its line; the name is the first comma segment with leading `*` and spaces removed |
| `LineUtils.ParseHeaderSpec` | parser.py:140-151 | Each key maps to the value of its last segment, keys are distinct and in first-insertion order |
| `LineUtils.SegmentSpec` | parser.py:143-149 | A `k=v` segment gives strip(k) -> infernumber(strip(v)); a bare one gives a flag; a segment with two "=" raises |
| `LineUtils.MatchAttrsAll` | parser.py:184-211 | `matchdict2str` is true iff every comma clause holds |
| `LineUtils.MatchAttrsFalse` | parser.py:184-211 | It is false iff some clause fails and every clause before it holds (later clauses are never evaluated) |
| `LineUtils.KeyValueClause` | parser.py:185-207 | Unknown non-numeric key: false; unknown numeric key: IndexError past the end, true on a flag at that position, otherwise the attribute at that position tested as a named key's value would be; flag value: true; number: equality with infernumber(v); text: the regex or exact test |
| `LineUtils.BareClause` | parser.py:209-210 | A bare clause requires only presence of the key |
| `LineUtils.TextMatchesModes` | parser.py:197-207 | With regex off a text value needs exact equality, unless v starts with "ø", which forces a regex search on v without its "ø" |
| `LineUtils.MatchContent` | parser.py:213-227 | True iff some text line of the content matches (regex search or equality) |
| `Kinds.CommentIsNoHeader` | parser.py:1221-1563 | No reader but the section reader takes a `**` comment line |
| `Kinds.SectionTakesComment` | parser.py:1393-1394 | The section reader takes the generated `** Section: ...` comment lines |
| `Kinds.GetId` | parser.py:1225-1229 | `getid` without header is the class name; only element/set readers (missing key: KeyError) and greedy readers (non-text name) can raise |
| `Kinds.GetIdKeyed` | parser.py:1267-1271 | Element, Nset and Elset ids are "Name:" + the type/nset/elset attribute; a missing attribute raises KeyError |
| `Kinds.SectionIdDiscrepancy` | parser.py:1396-1401 | With a space after the id the section id as written and as intended agree; without one the written code drops the last character |
| `Kinds.SectionId` | parser.py:1396-1401 | The intended section id has no space and is a prefix of the name after "Section:" |
| `Resolvers.FindReader` | parser.py:1585-1589 | None iff no prototype matches; otherwise the first prototype in list order whose `matchheader` accepts the line |
| `Resolvers.FuseFirstSpec` | parser.py:1591-1599 | A fused resolver returns the first non-None result of its parts, None iff all are None |
| `Resolvers.ResolveIsFindReader` | parser.py:1591-1603 | Every resolver, fused at any depth, is `findreader` over its concatenated prototype lists |
| `Resolvers.ScopeOrder` | parser.py:1605-1639 | The order each scope tries readers: includes; includes then section kinds; part readers then includes; top-level readers then part readers then includes |
| `Resolvers.PartScopeKinds` | parser.py:1608-1628 | A part or assembly body never builds a section-kind reader |
| `Resolvers.DefaultScopeKinds` | parser.py:1632-1639 | The root never builds a section-kind reader |
| `Resolvers.SectionScopeKinds` | parser.py:1617-1623 | A section builds only includes and section-kind readers |
| `Resolvers.IncludeEverywhere` | parser.py:1605-1639 | Every scope resolves an include line |
| `Resolvers.ScopesNoInline` | parser.py:1605-1607 | No scope builds an inline include |
| `Resolvers.ChildReader` | parser.py:742-746 | None when children are refused or no resolver is set; otherwise the resolver's result, which matches the line |
| `Tree.ChildrenOf` | parser.py:321-324 | A block is a child iff it is a node item of the content, and there are no more children than items |
| `Tree.LinesLen` | parser.py:548-572 | A block writes exactly as many lines as `len` counts |
| `Tree.ReprIsJoinedLines` | parser.py:564-572 | `repr` is the newline join of the header line, the stripped text lines and each child's lines |
| `Tree.SetInline` | parser.py:1169-1175 | `setinline` changes only the mode of an include |
| `Tree.IncludeModes` | parser.py:1187-1208 | A non-inline include is its one include line with len 1; an inline one is "*" + its line then its content, with len 1 + content |
| `Tree.UpstreamSpec` | parser.py:338-351 | The i-th node upstream is the ancestor i + 1 steps up |
| `Tree.GetRoot` | parser.py:332-336 | `getroot` from any node is the top of the tree |
| `Tree.DescPathsSpec` | parser.py:401-412 | `flatten` holds exactly the nodes strictly below the block |
| `Tree.DescPathsOrdered` | parser.py:401-412 | `flatten` walks depth first: its paths strictly increase in lexicographic order (a block after its ancestors and after its elder siblings' subtrees), so no block comes twice |
| `Numbering.SpansConsecutive` | parser.py:753-756 | The next child starts where the previous one ends |
| `Numbering.SpansNested` | parser.py:902-910 | A child starts after its parent's header and ends no later than its parent |
| `Numbering.Renumber` | parser.py:956-979 | `updatestartlinenumber(n)` sets the start to n and keeps kind, header and the number of items; what the new numbers mean is stated by `RenumberContinuous` and the Findings |
| `Numbering.HeadedNeverRaises` | parser.py:974-976 | A tree whose blocks all have a header renumbers without AttributeError |
| `Numbering.UnambiguousNeverRaises` | parser.py:974-976 | A tree with unambiguous header lines renumbers without AttributeError |
| `Numbering.RealignSpans` | parser.py:958-959 | Renumbering as intended makes every child start where the lines before it end, at every depth, an include restarting at 0 |
| `Numbering.RealignFixpoint` | parser.py:958-959 | Renumbering as intended leaves a continuously numbered tree unchanged |
| `Numbering.UnambiguousWins` | parser.py:974-979 | With unambiguous header lines every child is the one the dictionary keeps, and the last flattened line showing its header is its own |
| `Numbering.RenumberIsRealign` | parser.py:956-979 | When every block has a header, no include lies below, and each child's header line shows in its parent's flattened content only where the child starts, the code renumbers exactly as intended |
| `Numbering.RenumberContinuous` | parser.py:956-979 | On such trees `updatestartlinenumber` makes the line numbers continuous again and leaves an already continuous tree unchanged |
| `Numbering.IncludeShiftsNext` | parser.py:974-979 | As written, a child after a non-inline include that has content is moved down by the include's content lines, so a continuously numbered tree stops being continuous |
| `Numbering.RenumberAfterInclude` | parser.py:974-979 | An element after a one-line include moves from line 2 to 3 |
| `Numbering.DuplicateKeepsFirst` | parser.py:976 | As written, of two children with the same header line only the last is renumbered; the first keeps its old start |
| `Numbering.RenumberDuplicateHeader` | parser.py:976 | Two `*Nset, nset=A` children at 1 and 3 renumbered from 10 end at 1 and 13, where continuity needs 11 and 13 |
| `Numbering.RenumberShape` | parser.py:956-979 | Renumbering changes only start lines: the flattened lines and the headers stay the same |
| `Numbering.RenumberTwice` | parser.py:977-979 | Renumbering from m and then from n is renumbering from n, so only the last call on a child counts |
| `Numbering.RenumberKeys` | parser.py:975-976 | Renumbering keeps each item's dictionary key |
| `Numbering.RenumberIdempotent` | parser.py:956-979 | Renumbering twice from the same line changes nothing more |
| `Reading.Read` | parser.py:671-740 | A REJECT comes only from a reader that has its header |
| `Reading.Stop` | parser.py:790-807 | `stopreading` appends the stopped active child and leaves the block it stands for unchanged |
| `Reading.DoTerminateCases` | parser.py:827-851 | The `doterminate` decision table: greedy readers and the root never terminate; with a sibling, terminate unless a `*` line has a child reader; without one, only on an unresolved, non-comment `*` line when unknown blocks are refused |
| `Reading.Notify` | parser.py:981-993 | A missing-reader alert key is added for an unresolved `*` line unless already present; any other line leaves the alerts unchanged; alerts stay distinct |
| `Reading.LenNowIsLen` | parser.py:995-999 | While reading, `len` counts the active child, so it equals the length of the block the reader stands for |
| `ReadingInvariants.ReadNotReading` | parser.py:692-693 | `read` raises unless the reader is reading |
| `ReadingInvariants.ReadHeaderLine` | parser.py:699-700 | The first line read becomes the header, is not added to content and returns CONTINUE |
| `ReadingInvariants.ReadEnd` | parser.py:1541-1546 | After its header, a greedy reader's end line (any case, anywhere in the line) stops it, is stored as content and returns DONE |
| `ReadingInvariants.GreedyKeepsHeader` | parser.py:1541-1548 | A greedy reader without header reads its first line as its header and answers CONTINUE, even when that line holds its end phrase |
| `ReadingInvariants.GreedyEndsOnOwnHeader` | parser.py:1541-1546 | As written, a greedy reader whose first line holds its end phrase ends on it with no header and answers DONE |
| `ReadingInvariants.PartNameEnds` | parser.py:1541 | `*Part, name=Blend Part` holds the phrase `end part` |
| `ReadingInvariants.StepNameEnds` | parser.py:1571 | `*Step, name=Extend Step` holds the phrase `end step` |
| `ReadingInvariants.BodyTerminates` | parser.py:704-708 | When `doterminate` holds the reader stops and returns REJECT without storing the line |
| `ReadingInvariants.BodyText` | parser.py:720-722 | With no child active and no candidate, the line is appended as text |
| `ReadingInvariants.BodyStarts` | parser.py:710-718 | With no child active, a candidate child is started and the line handed to it |
| `ReadingInvariants.DelegateDone` | parser.py:727-730 | A child returning DONE is stopped, appended and deactivated, and the line counts |
| `ReadingInvariants.DelegateReject` | parser.py:728-738 | A child returning REJECT is stopped and appended; the candidate is started and the same line is read again |
| `ReadingInvariants.ReadReady` | parser.py:692-740 | One `read` keeps the reader ready; exit is DONE exactly on a greedy end line after the header, REJECT exactly when `doterminate` holds; the stripped line is added to the reader's lines exactly once unless rejected |
| `ReadingInvariants.FreshRead` | parser.py:753-756 | A just-started child never rejects its first line and is placed where its parent's lines end |
| `ReadingInvariants.ReadAllSteps` | parser.py:1100-1101 | The root takes every line: its lines grow by the stripped lines, in order |
| `ReadingInvariants.ParseSpec` | parser.py:1091-1103 | The parsed tree starts at 0, spans are contiguous, its lines are the deck's stripped lines with len equal to the line count, and the first line is the root's header |
| `ReadingInvariants.ParseTextRepr` | parser.py:1091-1093 | Parsing a text and taking `repr` gives the text back |
| `ReadingInvariants.StrippedLinesSplit` | parser.py:694-695 | Lines split on newlines need no stripping |
| `Readers.Reader.constructor` | parser.py:610-631 | A new reader is not reading, empty, without header or active child |
| `Readers.Reader.StartReading` | parser.py:651-669 | Refused with pre-existing content, else reading from the given line |
| `Readers.Reader.StopReading` | parser.py:790-807 | Stops and appends the active child first, then stops |
| `Readers.Reader.StopActiveChildReader` | parser.py:748-751 | The active child is stopped, appended as a block and forgotten |
| `Readers.Reader.ActivateChildReader` | parser.py:753-756 | A fresh child starts at this reader's end line with this reader as parent |
| `Readers.Reader.Read` | parser.py:671-740 | Does to the reader exactly what `Reading.Read` says, with the same exit code or error |
| `Readers.Reader.ReadHeader` | parser.py:699-700 | The header is parsed from the line and `_nlines` counts it |
| `Readers.Reader.ReadInclude` | parser.py:1152-1165 | The include line becomes the header; the named file's parsed content, numbered from 0, becomes the content; the result is DONE |
| `Readers.Reader.ReadBody` | parser.py:703-740 | Terminate, store as text, or start and delegate, as `Reading.ReadBody` |
| `Readers.Reader.Delegate` | parser.py:726-738 | Delegation to the active child, as `Reading.Delegate` |
| `Readers.Reader.HandBack` | parser.py:728-738 | After DONE the line counts; after REJECT the line is re-read with the candidate started |
| `Readers.Reader.RedoRead` | parser.py:731-738 | The redo reads the same line once more with the candidate child started |
| `Readers.Reader.Len` | parser.py:995-999 | `len` includes the active child while reading |
| `Readers.Reader.EndLineNumber` | parser.py:902-910 | The end line is start + len |
| `Readers.Reader.UpdateStartLineNumber` | parser.py:956-979 | Raises AttributeError exactly when a child it reaches has no header; otherwise the reader's block becomes `Numbering.Renumber` of it, which is continuously numbered whenever the header lines are unambiguous |
| `Readers.RenumberedContent` | parser.py:975-979 | The loop over the numbered flattened content gives the renumbered children |
| `Readers.ChildIndex` | parser.py:976-976 | The header-line dictionary maps each header line to the last child that has it |
| `Readers.Reader.Parse` | parser.py:1091-1103 | Start at 0, read every line with no sibling, stop: the reader ends as `Reading.ParseState` says |
| `Readers.ParseDeck` | parser.py:1083-1103 | A new root reader's tree is the tree `Reading.Parse` gives |
| `Query.Query` | parser.py:454-490 | Every node a query yields exists in the tree |
| `Query.QueryChildSelector` | parser.py:454-457 | `>` is tested first and splits at its first occurrence; the rest is queried from each left result |
| `Query.QueryEachSpec` | parser.py:455-457 | Every parent is answered, and a node is in the child query's result iff some parent yields it |
| `Query.QueryUnion` | parser.py:458-461 | `A \| B` is A's results followed by B's |
| `Query.QueryUnionSelf` | parser.py:458-461 | No deduplication: `A \| A` yields every node twice |
| `Query.FilterAttrsSpec` | parser.py:462-466 | `name[attrs]` keeps exactly the nodes whose header attributes match |
| `Query.FilterContentSpec` | parser.py:467-475 | `name(text)` keeps exactly the nodes with a matching text line |
| `Query.BracketRewriteRepeats` | parser.py:462-475 | A closing bracket before the opening one makes the rewritten query no shorter, so the recursion never ends |
| `Query.QueryStar` | parser.py:476-478 | `*` yields the direct children in content order |
| `Query.QueryDescendants` | parser.py:479-481 | `**` yields exactly the nodes strictly below, self excluded, depth first and each once |
| `Query.QueryParent` | parser.py:482-484 | `..` yields the parent, whose content holds the node, or None at the root |
| `Query.QueryRoot` | parser.py:485-487 | `root` yields the top of the tree |
| `Query.QueryName` | parser.py:488-490 | A plain name yields exactly the direct children whose reader name matches |
| `Query.NamedChildrenSpec` | parser.py:87-109 | `findblockbyname` keeps the children with an equal name, or with regex the child's name used as pattern |

## Left out

- File I/O is not modelled: `parseinputfile`, `savetofile` and the path resolution of `IncludeReader.read` (`os.path`, `os.getcwd`). An include instead receives the already-parsed content of the file it names, through the `Includes` parameter.
- Readers.Reader.ReadInclude: models the include as intended, not as written. As written, `IncludeReader.read` sets the header (parser.py:1155) and calls `parseinputfile` (parser.py:1163). That runs `parse` on the include reader itself, which calls `self.read(line, None)` for each line of the file (parser.py:1100-1101). The header is already set, so each such call takes the `else` branch, which names the undefined `nextsiblingreader` (parser.py:1167): every include of a file with at least one line raises NameError. The `Includes` parameter gives the content the include is meant to have, numbered from 0.
- Readers.Reader.UpdateStartLineNumber: when a block below the first level has no header, the model raises with the content unchanged. The source raises too, but only after it has renumbered the children it visited before.
- Strings.Lower: lowers ASCII letters only, where `str.lower` covers all of Unicode. It is used by the include reader's `matchheader`, the end-phrase test and the missing-reader alert key.
- Strings.IsNumeric: accepts ASCII digits only. Python's `str.isnumeric` also accepts other digits and numerals. The key `٣` selects attribute 3 in the source, but the model reports no match. For the key `²`, the source raises ValueError from `int("²")`, and the model reports no match.
- LineUtils.InferNumber: numbers are exact decimals, not binary floats. So "1.0000000000000001" is an int 1 in the source but a non-integral number in the model.
- `IncludeReader.getchildreaderresolver` misses a `return` (parser.py:1179). The model uses the intended resolver, its own or else the parent's. Since include content arrives already parsed, the difference cannot be observed.
- `BlockReaderAssembly.read` passes the undefined name `nextsiblingeader` (parser.py:1518), so every line of an assembly that is not its end line raises NameError. The model gives the intended base `read`.
- The greedy `read` overrides do not return the base result (parser.py:1518, 1548, 1578), so they return `None`. The parent treats `None` like CONTINUE, which is what the base `read` of a reader that never terminates returns, so the model returns the base result.
- LineUtils.InferNumber: the float parsing reads plain decimal literals only (sign, digits, one "."); exponents, `inf`, `nan` and `_` separators are left out.
- LineUtils.InferNumber: a literal beyond the float range (say 400 digits) makes `float` give inf, and `int(a)` at parser.py:83 then raises OverflowError (when `explicit` is false or the text has no "."). The `except ValueError` at parser.py:84 does not catch it, so it escapes `parseheader` and `parse`; the model returns the exact Int instead.
- LineUtils.InferNumberOfInt: in the source the round trip holds only for |n| <= 2^53 (9007199254740993 comes back as 9007199254740992), and past the float range it raises OverflowError; the model's exact decimals make it hold for every integer.
- `BlockReaderOrientation.parameterize` (parser.py:1444-1470) fills side fields with number tuples and can raise on a malformed rotation line. Neither the fields nor those errors are modelled. The line itself is stored unchanged, which is what the method returns. `OrientationHeader` is modelled as a plain header.
- Query.Query: `INode.query` is a generator, so a caller sees the nodes yielded before an error on a later node (a `None` node or a block without header under `[...]` or `(...)`), and `next()` gets the first match without evaluating the rest. The model computes the whole result as a sequence, and any error loses the nodes that came before it.
- Regular expressions have no semantics here: `re.search` and `re.match` are parameters.
- `todataframe`, `toarray`, `linkednodes`, `linkedelements` and the `linked*` helpers of the section readers are left out. They build pandas tables.
- Display is left out: `__str__`, `printchildren`, `printparents`, `getlinenumberrange` and the `LOG_LEVEL` prints.
- `__notifymissingreader` does not print. Its warn-once list is a sequence threaded through every `read` call instead of the global `MISSING_READER_ALERT`.
- `RootReaderOld` is deprecated and left out.
- The `realignlinenumbers` wrapper is not modelled separately; `updatestartlinenumber`, which it calls on the root, is.
- operations.py (mesh cleanup over pandas) and annotations.py (decorators, timing, output redirection) are not part of this model.
- Readers: finished child readers are stored as immutable block values. Only the chain of active readers is a chain of objects. After `stopreading` the source never changes a finished reader again, except through `updatestartlinenumber`, which the model applies to values.

## Findings

| source | as written | input that shows it | evidently intended | confidence | as-written member | corrected member |
|---|---|---|---|---|---|---|
| parser.py:1398-1399 | `id[:id.find(" ")]` takes `id[:-1]` when the id has no space | header `*Section: Section-11-F1` gives the id `Section-11-F` | the id up to the first space, or all of it when there is none | high, not executed | `Kinds.SectionIdWithoutSpace` | `Kinds.SectionId` |
| parser.py:974-979 | `flattencontent` descends into an include's content, which the include's own length does not count, so the children after it are pushed down | a `*Heading` root holding a non-inline include of one content line at 0 and then `*Element, type=C3D8` at line 2: renumbering from 0 moves the element to line 3 | every child starts where the lines before it end | medium, not executed | `Numbering.RenumberAfterInclude` | `Numbering.Realign` (`Numbering.RealignSpans`) |
| parser.py:976 | the dictionary keeps one child per header line, so of two children with the same header only the last is renumbered | two `*Nset, nset=A` children at lines 1 and 3: renumbering from 10 leaves the first at 1 and moves the second to 13 | both renumbered, to 11 and 13 | medium, not executed | `Numbering.RenumberDuplicateHeader` | `Numbering.Realign` (`Numbering.RealignFixpoint`) |
| parser.py:1541-1546 | a greedy reader looks for its end phrase before it has read its header, so a header holding the phrase ends the block at once with no header (a later `updatestartlinenumber` on its parent then raises AttributeError) | `*Part, name=Blend Part` or `*Step, name=Extend Step` | the first line is always the header; only later lines can end the block | medium, not executed | `ReadingInvariants.GreedyEndsOnOwnHeader` | `Reading.Read` (`ReadingInvariants.GreedyKeepsHeader`) |
