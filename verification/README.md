# A verified model of the template engine and its companions

The main part models the text template engine of `app/wizard/tpllib.cpp` and `app/wizard/lib_tpl.h`:
the parser for fields `$<NAME>` and nested sections `<!-- $<NAME> --> ... <!-- $<NAME> -->`, the mutable
tree of levels with its hash tables and selection pointers, the operations on it (select, deselect, set
field, append, set section, reset, copy), and the renderer. Three smaller parts model the multiply-accumulate
steps of `include/polarssl/bn_mul.h`, `skip_trailing_space` of `include/mysql/m_string.h`, and the UTF-8
counting of `app/iconv/charset.cpp`.

## How it is laid out

- `Search`, `Markup`, `Items`, `Cursor`, `Faults`: substring search, the first cut of a text at a field or section,
  texts as item lists and back, the same seen from the parse loop's position, and what a fault leaves.
- `Names`: the hash function, bucket chains, the prefix-matching lookup, and when it behaves like a map.
- `Tree`, `RoundTrip`: a template as a value, parsing to it and printing from it, both round trips.
- `Render`, `Ops`, `Runs`: the content of a level, the operations as functions on trees, and what runs keep.
- `Effects`, `Appending`, `Copying`, `Resetting`, `Edits`, `Filling`, `Reaching`, `Naming`: the laws of select, set,
  append, copy, reset, global set and names; `Witnesses`: concrete texts, on most of which an operation falls short of
  them.
- `Templates`: the mutable structure, a class whose fields follow the C struct, with a ghost footprint and a
  ghost path for the selection pointer; the added content hangs off it in linked chains of `Links`. `Parsing`,
  `Traversal`, `Cloning`, `Output`, `Buffers` hold the parser, the recursive walks, the copy and the writers over
  it. Each method is proved to do to the tree of the structure what the function of `Ops`, `Cursor`, `Tree` or
  `Copying` says. `Sessions` puts them together.
- `Decimal`, `IntFields`, `Http`: integers written out, integer fields, the HTTP response.
- `MulAdd`, `SkipSpace`, `Utf8`, with `Arithmetic` and `Bytes`: the smaller parts.

Conventions: a level's field cells stand in creation order, and a field node refers to its cell by number, as all
nodes of one name share one cell in C; a section's position is the number of nodes that precede it; a level's
selection pointer is described by the path from the level to the one it points at. Characters stand for
bytes. Keys asked for are non-empty, because the hash function reads past the end of an empty one. A template
between two operations is `Ready`: the tables index their cells, selection pointers lead where they should,
parents are right, every tail pointer is at the end of its chain, no link is in two chains, every field value
fits the block allocated for it, and the tree is inside the invariant of `Runs`.

Where the code and its comments differ, the model follows the code: the delimiters are `$<` and `>`, not the
`@@` of the header comment (app/wizard/lib_tpl.h:28-41), and a global set is not "everywhere in the
document" while a section is selected (`Reaching.GlobalReachesIff`).

## Findings

Where the code does not meet what it is for, the failing input and the exact condition are proved:

- A field is captured by an earlier one whose name it begins: `Names.ShadowedLookup`, `RoundTrip.CapturedField`;
  exactly when: `Names.ExactIff`, `Names.AllExactIff`, `RoundTrip.TextRoundTripIff`.
- `tpl_from_string` can leave a section without a parent, which a select finds and a deselect would then
  follow: `Cursor.UnclosedLeaves`, `Parsing.Orphaned`; exactly when: `Parsing.FromString`.
- The text between the last field or section and a delimiter without its end is not stored, while that before
  an unclosed section is: `Faults.TextDropped`; exactly what `tpl_from_string` keeps before each kind of fault:
  `Faults.LeftBefore`.
- A global set misses levels, possibly every level that has the field: `Witnesses.GlobalMisses`; exactly which:
  `Reaching.GlobalReachesIff`.
- A reset does not give back replaced sections: `Witnesses.ReplacementStays`; exactly what it gives back:
  `Edits.ResetRestoresBut`.
- An empty replacement of a section that is one field writes through a null pointer: `Witnesses.EmptyNotAllowed`;
  exactly when: `Ops.WritesThroughNullIff`.
- Copying a field over an older empty one reallocates without room for the NUL that follows; exactly when:
  `Cloning.OverrunsIff`. Copying into a new template, as the header asks, never comes to it: `Cloning.CopyNodesOn`.
- Unsigned values above 2^31 are written wrongly: `Decimal.UnsignedWraps`; exactly when: `Decimal.UnsignedIff`.

Verify with `dafny verify dfyconfig.toml`.

## Model

| member | source | states |
|---|---|---|
| `Search.StrStr` | app/wizard/tpllib.cpp:82-108 | the search loop returns the first occurrence of the needle that lies in the range, or none; it reads only inside the range |
| `Search.FirstAtSpec` | app/wizard/tpllib.cpp:82-108 | what "first occurrence" means: it occurs there and nowhere earlier; none means it occurs nowhere |
| `Names.HashLoop` | app/wizard/tpllib.cpp:177-190 | the loop over a key yields the key's bucket: 32-bit wrap-around, sign-extended bytes, folding of the top four bits, modulo 29 |
| `Names.HashGrows` | app/wizard/tpllib.cpp:177-190 | the hash of a name starts with its first character, a signed byte modulo 2^32; each further character shifts the state by five bits, is added and the top is folded, up to a NUL; the bucket is the remainder by 29 |
| `Names.MixFolds` | app/wizard/tpllib.cpp:182-188 | the fold of the hash: the upper four of 32 bits are cleared and flip bits 4 to 7, so the hash stays below 2^28 between steps |
| `Names.XorBit` | app/wizard/tpllib.cpp:182-188 | the exclusive or of the fold, bit by bit |
| `Names.Walk` | app/wizard/tpllib.cpp:199-212 | walking one bucket and comparing only the bytes of the key asked for finds the oldest cell of the level that the key can hit |
| `Names.LookupSpec` | app/wizard/tpllib.cpp:199-212 | a lookup answers with the oldest cell of the bucket whose name begins with the key, or with none if there is no such cell |
| `Names.ExactIff` | app/wizard/tpllib.cpp:199-212 | a lookup answers like a map if and only if every longer name in the bucket that begins with the key is preceded by the key itself |
| `Names.ShadowedLookup` | app/wizard/tpllib.cpp:199-212 | a concrete failure: with the field aC stored, the key a is answered with the cell of aC (both fall into bucket 10) |
| `Names.StoredFound` | app/wizard/tpllib.cpp:192-220 | in tables built by create-on-miss every stored name finds its own cell, at any later time, and no other cell has that name |
| `Names.NewMissed` | app/wizard/tpllib.cpp:241-263 | and a name was not answered by any cell older than its own, so must-create never met an existing one |
| `Names.SeparateExtended` | app/wizard/tpllib.cpp:214-217 | creating a cell on a miss keeps the tables in that state |
| `Names.BucketsExtended` | app/wizard/tpllib.cpp:214-217 | linking the new cell at the end of its bucket gives exactly the buckets of the longer cell list |
| `Names.AllExactIff` | app/wizard/tpllib.cpp:192-220 | a list of names met one after the other is answered exactly throughout if and only if no name begins an earlier one of its bucket without having been met before it |
| `Markup.TagHasNoBorder` | app/wizard/tpllib.cpp:342-346 | no proper prefix of a section tag is also a suffix of it |
| `Markup.NoTagIn` | app/wizard/tpllib.cpp:342-346 | hence the search for the closing tag cannot match across the end of the body |
| `Markup.FieldCutSource` | app/wizard/tpllib.cpp:281-307 | the parts around the first field put together again are the text |
| `Markup.FieldCutClean` | app/wizard/tpllib.cpp:281-307 | and they meet the conditions under which a field is read back as written: no delimiter in the text, no > in the name, not framed like a section tag |
| `Markup.FieldBack` | app/wizard/tpllib.cpp:281-307 | every field written under these conditions is cut out as written, whatever follows |
| `Markup.SectionCutSource` | app/wizard/tpllib.cpp:299-348 | the parts around the first section put together again are the text |
| `Markup.SectionCutClean` | app/wizard/tpllib.cpp:299-348 | and they meet the conditions under which a section is read back: no delimiter and no final $ in the text before it, no > in the name, no own tag in the body |
| `Markup.SectionBack` | app/wizard/tpllib.cpp:299-348 | every section written under these conditions is cut out as written, whatever follows |
| `Items.ScanSound` | app/wizard/tpllib.cpp:274-400 | nothing of a text is lost or invented: what was scanned writes back to the text |
| `Items.RoundTripIff` | app/wizard/tpllib.cpp:274-400 | an item list is what its own text scans to if and only if it is free of accidental delimiters, and every scanned list is |
| `RoundTrip.ParseReads` | app/wizard/tpllib.cpp:274-400 | a parsed template is well formed, nothing is set, added or selected in it, and it reads back as the scanned items with every field under its cell's name |
| `RoundTrip.TextRoundTripIff` | app/wizard/tpllib.cpp:274-400 | text to tree to text: printing the parsed template gives back the input bytes if and only if the field names of every level are clear |
| `RoundTrip.CapturedField` | app/wizard/tpllib.cpp:379-383 | a concrete failure: the fields aC and a share one cell, and the template prints as aC twice |
| `RoundTrip.TreeRoundTripIff` | app/wizard/tpllib.cpp:274-400 | tree to text to tree: parsing the printed form of a well formed untouched template rebuilds the same tree if and only if its items are free of accidental delimiters |
| `RoundTrip.ParseIff` | app/wizard/tpllib.cpp:274-400 | parsing succeeds if and only if the text scans and at every level no section name is answered by an earlier one |
| `Parsing.SectionTest` | app/wizard/tpllib.cpp:299-303 | the section test, whose look-back is one byte looser than the range, accepts exactly the heads that start in the unread part, because a head cannot contain the > that ends what was read |
| `Cursor.FieldStep` | app/wizard/tpllib.cpp:366-384 | one field iteration of the loop leaves the same template to be built from the rest of the range |
| `Cursor.SectionStep` | app/wizard/tpllib.cpp:299-364 | one section iteration does so too, and stops at exactly a known name, a missing closing tag or a bad body, with what `Left` describes; what that is apart from its definition: `Faults.LeftBefore` |
| `Cursor.LeftParses` | app/wizard/tpllib.cpp:274-400 | what a construction leaves is a function of the text: the parsed tree if it is free of faults, and there is a fault exactly when there is no parsed tree |
| `Cursor.LeftKeeps` | app/wizard/tpllib.cpp:274-400 | whatever is left, after a fault too, is well formed and nothing is set, added or selected in it |
| `Faults.LeftBefore` | app/wizard/tpllib.cpp:274-400 | a construction that stops has kept everything before its fault: the text is cut at a place up to which it is read without fault onto what was there, and from which the fault begins: a delimiter without its end (the text between the last field or section and it is not stored), the tag of a section whose name is known, or the tag of one that is unclosed or has a bad body, of which an empty section stays at the end |
| `Faults.FaultKeepsText` | app/wizard/tpllib.cpp:505-508 | from an empty template: what is left, without the bad section, is the parsed tree of the text before the fault, and prints back as that text if and only if its field names are clear |
| `Faults.TextDropped` | app/wizard/tpllib.cpp:281-296 | a failure: of a text that a delimiter without its end follows, as of `Hi $<N`, nothing is stored |
| `Cursor.UnclosedLeaves` | app/wizard/tpllib.cpp:331-353 | a concrete failure: an opening section tag alone, as in `<!-- $<A> -->`, is a syntax error that leaves an empty section of that name |
| `Parsing.ProduceField` | app/wizard/tpllib.cpp:192-220 | the field cell is the looked-up one or a new one at the end of its bucket; the tables still index the cells; a new block takes the announced data, an older one is reallocated exactly when the code asks for it |
| `Parsing.AddFieldNode` | app/wizard/tpllib.cpp:379-383 | a field node refers to the cell that answers for its name |
| `Parsing.MakeSection` | app/wizard/tpllib.cpp:241-329 | a new section stands last in the section list and in its bucket before its body is read: empty, its position set, its parent the level it is in |
| `Parsing.ReadBody` | app/wizard/tpllib.cpp:331-354 | the body is built between the tags; on a missing closing tag or a failing body the section is empty again and has no parent |
| `Parsing.ReadSection` | app/wizard/tpllib.cpp:317-364 | the section branch: a known name changes nothing, a missing closing tag or a failing body leaves an empty section without a parent in the list, otherwise the section has the tree of its body and reading goes on after the closing tag |
| `Parsing.Construct` | app/wizard/tpllib.cpp:274-400 | the parser over a byte range terminates, reads inside it, and builds the tree the range stands for, or reports a syntax error exactly when there is none; what it leaves is described in either case, and every parent but that of a bad last section is right |
| `Parsing.FromString` | app/wizard/tpllib.cpp:505-508 | construction from memory keeps what was read before an error; every section's parent is right, and the template is ready for every operation, if and only if the construction did not stop at an unclosed or badly built section |
| `Parsing.Orphaned` | app/wizard/tpllib.cpp:331-353 | a concrete failure: after such a text the lookup finds a section whose parent is null |
| `Parsing.Load` | app/wizard/tpllib.cpp:493-502 | loading a text gives its tree, ready for every operation, or on a syntax error an empty template |
| `Naming.ParseNamed` | app/wizard/tpllib.cpp:274-400 | from a text whose names are non-empty and free of NUL bytes come only such names |
| `Naming.RunNamed` | app/wizard/tpllib.cpp:696-1095 | and no run of operations brings in another |
| `Templates.Template.constructor` | app/wizard/tpllib.cpp:402-409 | a new template is empty, selects itself and has no parent |
| `Templates.Template.FindField` | app/wizard/tpllib.cpp:222-223 | finds the cell of the level that the key looks up |
| `Templates.Template.FindSection` | app/wizard/tpllib.cpp:265-266 | finds the section of the level that the key looks up |
| `Templates.Template.SelectSection` | app/wizard/tpllib.cpp:885-895 | selects the looked-up section of the selected level: both selection pointers move, nothing else changes; an unknown key changes nothing |
| `Templates.Template.DeselectSection` | app/wizard/tpllib.cpp:897-906 | selects the level around the selected one and lets that level point at itself; without a selection nothing changes |
| `Templates.Template.SetField` | app/wizard/tpllib.cpp:696-708 | sets the looked-up field of the selected level and nothing else; an unknown key changes nothing; every value still fits its block |
| `Templates.Template.Grow` | app/wizard/tpllib.cpp:701-702 | after the test for a reallocation the value and its NUL fit the field's block, which is never below the initial size |
| `Templates.Template.WriteValue` | app/wizard/tpllib.cpp:704-706 | writing a value that fits its block sets that cell alone and leaves every value of the level in its block |
| `Templates.Template.AppendSection` | app/wizard/tpllib.cpp:1007-1095 | at the selected level: the texts between section positions and the sections' added chains, in order, go to the end of the level's own chain, and the sections' chains become empty; every tail pointer is at the end of its chain and no link is in two chains |
| `Templates.Template.AppendLoop` | app/wizard/tpllib.cpp:1018-1092 | the loop over linked chains: it takes over the sections' links without copying them, creates the others, and leaves no link shared |
| `Templates.Template.Push` | app/wizard/tpllib.cpp:1030-1032 | a link created at the tail pointer extends the chain by one text; the links before it stay, and the tail pointer is again the end of the chain |
| `Templates.Template.MoveChain` | app/wizard/tpllib.cpp:1054-1058 | cutting a chain off one level and hanging it to another joins texts and links and leaves the first empty, its tail pointer reset |
| `Templates.Template.ReplaceChain` | app/wizard/tpllib.cpp:936-964 | prepending or reusing the first link, freeing the others and resetting the tail pointer leaves one link with the text |
| `Templates.Template.FreeChain` | app/wizard/tpllib.cpp:530-536 | freeing link by link ends at the end of the chain and leaves none |
| `Templates.Regrouped` | app/wizard/tpllib.cpp:936-1095 | rearranging the chains of some levels among themselves, with new links only, leaves every chain of the tree intact and unshared |
| `Templates.Template.SetSection` | app/wizard/tpllib.cpp:910-970 | replaces the looked-up section by one text, in place when it is a single node of that length, and its added chain by one link with that text; other levels and the selection are as before, tail pointers and parents are right |
| `Templates.Template.Clear` | app/wizard/tpllib.cpp:411-451 | releasing and initialising leaves an empty level that points at itself |
| `Runs.StepKeeps` | app/wizard/tpllib.cpp:511-1095 | every operation keeps the invariant: section positions in order along the node list, cells numbered by first reference, separate names, the selection shape, nothing added at the root |
| `Runs.RunKeeps` | app/wizard/tpllib.cpp:511-1095 | so every run keeps it |
| `Runs.AllowedIff` | app/wizard/tpllib.cpp:916-934 | in every reachable state every operation is possible but a replacement that would write through a null pointer |
| `Runs.RunConcat` | app/wizard/tpllib.cpp:511-1095 | running two lists of operations one after the other is running them joined, and possible exactly when that is; with `Runs.RunOne` a run is its steps in order |
| `Runs.ParsedInvariant` | app/wizard/tpllib.cpp:274-400 | and a parsed template starts in it |
| `Runs.DeselectUndoesSelect` | app/wizard/tpllib.cpp:885-906 | a deselect right after a successful select restores the whole tree |
| `Sessions.Apply` | app/wizard/tpllib.cpp:511-1095 | each operation on the linked structure, the integer setters included, does to its tree what the step does whose effect the laws of `Effects`, `Appending`, `Resetting` and `Reaching` give, returns its code, and leaves the structure valid with the same levels |
| `Sessions.IntCommands` | app/wizard/tpllib.cpp:739-765 | an int is stored as the one canonical decimal text of its value; an unsigned value as that of the value up to 2^31, beyond as that of its distance to 2^32 |
| `Sessions.ApplyAll` | app/wizard/tpllib.cpp:511-1095 | a run on the structure is a run on its tree, and in every state it reaches selection pointers and parents are right, every tail pointer is at the end of its chain, no link is in two chains and every field value fits its block |
| `Sessions.Session` | app/wizard/tpllib.cpp:274-1169 | from a template text through any allowed run to the rendered bytes: the result is the content of the tree after the run, or the syntax error |
| `Sessions.CopySession` | app/wizard/tpllib.cpp:575-693 | a copy is made, operated on and rendered: the bytes are those the original would give after the same run, and the original is untouched down to every link |
| `Effects.SelectReaches` | app/wizard/tpllib.cpp:885-895 | as a step of a run: a successful select selects the section one level below the selected one that answers for the key, and changes nothing but selection pointers; otherwise the error is returned and nothing changes |
| `Effects.DeselectReaches` | app/wizard/tpllib.cpp:897-906 | as a step: a successful deselect selects the level around the selected one, and changes nothing but selection pointers; with nothing selected the error is returned and nothing changes |
| `Effects.SetFieldShows` | app/wizard/tpllib.cpp:696-708 | as a step: after a field set every node of the selected level that stands for the key renders as the value, every other node as before |
| `Effects.SetFieldAnswers` | app/wizard/tpllib.cpp:696-708 | as a step, for clear names or not: the cell that answers for the key holds the value, every other cell of the level what it held, and nothing else of the level changes |
| `Effects.SetFieldElsewhere` | app/wizard/tpllib.cpp:696-708 | and every other level, around, beside or below, is as it was |
| `Effects.SetSectionShows` | app/wizard/tpllib.cpp:910-970 | as a step: where the replaced section's added content stood in its level now stands the value, the section renders as the value, and nothing but that text is in it |
| `Effects.SetSectionMisses` | app/wizard/tpllib.cpp:966-969 | as a step: if no section of the selected level answers for the key, nothing changes and the not-found error is returned |
| `Effects.SetSectionElsewhere` | app/wizard/tpllib.cpp:910-970 | and every level but those in the replaced section keeps its nodes, values, added content, selection pointer and section places |
| `Effects.SelectAppendShows` | app/wizard/tpllib.cpp:885-1095 | a run of two steps: selecting a section and appending it inserts what the section renders to right after what was added there before, in every reachable state |
| `Witnesses.AppendRenders` | app/wizard/tpllib.cpp:885-1095 | a concrete run: `<!-- $<S> -->x<!-- $<S> -->` renders to nothing, and to x after S is selected and appended |
| `Render.LengthIsContent` | app/wizard/tpllib.cpp:1098-1169 | summing node lengths and added chains apart gives the length of the content that interleaves them by position |
| `Render.SectionPlace` | app/wizard/tpllib.cpp:1122-1169 | a section's added content stands between what the nodes and sections before its position and those after it render to |
| `Render.NodesContent` | app/wizard/tpllib.cpp:1122-1169 | without sections a level renders to its texts and its fields' values in order |
| `Output.Length` | app/wizard/tpllib.cpp:1098-1115 | the measured length is the number of bytes the content has |
| `Output.GetContent` | app/wizard/tpllib.cpp:1122-1169 | exactly the content and a final NUL are written; no byte of the buffer outside that changes |
| `Appending.AppendConserves` | app/wizard/tpllib.cpp:1007-1095 | as a step: the selected section's added content becomes the old one followed by exactly what the section rendered to; each direct child's chain is emptied and nothing else of it changes |
| `Appending.AppendRefused` | app/wizard/tpllib.cpp:1009-1095 | with nothing selected nothing is appended and the error is returned |
| `Appending.AppendShows` | app/wizard/lib_tpl.h:128-132 | the enclosing level renders as before with the section's content inserted right after what the section had added before |
| `Appending.AppendElsewhere` | app/wizard/tpllib.cpp:1007-1095 | every level other than the selected one and the one around it renders as before |
| `Effects.AppendLeaves` | app/wizard/tpllib.cpp:1007-1095 | and every level but the selected section and its direct sections is as it was |
| `Traversal.Reset` | app/wizard/tpllib.cpp:511-542 | clearing fields through the 29 buckets and walking the sections resets the whole tree: all values empty, all sections' added content gone, each chain as it was or freed |
| `Traversal.ResetTemplate` | app/wizard/tpllib.cpp:511-542 | and the template is ready for every operation again, with no link it did not have before |
| `Resetting.ResetStep` | app/wizard/tpllib.cpp:511-542 | as a step: at every level a reset empties the values and, below the root, the added content; nodes, names, section places and selections stay |
| `Resetting.ResetRestores` | app/wizard/tpllib.cpp:511-542 | after any run of field sets, selections, appends and resets on a parsed template a reset gives back the parsed tree but for the selection, and every level renders as right after parsing |
| `Resetting.ResetTwice` | app/wizard/tpllib.cpp:511-542 | a second reset changes nothing |
| `Edits.ResetRestoresBut` | app/wizard/tpllib.cpp:511-970 | after any run, replacements included, and a reset: a level with no replacement at it or above it renders as right after parsing, the last one replaced on the way renders as its text, and there is no level below that |
| `Edits.BareEdits` | app/wizard/tpllib.cpp:511-970 | up to values, added content and selection a run is its list of successful replacements |
| `Witnesses.ReplacementStays` | app/wizard/tpllib.cpp:511-542 | a concrete failure of the plain form: a section replaced once keeps the replacement through a reset |
| `Ops.WritesThroughNullIff` | app/wizard/tpllib.cpp:916-934 | the states that a replacement of a section excludes are exactly those in which the copy in place meets a field node, whose text pointer is null |
| `Witnesses.EmptyNotAllowed` | app/wizard/tpllib.cpp:916-934 | a concrete failure: after parsing a section that holds one field, an empty replacement of it comes to that copy |
| `Traversal.SetFieldGlobal` | app/wizard/tpllib.cpp:813-823 | the recursive walk sets the field where each level's selection pointer leads, at every level |
| `Traversal.SetFieldEverywhere` | app/wizard/tpllib.cpp:813-823 | on a template between two operations it keeps every pointer and the invariant |
| `Filling.GlobalFills` | app/wizard/tpllib.cpp:813-823 | on a freshly parsed template a global set reaches every level at every depth: each renders as its own items with the key filled in, other fields empty and sections removed |
| `Filling.GlobalFillsText` | app/wizard/tpllib.cpp:813-823 | the whole template renders as its source text filled in, when the field names of its root are clear |
| `Reaching.GlobalReaches` | app/wizard/tpllib.cpp:813-823 | at every level of any tree a global set writes the field if and only if some level on the way there, that one included, has its selection pointer on it |
| `Reaching.GlobalReachesIff` | app/wizard/lib_tpl.h:101-102 | as a step, in every reachable state: that is every level but the root under a selection and the first level of a selected path of two or more, so every level when nothing is selected; all else of every level is as it was |
| `Witnesses.GlobalMisses` | app/wizard/tpllib.cpp:813-823 | a concrete failure: with the inner of two nested sections selected, a global set of a field that the other two levels have changes nothing at all |
| `Copying.CopySame` | app/wizard/tpllib.cpp:575-693 | a copy has the same nodes, values, section order and selections as the original, and the same added text at every level below the root |
| `Copying.CopyRunsAlike` | app/wizard/tpllib.cpp:575-693 | every later run of operations is possible on both and renders the same, at every level |
| `Copying.CopyInvariant` | app/wizard/tpllib.cpp:575-693 | a copy is again inside the invariant |
| `Cloning.CopyField` | app/wizard/tpllib.cpp:228-238 | copied data goes to the looked-up cell if that is still empty, or to a new one, and fits its block |
| `Cloning.OverrunsIff` | app/wizard/tpllib.cpp:204-236 | the copy writes past the block of an older cell if and only if that cell is empty and the data is longer than the initial length |
| `Cloning.CopyNodesOn` | app/wizard/tpllib.cpp:584-613 | the nodes up to a position and the cells they refer to are copied one by one; no write leaves its block, and no older cell's block is reallocated |
| `Cloning.TakeAdded` | app/wizard/tpllib.cpp:622-652 | added content is consolidated in one link, which renders as the whole chain did |
| `Cloning.AdjustSelection` | app/wizard/tpllib.cpp:547-571 | the search through both trees points the copy at the counterpart of the selected level, and changes nothing if there is none |
| `Cloning.CopyLevel` | app/wizard/tpllib.cpp:575-693 | the recursive copy builds, out of fresh levels only, the described copy of a level with everything below it and its selection |
| `Cloning.AddCopy` | app/wizard/tpllib.cpp:613-656 | a copied section stands in its list and bucket first and is filled afterwards, out of fresh levels and links only |
| `Cloning.Copy` | app/wizard/lib_tpl.h:57-61 | copying into a new template yields a template with the described tree that shares no level and no link with the original, which is untouched |
| `Decimal.DigitsRead` | app/wizard/tpllib.cpp:58-78 | the written digits are canonical, without leading zeros, and read back to the number |
| `Decimal.ReadDigits` | app/wizard/tpllib.cpp:58-78 | and every canonical digit string is what its value is written as |
| `Decimal.DecimalRead` | app/wizard/tpllib.cpp:58-78 | every int written in signed mode is a canonical signed text, no leading zero and no minus zero, and reads back to the int, the most negative one included |
| `Decimal.ReadDecimal` | app/wizard/tpllib.cpp:58-78 | and it is the only one: any canonical signed text is what its value is written as |
| `Decimal.ReverseDigits` | app/wizard/tpllib.cpp:61-72 | the division loop fills at most the 10 places of the scratch array with the digits, last one first, for every int |
| `Decimal.IntToString` | app/wizard/tpllib.cpp:58-78 | the text and a final NUL are written at the given place, cut off at the field length; nothing else in the buffer changes |
| `Decimal.UnsignedIff` | app/wizard/tpllib.cpp:752-765 | an unsigned value is written right if and only if it is at most 2^31; beyond, its distance to 2^32 is written |
| `Decimal.UnsignedWraps` | app/wizard/tpllib.cpp:752-765 | a concrete failure: 2^32 - 1 is written as 1 |
| `IntFields.SetFieldInt` | app/wizard/tpllib.cpp:739-750 | sets the field of the selected level to the decimal form of any int, formatted inside the field's block |
| `IntFields.SetFieldUint` | app/wizard/tpllib.cpp:752-765 | sets it to the unsigned-mode text, which is the decimal form up to 2^31 |
| `Http.WriteHeaders` | app/wizard/tpllib.cpp:1223-1249 | the start header, the decimal length and the end header, within the allowed 10 digits |
| `Http.WriteResponse` | app/wizard/tpllib.cpp:1223-1258 | the response is the headers and exactly the content, and fits the computed allocation |
| `Http.HttpWrite` | app/wizard/tpllib.cpp:1223-1258 | the bytes are a message with the 200 status line, the fields Content-Type text/html and Content-Length with the length of the body in canonical digits, an empty line, and the content as body |
| `Http.ResponseReads` | app/wizard/tpllib.cpp:1223-1258 | reading any such response yields the content's length and the content (section 3.3.2 of RFC 7230) |
| `Http.HttpMessage` | app/wizard/lib_tpl.h:197-203 | split at its line ends (section 3 of RFC 7230) the response to any content is the status line, the two named fields with their values, and the content; the length field reads as the content's length |
| `MulAdd.StepsValue` | include/polarssl/bn_mul.h:829-868 | after any number n of steps value(d') + c' * B^n = value(d) + b * value(s) + c, with all limbs and the carry below the limb base B |
| `MulAdd.SumBound` | include/polarssl/bn_mul.h:834-840 | the largest sum of a step is B^2 - 1, so no carry is lost |
| `MulAdd.WideStep` | include/polarssl/bn_mul.h:834-840 | the double-limb step, with wrapping words and the carry recovered by comparison, is the exact step |
| `MulAdd.HalfProductStep` | include/polarssl/bn_mul.h:853-860 | the four half products and the two shifts put the product together without a lost carry, for any half-limb base |
| `MulAdd.HalfStep` | include/polarssl/bn_mul.h:853-865 | the half-limb step is the exact step, hence agrees with the double-limb one |
| `MulAdd.MulAddWide` | include/polarssl/bn_mul.h:829-843 | n double-limb steps over arrays give the limbs and carry of n exact steps and touch no other limb |
| `MulAdd.MulAddHalf` | include/polarssl/bn_mul.h:845-868 | n half-limb steps give the same |
| `MulAdd.MulAddHuit` | include/polarssl/bn_mul.h:70-131 | the eight-limb register program gives the limbs and carry of eight exact steps |
| `MulAdd.Lane` | include/polarssl/bn_mul.h:70-131 | in either order of its 64-bit sums a limb of that program never wraps |
| `SkipSpace.SkipTrailingSpace` | include/mysql/m_string.h:263-287 | for every buffer, length, address, a null one included, and byte order the word-wise scan ends where the byte-wise trim does, reading only inside the buffer |
| `SkipSpace.SkipWords` | include/mysql/m_string.h:278-282 | the aligned word loop skips only spaces and stays between the aligned ends |
| `SkipSpace.TrimEndSpec` | include/mysql/m_string.h:263-287 | what the trimmed end is: only spaces follow and no space is right before it |
| `SkipSpace.WordInjective` | include/mysql/m_string.h:280-281 | a word equals the space word only if all its bytes are spaces, on both byte orders |
| `SkipSpace.SpaceConstants` | include/mysql/m_string.h:220-227 | the space words for 4-byte and 8-byte ints are the constants of the header |
| `Utf8.LeadOfEncoding` | app/iconv/charset.cpp:9-26 | on a character encoded as in section 3 of RFC 3629 the lead byte announces the encoded length |
| `Utf8.EncodingReads` | app/iconv/charset.cpp:9-26 | the encoding the other laws use is the one of RFC 3629: it reads back as its code point by the bits of its bytes |
| `Utf8.FindWord` | app/iconv/charset.cpp:28-54 | the binary search terminates and answers 1 exactly for the words of a sorted table, equal neighbours allowed |
| `Utf8.CountWords` | app/iconv/charset.cpp:56-74 | the scan adds one for each three-byte lead position whose word is in the table |
| `Utf8.VisitsBoundaries` | app/iconv/charset.cpp:56-74 | on well-formed text the scan visits exactly the character boundaries, up to those in the last two bytes |
| `Utf8.CountIsOccurrences` | app/iconv/charset.cpp:56-74 | on well-formed text the count is the number of three-byte characters that are in the table |
| `Utf8.OccurrencesAreCounts` | app/iconv/charset.cpp:56-74 | if the table is itself the encoding of three-byte characters, that is the number of characters of the text among them |
| `Utf8.CountChinese` | app/iconv/charset.cpp:56-74 | the counting routine returns that number for every well-formed text |
| `Utf8.CharsSorted` | app/iconv/charset.cpp:28-54 | characters in code point order make a sorted table |

## Left out

- Parsing.Construct: names must be non-empty and free of NUL bytes, as the lookup needs them.
- Parsing.FromString: the template is a new one; constructing into a used one would lose its old lists in C.
- Parsing.Construct: at the root the look-back of the section test could read the byte before the buffer; the model tests the position first there.
- Templates.Template.SetSection: an empty text written over a section that is a single field node is excluded, because the C code then copies through the node's null text pointer.
- Templates.Template: the node list and section list of a level are sequences, so moving the two local tail pointers of the parser and of the copy is not modelled; the chains of added content are linked.
- Resetting.ResetRestores: is the form for runs that replace no section; `Edits.ResetRestoresBut` is the one for all runs.
- Cloning.Copy: keys must be non-empty and NUL-free, as they are after parsing such a text (`Naming.RunNamed`); the added content of the copied root itself is not copied, as in C.
- Decimal.UnsignedIff: unsigned values above 2^31 are written wrongly by the code; the model says so and goes no further.
- Blocks of nodes, which are allocated for exactly their text, memory release, and int overflow of lengths.
- Files and descriptors: `tpl_save_as`, `tpl_write`, `tpl_out`, the `*_from_file` functions, and the opening and reading in `tpl_load`; bytes are taken as given.
- `tpl_set_field_double*`, `tpl_set_field_fmt*`: floating point and vsnprintf formatting.
- `tpl_section_length`, `tpl_get_section_content`: `Output.Length` and `Output.GetContent` on the selected level.
- The other assembly forms of bn_mul.h: instruction sets, not arithmetic.
- `charset_radar` and the content of the character table in app/iconv: the table is any sorted one.
- The jencode, net_tools and servlet programs and all other headers: I/O, user interface and declarations.
