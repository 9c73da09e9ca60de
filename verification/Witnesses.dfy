/** Concrete template texts: on most of them an operation does not do what its documentation says. */
module Witnesses {
  import opened Search
  import opened Names
  import opened Markup
  import opened Items
  import opened Tree
  import opened Render
  import opened Ops
  import opened Runs
  import opened Appending
  import opened Effects
  import opened Edits

  // --- a text where a global set reaches no field at all

  lemma BuildFieldAndSection(field: string, name: string, body: seq<Item>, sub: Tpl)
    requires Build(EMPTY, body) == Some(sub)
    ensures Build(EMPTY, [Field(field), Section(name, body)])
      == Some(Tpl([FieldNode(0)], [Cell(field, "")], [Sec(name, 1, sub)], [], []))
  {
    var items := [Field(field), Section(name, body)];
    assert items[1..] == [Section(name, body)] && items[1..][1..] == [];
    var t := AddField(EMPTY, field);
    assert CellKeys([]) == [] && SecKeys([]) == [];
    assert t == Tpl([FieldNode(0)], [Cell(field, "")], [], [], []);
    assert items[1..][0].body == body;
    assert Build(AddSection(t, name, sub), items[1..][1..]) == Some(AddSection(t, name, sub));
    assert Build(t, items[1..]) == Some(AddSection(t, name, sub));
    assert t.secs + [Sec(name, 1, sub)] == [Sec(name, 1, sub)];
    assert Build(EMPTY, items) == Build(AddField(EMPTY, field), items[1..]);
  }

  /** A field and a section can stand in a text when the section's tag is not in its body. */
  lemma CanonicalOne(field: string, name: string, body: seq<Item>)
    requires '>' !in field && '>' !in name && !Occurs(Source(body), Tag(name)) && Canonical(body)
    ensures Canonical([Field(field), Section(name, body)])
  {
    var items := [Field(field), Section(name, body)];
    hide Occurs, Tag, Source;
    assert items[1..] == [Section(name, body)] && items[1..][1..] == [];
    assert Canonical(items[1..][1..]) && Canonical(items[1..]);
  }

  /** Without a character of the name in the body, the tag is not there either. */
  lemma NotWithin(s: string, name: string)
    requires name != "" && name[0] !in s
    ensures !Occurs(s, Tag(name))
  {
    if Occurs(s, Tag(name)) {
      var d: nat :| d <= |s| && OccursAt(s, d, Tag(name));
      NameWithin(s, name, d);
    }
  }

  lemma NameWithin(s: string, name: string, d: nat)
    requires OccursAt(s, d, Tag(name)) && name != ""
    ensures name[0] in s
  {
    assert s[d + 7] == s[d..d + |Tag(name)|][7] == name[0];
  }

  /** A field and a section at the root, the same field and another section in it. */
  function Nested(key: string, a: string, b: string): Tpl {
    Tpl([FieldNode(0)], [Cell(key, "")], [Sec(a, 1, Tpl([FieldNode(0)], [Cell(key, "")], [Sec(b, 1, EMPTY)], [], []))],
        [], [])
  }

  /** The same with the inner section selected. */
  function Entered(key: string, a: string, b: string): Tpl {
    Tpl([FieldNode(0)], [Cell(key, "")], [Sec(a, 1, Tpl([FieldNode(0)], [Cell(key, "")], [Sec(b, 1, EMPTY)], [], [0]))],
        [], [0, 0])
  }

  lemma SelectsOne(t: Tpl, name: string)
    requires HasPath(t, t.sel) && var s := Sub(t, t.sel); |s.secs| == 1 && s.secs[0].key == name
    ensures Select(t, name).0 == Replace(t, t.sel, Sub(t, t.sel).(sel := [0])).(sel := t.sel + [0])
  {
    assert SecKeys(Sub(t, t.sel).secs) == [name];
    LookupOnly(name);
  }

  lemma AllSelOne(t: Tpl)
    requires HasPath(t, t.sel) && forall i | 0 <= i < |t.secs| :: i == 0 && AllSel(t.secs[i].tpl)
    ensures AllSel(t)
  {
  }

  lemma SelectsBoth(key: string, a: string, b: string)
    ensures var t, ops := Nested(key, a, b), [SelectOp(a), SelectOp(b)];
      AllowedRun(t, ops) && Run(t, ops) == Entered(key, a, b)
  {
    hide Lookup, Select, Run, AllowedRun;
    var t := Nested(key, a, b);
    SelectsOne(t, a);
    var u := t.(sel := [0]);
    assert [] + [0] == [0];
    assert Select(t, a).0 == u;
    SelectsOne(u, b);
    assert [0] + [0] == [0, 0];
    assert Select(u, b).0 == Entered(key, a, b);
    AllSelOne(t.secs[0].tpl.secs[0].tpl);
    AllSelOne(t.secs[0].tpl);
    AllSelOne(t);
    AllSelOne(u);
    RunTwo(t, SelectOp(a), SelectOp(b));
  }

  /** Only the inner section is written to, and it has no field. */
  lemma GlobalStays(key: string, a: string, b: string, val: string)
    ensures var u := Entered(key, a, b); AllSel(u) && SetGlobal(u, key, val) == u
  {
    var u := Entered(key, a, b);
    var c := u.secs[0].tpl;
    AllSelOne(EMPTY);
    AllSelOne(c);
    AllSelOne(u);
    SetsNothing(EMPTY, key, val);
    SetsNothing(c, key, val);
    SetsNothing(u, key, val);
  }

  lemma SetsNothing(t: Tpl, key: string, val: string)
    requires AllSel(t) && Sub(t, t.sel).cells == [] && |t.secs| <= 1
    requires t.secs != [] ==> AllSel(t.secs[0].tpl) && SetGlobal(t.secs[0].tpl, key, val) == t.secs[0].tpl
    ensures SetGlobal(t, key, val) == t
  {
    assert CellKeys([]) == [];
    ReplaceSame(t, t.sel);
    assert SetGlobal(t, key, val).secs == t.secs;
  }

  /** A text with the field K at the root and in section A, which contains section B: with B selected, a
      global set of K leaves the whole template as it is. */
  lemma {:induction false} GlobalMisses(val: string)
    ensures var items := [Field("K"), Section("A", [Field("K"), Section("B", [])])];
      Scan(Source(items)) == Some(items) && Parse(Source(items)).Some?
      && var t := Parse(Source(items)).value; var ops := [SelectOp("A"), SelectOp("B")];
      && AllowedRun(t, ops) && var u := Run(t, ops);
      && u.sel == [0, 0] && AllSel(u) && SetGlobal(u, "K", val) == u
      && CellKeys(u.cells) == CellKeys(Sub(u, [0]).cells) == ["K"]
  {
    MissesField("K", "A", "B", val);
  }

  lemma BodySource(key: string, b: string)
    ensures Source([Field(key), Section(b, [])]) == LEFT + key + RIGHT + (Tag(b) + Tag(b))
  {
    var body := [Field(key), Section(b, [])];
    assert body[1..] == [Section(b, [])] && body[1..][1..] == [];
    assert Source(body[1..]) == Tag(b) + "" + Tag(b) + "";
  }

  lemma MissesField(key: string, a: string, b: string, val: string)
    requires '>' !in key && '>' !in a && '>' !in b && a != "" && b != ""
    requires a[0] !in LEFT + key + RIGHT && a[0] !in Tag(b)
    ensures var items := [Field(key), Section(a, [Field(key), Section(b, [])])];
      Scan(Source(items)) == Some(items) && Parse(Source(items)) == Some(Nested(key, a, b))
      && var t := Nested(key, a, b); var ops := [SelectOp(a), SelectOp(b)];
      && AllowedRun(t, ops) && Run(t, ops) == Entered(key, a, b)
      && AllSel(Entered(key, a, b)) && SetGlobal(Entered(key, a, b), key, val) == Entered(key, a, b)
  {
    hide Run, AllowedRun, SetGlobal, AllSel, Occurs, Tag;
    var body := [Field(key), Section(b, [])];
    assert Build(EMPTY, []) == Some(EMPTY) && Canonical([]) && Source([]) == "";
    BodySource(key, b);
    NotWithin("", b);
    NotWithin(Source(body), a);
    BuildFieldAndSection(key, b, [], EMPTY);
    BuildFieldAndSection(key, a, body, Nested(key, a, b).secs[0].tpl);
    CanonicalOne(key, b, []);
    CanonicalOne(key, a, body);
    CanonicalScans([Field(key), Section(a, body)]);
    SelectsBoth(key, a, b);
    GlobalStays(key, a, b, val);
  }

  // --- texts with one section

  /** A section and nothing else. */
  function OneSection(name: string, sub: Tpl): Tpl {
    Tpl([], [], [Sec(name, 0, sub)], [], [])
  }

  lemma ParsesOneSection(name: string, item: Item, sub: Tpl)
    requires '>' !in name && name != "" && name[0] !in ItemSource(item)
    requires Canonical([item]) && Build(EMPTY, [item]) == Some(sub)
    ensures var items := [Section(name, [item])];
      Scan(Source(items)) == Some(items) && Parse(Source(items)) == Some(OneSection(name, sub))
  {
    hide Occurs, Tag, Canonical, Source, Scan, Build;
    SourceOne(item);
    NotWithin(Source([item]), name);
    CanonicalSection(name, [item]);
    CanonicalScans([Section(name, [item])]);
    BuildSection(name, [item], sub);
  }

  lemma BuildSection(name: string, body: seq<Item>, sub: Tpl)
    requires Build(EMPTY, body) == Some(sub)
    ensures Build(EMPTY, [Section(name, body)]) == Some(OneSection(name, sub))
  {
    var items := [Section(name, body)];
    assert items[1..] == [] && SecKeys([]) == [] && items[0].body == body;
    assert AddSection(EMPTY, name, sub) == OneSection(name, sub);
    assert Build(AddSection(EMPTY, name, sub), items[1..]) == Some(OneSection(name, sub));
  }

  lemma CanonicalSection(name: string, body: seq<Item>)
    requires '>' !in name && !Occurs(Source(body), Tag(name)) && Canonical(body)
    ensures Canonical([Section(name, body)])
  {
    hide Occurs, Tag, Source;
    assert [Section(name, body)][1..] == [];
    assert Canonical([]);
  }

  /** Section S holds x. Replaced by y, it is still y after a reset, so a reset does not always give back
      what was parsed. */
  lemma {:induction false} ReplacementStays()
    ensures var items := [Section("S", [Text("x")])]; var ops := [SetSectionOp("S", "y")];
      Parse(Source(items)).Some?
      && var t := Parse(Source(items)).value;
      && AllowedRun(t, ops) && var u := Reset(Run(t, ops));
      && HasPath(t, [0]) && HasPath(u, [0]) && Content(Sub(t, [0])) == "x" && Content(Sub(u, [0])) == "y"
  {
    StaysReplaced("S", "x", "y");
  }

  lemma StaysReplaced(name: string, x: string, y: string)
    requires '>' !in name && name != "" && name[0] !in x && x != "" && !Occurs(x, LEFT)
    ensures var items := [Section(name, [Text(x)])]; var ops := [SetSectionOp(name, y)];
      Parse(Source(items)).Some?
      && var t := Parse(Source(items)).value;
      && AllowedRun(t, ops) && var u := Reset(Run(t, ops));
      && HasPath(t, [0]) && HasPath(u, [0]) && Content(Sub(t, [0])) == x && Content(Sub(u, [0])) == y
  {
    hide Lookup, Content, Parse, Source, Build, Reset, Run, AllowedRun, EditsOf, Canonical, Tag, ItemSource;
    var items, ops := [Section(name, [Text(x)])], [SetSectionOp(name, y)];
    ParsesText(name, x);
    TextLevelContent(x);
    EditsTheSection(name, x, y);
    ResetRestoresBut(Source(items), ops, [0]);
  }

  lemma ParsesText(name: string, x: string)
    requires '>' !in name && name != "" && name[0] !in x && x != "" && !Occurs(x, LEFT)
    ensures Parse(Source([Section(name, [Text(x)])])) == Some(OneSection(name, TextLevel(x)))
  {
    hide Occurs, Tag, Parse, Source, Scan;
    assert [Text(x)][1..] == [] && Canonical([]);
    assert AddText(EMPTY, x) == TextLevel(x) && Build(AddText(EMPTY, x), []) == Some(TextLevel(x));
    ParsesOneSection(name, Text(x), TextLevel(x));
  }

  lemma EditsTheSection(name: string, x: string, y: string)
    ensures var t, ops := OneSection(name, TextLevel(x)), [SetSectionOp(name, y)];
      AllowedRun(t, ops) && EditsOf(t, ops) == [Edit([0], y)] && LastEdit([Edit([0], y)], [0]) == Some(Edit([0], y))
  {
    hide Lookup, AllowedRun, EditsOf;
    var t := OneSection(name, TextLevel(x));
    AllSelOne(t.secs[0].tpl);
    AllSelOne(t);
    assert SecKeys(t.secs) == [name];
    LookupOnly(name);
    EditsOfOne(t, SetSectionOp(name, y));
    assert [] + [0] == [0];
  }

  /** Section S holds nothing but a field: an empty text for it would be copied through a null pointer. */
  lemma {:induction false} EmptyNotAllowed()
    ensures var items := [Section("S", [Field("F")])];
      Parse(Source(items)).Some?
      && var t := Parse(Source(items)).value;
      HasPath(t, t.sel) && WritesThroughNull(t, "S", "") && !SetSectionAllowed(t, "S", "")
  {
    NotAllowedEmpty("S", "F");
  }

  lemma NotAllowedEmpty(name: string, field: string)
    requires '>' !in name && '>' !in field && name != "" && name[0] !in LEFT + field + RIGHT
    ensures var items := [Section(name, [Field(field)])];
      Parse(Source(items)).Some?
      && var t := Parse(Source(items)).value;
      HasPath(t, t.sel) && WritesThroughNull(t, name, "") && !SetSectionAllowed(t, name, "")
  {
    var sub := Tpl([FieldNode(0)], [Cell(field, "")], [], [], []);
    assert [Field(field)][1..] == [] && CellKeys([]) == [];
    assert Build(EMPTY, [Field(field)]) == Some(AddField(EMPTY, field)) && AddField(EMPTY, field) == sub;
    assert Canonical([Field(field)]);
    ParsesOneSection(name, Field(field), sub);
    LookupOnly(name);
    assert SecKeys(OneSection(name, sub).secs) == [name];
  }

  // --- a text that is rendered from its one section

  /** Of a text that is one section nothing is rendered, until the section is selected and appended. */
  lemma {:induction false} AppendRenders()
    ensures var src, ops := "<!-- $<S> -->x<!-- $<S> -->", [SelectOp("S"), AppendOp];
      Parse(src).Some?
      && var t := Parse(src).value;
      Content(t) == "" && AllowedRun(t, ops) && Content(Run(t, ops)) == "x"
  {
    hide Parse, Content, Run, AllowedRun, Lookup, Occurs;
    OneLetter();
    NoDelimiter("x");
    RendersAppended("S", "x");
  }

  lemma OneLetter()
    ensures Source([Section("S", [Text("x")])]) == "<!-- $<S> -->x<!-- $<S> -->"
  {
    SourceOfOne("S", "x");
    hide Source;
    assert Tag("S") == "<!-- $<S> -->";
  }

  lemma SourceOfOne(name: string, x: string)
    ensures Source([Section(name, [Text(x)])]) == Tag(name) + x + Tag(name)
  {
    SourceOne(Section(name, [Text(x)]));
    SourceOne(Text(x));
  }

  lemma NoDelimiter(s: string)
    requires |s| < 2
    ensures !Occurs(s, LEFT)
  {
  }

  lemma RendersAppended(name: string, x: string)
    requires '>' !in name && name != "" && name[0] !in x && x != "" && !Occurs(x, LEFT)
    ensures var items, ops := [Section(name, [Text(x)])], [SelectOp(name), AppendOp];
      Parse(Source(items)).Some?
      && var t := Parse(Source(items)).value;
      Content(t) == "" && AllowedRun(t, ops) && Content(Run(t, ops)) == x
  {
    hide Lookup, Content, Parse, Source, Run, AllowedRun, Tag, Inserted, WellFormed;
    var t := OneSection(name, TextLevel(x));
    ParsesText(name, x);
    ParsedInvariant(Source([Section(name, [Text(x)])]));
    InvariantPath(t);
    assert SecKeys(t.secs) == [name];
    LookupOnly(name);
    SelectAppendShows(t, name, 0);
    TextLevelContent(x);
    EmptyBefore(name, TextLevel(x));
    InsertAll(x);
  }

  lemma EmptyBefore(name: string, sub: Tpl)
    requires sub.added == []
    ensures Content(OneSection(name, sub)) == "" && EndOf(OneSection(name, sub), 0) == 0
  {
    var t := OneSection(name, sub);
    assert Concat([]) == "" && ContentTo(t, 0, 0) == "" && ContentTo(t, 0, 1) == "" + "";
  }

  lemma InsertAll(x: string)
    ensures Inserted("", 0, x) == x
  {
  }
}
