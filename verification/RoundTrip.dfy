/** Text to tree to text, and tree to text to tree. */
module RoundTrip {
  import opened Search
  import opened Names
  import opened Items
  import opened Tree

  // --- cell numbers stay in range

  lemma {:induction false} CellsMetBounds(nodes: seq<Node>, n: nat)
    requires n <= |nodes|
    ensures CellsMet(nodes[..n]) <= CellsMet(nodes)
    ensures n < |nodes| && nodes[n].FieldNode? ==> nodes[n].cell < CellsMet(nodes)
    decreases |nodes|
  {
    if n == |nodes| {
      assert nodes[..n] == nodes;
    } else {
      var init := nodes[..|nodes| - 1];
      if n < |init| {
        CellsMetBounds(init, n);
        assert init[..n] == nodes[..n];
      }
    }
  }

  lemma CellInRange(t: Tpl, n: nat)
    requires CellsMet(t.nodes) <= |t.cells| && n < |t.nodes| && t.nodes[n].FieldNode?
    ensures t.nodes[n].cell < |t.cells|
  {
    CellsMetBounds(t.nodes, n);
  }

  // --- reading back what was added

  /** Two levels that agree up to node n and section i read the same up to there. */
  lemma {:induction false} OutlineSame(t: Tpl, u: Tpl, n: nat, i: nat)
    requires n <= |t.nodes| && n <= |u.nodes| && i <= |t.secs| && i <= |u.secs|
    requires t.nodes[..n] == u.nodes[..n] && t.secs[..i] == u.secs[..i]
    requires |t.cells| <= |u.cells| && forall c | 0 <= c < |t.cells| :: t.cells[c].key == u.cells[c].key
    requires forall k | 0 <= k < n && t.nodes[k].FieldNode? :: t.nodes[k].cell < |t.cells|
    ensures OutlineTo(t, n, i) == OutlineTo(u, n, i)
    decreases n + i
  {
    if i > 0 {
      assert t.secs[i - 1] == t.secs[..i][i - 1] == u.secs[i - 1];
    }
    if i > 0 && t.secs[i - 1].pos >= n {
      assert t.secs[..i - 1] == t.secs[..i][..i - 1] == u.secs[..i - 1];
      OutlineSame(t, u, n, i - 1);
    } else if n > 0 {
      assert t.nodes[n - 1] == t.nodes[..n][n - 1] == u.nodes[n - 1];
      assert t.nodes[..n - 1] == t.nodes[..n][..n - 1] == u.nodes[..n - 1];
      OutlineSame(t, u, n - 1, i);
    }
  }

  lemma OutlineGrows(t: Tpl, u: Tpl)
    requires WellFormed(t)
    requires t.nodes <= u.nodes && t.secs <= u.secs
    requires |t.cells| <= |u.cells| && forall c | 0 <= c < |t.cells| :: t.cells[c].key == u.cells[c].key
    ensures OutlineTo(u, |t.nodes|, |t.secs|) == Outline(t)
  {
    forall k | 0 <= k < |t.nodes| && t.nodes[k].FieldNode? ensures t.nodes[k].cell < |t.cells| {
      CellInRange(t, k);
    }
    OutlineSame(t, u, |t.nodes|, |t.secs|);
  }

  /** A node appended to a level comes last. */
  lemma OutlineNode(t: Tpl, u: Tpl)
    requires WellFormed(t) && |u.nodes| == |t.nodes| + 1 && t.nodes <= u.nodes && t.secs == u.secs
    requires |t.cells| <= |u.cells| && forall c | 0 <= c < |t.cells| :: t.cells[c].key == u.cells[c].key
    ensures Outline(u) == Outline(t) + [NodeItem(u, u.nodes[|t.nodes|])]
  {
    OutlineGrows(t, u);
    if |t.secs| > 0 { assert t.secs[|t.secs| - 1].pos <= |t.nodes|; }
  }

  // --- building keeps a level well formed

  lemma NumberedExtended(nodes: seq<Node>, node: Node)
    requires Numbered(nodes) && (node.FieldNode? ==> node.cell <= CellsMet(nodes))
    ensures Numbered(nodes + [node])
    ensures CellsMet(nodes + [node]) == if node.FieldNode?
      && node.cell == CellsMet(nodes) then CellsMet(nodes) + 1 else CellsMet(nodes)
  {
    var all := nodes + [node];
    assert all[..|nodes|] == nodes;
    forall n | 0 <= n < |all| && all[n].FieldNode?
      ensures all[n].cell <= CellsMet(all[..n])
    {
      assert all[..n] == nodes[..n];
    }
  }

  lemma AddTextKeeps(t: Tpl, s: string)
    requires WellFormed(t)
    ensures WellFormed(AddText(t, s)) && Outline(AddText(t, s)) == Outline(t) + [Text(s)]
  {
    NumberedExtended(t.nodes, TextNode(s));
    OutlineNode(t, AddText(t, s));
  }

  lemma AddFieldKeeps(t: Tpl, name: string)
    requires WellFormed(t)
    ensures var u := AddField(t, name); var keys := CellKeys(t.cells);
      && WellFormed(u) && CellKeys(u.cells) == Produced(keys, name)
      && Outline(u) == Outline(t) + [Field(Captured(keys, name))]
  {
    var u, keys := AddField(t, name), CellKeys(t.cells);
    LookupSpec(keys, name);
    NumberedExtended(t.nodes, u.nodes[|t.nodes|]);
    if Lookup(keys, name).None? {
      SeparateExtended(keys, name);
      assert CellKeys(u.cells) == keys + [name];
    }
    OutlineNode(t, u);
  }

  lemma AddSectionKeeps(t: Tpl, name: string, sub: Tpl)
    requires WellFormed(t) && WellFormed(sub) && Lookup(SecKeys(t.secs), name).None?
    ensures var u := AddSection(t, name, sub); WellFormed(u) && SecKeys(u.secs) == SecKeys(t.secs) + [name]
    ensures Outline(AddSection(t, name, sub)) == Outline(t) + [Section(name, Outline(sub))]
  {
    SeparateExtended(SecKeys(t.secs), name);
    assert SecKeys(AddSection(t, name, sub).secs) == SecKeys(t.secs) + [name];
    OutlineGrows(t, AddSection(t, name, sub));
    assert Outline(AddSection(t, name, sub)) == Outline(t) + [Section(name, Outline(sub))];
  }

  // --- what a built level reads as

  /** The items with every field name replaced by the name of the cell that answers for it. */
  function Renamed(keys: seq<string>, items: seq<Item>): seq<Item>
    decreases items
  {
    if items == [] then []
    else
      match items[0]
      case Text(s) => [items[0]] + Renamed(keys, items[1..])
      case Field(name) => [Field(Captured(keys, name))] + Renamed(Produced(keys, name), items[1..])
      case Section(name, body) => [Section(name, Renamed([], body))] + Renamed(keys, items[1..])
  }

  lemma KeepsPristine(t: Tpl, item: Item, sub: Tpl)
    requires Pristine(t) && Pristine(sub)
    ensures item.Text? ==> Pristine(AddText(t, item.s))
    ensures item.Field? ==> Pristine(AddField(t, item.name))
    ensures item.Section? ==> Pristine(AddSection(t, item.name, sub))
  {
  }

  /** A built level is well formed and pristine, and reads as its items, renamed. */
  lemma {:induction false} BuildReads(t: Tpl, items: seq<Item>)
    requires WellFormed(t) && Pristine(t) && Build(t, items).Some?
    ensures var u := Build(t, items).value;
      WellFormed(u) && Pristine(u) && Outline(u) == Outline(t) + Renamed(CellKeys(t.cells), items)
    decreases items
  {
    if items == [] {
      assert Outline(t) + [] == Outline(t);
    } else {
      var rest := items[1..];
      match items[0] {
        case Text(s) =>
          AddTextKeeps(t, s);
          KeepsPristine(t, items[0], EMPTY);
          BuildReads(AddText(t, s), rest);
          Associate(Outline(t), [items[0]], Renamed(CellKeys(t.cells), rest));
        case Field(name) =>
          AddFieldKeeps(t, name);
          KeepsPristine(t, items[0], EMPTY);
          BuildReads(AddField(t, name), rest);
          Associate(Outline(t), [Field(Captured(CellKeys(t.cells), name))],
            Renamed(Produced(CellKeys(t.cells), name), rest));
        case Section(name, body) =>
          EmptyLevel();
          BuildReads(EMPTY, body);
          var sub := Build(EMPTY, body).value;
          AddSectionKeeps(t, name, sub);
          KeepsPristine(t, items[0], sub);
          BuildReads(AddSection(t, name, sub), rest);
          assert [] + Renamed([], body) == Renamed([], body);
          Associate(Outline(t), [Section(name, Renamed([], body))], Renamed(CellKeys(t.cells), rest));
      }
    }
  }

  lemma EmptyLevel()
    ensures WellFormed(EMPTY) && Pristine(EMPTY) && Outline(EMPTY) == [] && CellKeys(EMPTY.cells) == []
      && SecKeys(EMPTY.secs) == []
  {
  }

  // --- text to tree to text

  /** The names of the fields of a level, in order. */
  function FieldNames(items: seq<Item>): seq<string> {
    if items == [] then []
    else (if items[0].Field? then [items[0].name] else []) + FieldNames(items[1..])
  }

  /** At every level, no field name properly begins an earlier one of its bucket unless it was met before that one. */
  predicate FieldsClear(items: seq<Item>)
    decreases items, 1
  {
    NamesClear(FieldNames(items)) && BodiesClear(items)
  }

  predicate BodiesClear(items: seq<Item>)
    decreases items, 0
  {
    items != [] ==> BodiesClear(items[1..]) && (items[0].Section? ==> FieldsClear(items[0].body))
  }

  lemma {:induction false} RenamedIff(keys: seq<string>, items: seq<Item>)
    ensures Renamed(keys, items) == items <==> AllExact(keys, FieldNames(items)) && BodiesClear(items)
    decreases items
  {
    if items != [] {
      var rest := items[1..];
      assert items == [items[0]] + rest;
      match items[0] {
        case Text(s) =>
          assert FieldNames(items) == FieldNames(rest);
          RenamedIff(keys, rest);
        case Field(name) =>
          assert FieldNames(items)[1..] == FieldNames(rest);
          RenamedIff(Produced(keys, name), rest);
        case Section(name, body) =>
          assert FieldNames(items) == FieldNames(rest);
          RenamedIff(keys, rest);
          RenamedIff([], body);
          AllExactIff(FieldNames(body));
      }
    }
  }

  /** A captured name is never shorter, so renaming can only lengthen the text. */
  lemma {:induction false} RenamedLonger(keys: seq<string>, items: seq<Item>)
    ensures |Source(Renamed(keys, items))| >= |Source(items)|
    ensures |Source(Renamed(keys, items))| == |Source(items)| ==> Renamed(keys, items) == items
    decreases items
  {
    if items != [] {
      var rest := items[1..];
      assert items == [items[0]] + rest;
      match items[0] {
        case Text(s) =>
          RenamedLonger(keys, rest);
        case Field(name) =>
          LookupSpec(keys, name);
          assert |name| == |Captured(keys, name)| ==> name == Captured(keys, name);
          RenamedLonger(Produced(keys, name), rest);
        case Section(name, body) =>
          RenamedLonger(keys, rest);
          RenamedLonger([], body);
      }
    }
  }

  lemma {:induction false} ParseReads(r: string)
    requires Parse(r).Some?
    ensures var t := Parse(r).value; WellFormed(t) && Pristine(t) && Outline(t) == Renamed([], Scan(r).value)
  {
    EmptyLevel();
    BuildReads(EMPTY, Scan(r).value);
    assert [] + Renamed([], Scan(r).value) == Renamed([], Scan(r).value);
  }

  /** A parsed template prints back to its own text if and only if its field names are clear. */
  lemma {:induction false} TextRoundTripIff(r: string)
    requires Parse(r).Some?
    ensures Print(Parse(r).value) == r <==> FieldsClear(Scan(r).value)
  {
    var items := Scan(r).value;
    ScanSound(r);
    ParseReads(r);
    RenamedIff([], items);
    AllExactIff(FieldNames(items));
    RenamedLonger([], items);
  }

  /** "$<aC>$<a>" is such a text that is not printed back: the second field is captured by the first. */
  lemma {:induction false} CapturedField(items: seq<Item>)
    requires |items| == 2 && items[0].Field? && items[1].Field? && items[0].name == "aC" && items[1].name == "a"
    ensures Source(items) == "$<aC>$<a>" && Scan(Source(items)) == Some(items) && Parse(Source(items)).Some?
    ensures Print(Parse(Source(items)).value) != Source(items)
  {
    assert Source(items) == "$<aC>$<a>" by { TwoFieldsSource(items); }
    hide Source;
    var names := FieldNames(items);
    assert items[1..] == [items[1]] && [items[1]][1..] == [];
    assert FieldNames([items[1]]) == [items[1].name];
    assert names == [items[0].name, items[1].name];
    assert Canonical([items[1]]);
    CanonicalScans(items);
    ShadowedLookup(items[0].name, items[1].name);
    assert Hit(names[0], names[1]) && names[..0] == [];
    TwoFieldsBuild(items);
    hide Hash, Parse, Print, Scan;
    TextRoundTripIff(Source(items));
  }

  lemma TwoFieldsBuild(items: seq<Item>)
    requires |items| == 2 && items[0].Field? && items[1].Field?
    ensures Build(EMPTY, items).Some?
  {
    assert items[1..][1..] == [];
    hide AddField;
    var t := AddField(AddField(EMPTY, items[0].name), items[1].name);
    assert Build(t, []).Some?;
    assert Build(AddField(EMPTY, items[0].name), items[1..]) == Build(t, items[1..][1..]);
  }

  // --- tree to text to tree

  /** The level as it was when it had n nodes and i sections. */
  function Front(t: Tpl, n: nat, i: nat): Tpl
    requires n <= |t.nodes| && i <= |t.secs| && CellsMet(t.nodes[..n]) <= |t.cells|
  {
    Tpl(t.nodes[..n], t.cells[..CellsMet(t.nodes[..n])], t.secs[..i], [], [])
  }

  lemma FrontNode(t: Tpl, n: nat, i: nat)
    requires WellFormed(t) && Pristine(t) && n < |t.nodes| && i <= |t.secs|
    ensures CellsMet(t.nodes[..n]) <= |t.cells| && CellsMet(t.nodes[..n + 1]) <= |t.cells|
    ensures Build(Front(t, n, i), [NodeItem(t, t.nodes[n])]) == Some(Front(t, n + 1, i))
  {
    assert Numbered(t.nodes) && CellsMet(t.nodes) == |t.cells| && Separate(CellKeys(t.cells));
    hide Build, WellFormed, CellsMet, Numbered, Separate;
    NextMet(t.nodes, n);
    assert t.nodes[..n + 1] == t.nodes[..n] + [t.nodes[n]];
    BuildItem(Front(t, n, i), NodeItem(t, t.nodes[n]));
    if t.nodes[n].FieldNode? {
      FrontCell(t.cells, CellsMet(t.nodes[..n]), t.nodes[n].cell);
    }
  }

  /** A node refers to a cell met before, or to the next one. */
  lemma NextMet(nodes: seq<Node>, n: nat)
    requires Numbered(nodes) && n < |nodes|
    ensures var m, next := CellsMet(nodes[..n]), CellsMet(nodes[..n + 1]);
      && m <= CellsMet(nodes) && next <= CellsMet(nodes)
      && match nodes[n]
         case TextNode(_) => next == m
         case FieldNode(c) => c <= m && c < CellsMet(nodes) && next == if c == m then m + 1 else m
  {
    CellsMetBounds(nodes, n);
    CellsMetBounds(nodes, n + 1);
    var front := nodes[..n + 1];
    assert front[..|front| - 1] == nodes[..n];
  }

  /** A cell met before is found again, and the next cell is created where it was. */
  lemma FrontCell(cells: seq<Cell>, m: nat, c: nat)
    requires Separate(CellKeys(cells)) && c <= m <= |cells| && c < |cells|
    requires forall x <- cells :: x.val == ""
    ensures c < m ==> Lookup(CellKeys(cells[..m]), cells[c].key) == Some(c)
    ensures c == m ==> Lookup(CellKeys(cells[..m]), cells[c].key) == None
    ensures c == m ==> cells[..m + 1] == cells[..m] + [Cell(cells[c].key, "")]
  {
    var keys := CellKeys(cells);
    assert CellKeys(cells[..m]) == keys[..m];
    if c < m {
      StoredFound(keys, c, m);
    } else {
      NewMissed(keys, c);
      assert cells[c] in cells;
    }
  }

  lemma BuildItem(t: Tpl, item: Item)
    ensures item.Text? ==> Build(t, [item]) == Some(AddText(t, item.s))
    ensures item.Field? ==> Build(t, [item]) == Some(AddField(t, item.name))
    ensures item.Section? && Lookup(SecKeys(t.secs), item.name).None? && Build(EMPTY, item.body).Some?
            ==> Build(t, [item]) == Some(AddSection(t, item.name, Build(EMPTY, item.body).value))
  {
    assert [item][1..] == [];
  }

  lemma FrontSection(t: Tpl, n: nat, i: nat)
    requires Separate(SecKeys(t.secs)) && n <= |t.nodes| && i < |t.secs| && t.secs[i].pos == n
    requires CellsMet(t.nodes[..n]) <= |t.cells|
    requires Build(EMPTY, Outline(t.secs[i].tpl)) == Some(t.secs[i].tpl)
    ensures Build(Front(t, n, i), [Section(t.secs[i].key, Outline(t.secs[i].tpl))]) == Some(Front(t, n, i + 1))
  {
    var front, keys, item := Front(t, n, i), SecKeys(t.secs), Section(t.secs[i].key, Outline(t.secs[i].tpl));
    BuildItem(front, item);
    hide Build, Outline, CellsMet, Separate;
    assert SecKeys(front.secs) == keys[..i];
    NewMissed(keys, i);
    assert t.secs[..i + 1] == t.secs[..i] + [t.secs[i]];
  }

  lemma {:induction false} RebuildTo(t: Tpl, n: nat, i: nat)
    requires WellFormed(t) && Pristine(t) && n <= |t.nodes| && i <= |t.secs|
    requires i > 0 ==> t.secs[i - 1].pos <= n
    ensures CellsMet(t.nodes[..n]) <= |t.cells|
    ensures Build(EMPTY, OutlineTo(t, n, i)) == Some(Front(t, n, i))
    decreases t, n + i
  {
    hide Build, CellsMet, Numbered, Separate, Front, Lookup, CellKeys, SecKeys;
    CellsMetBounds(t.nodes, n);
    if i > 0 && t.secs[i - 1].pos >= n {
      RebuildTo(t, n, i - 1);
      Rebuild(t.secs[i - 1].tpl);
      FrontSection(t, n, i - 1);
      BuildConcat(EMPTY, OutlineTo(t, n, i - 1), [Section(t.secs[i - 1].key, Outline(t.secs[i - 1].tpl))]);
    } else if n > 0 {
      RebuildTo(t, n - 1, i);
      FrontNode(t, n - 1, i);
      BuildConcat(EMPTY, OutlineTo(t, n - 1, i), [NodeItem(t, t.nodes[n - 1])]);
    } else {
      FrontNone(t);
    }
  }

  lemma FrontNone(t: Tpl)
    ensures CellsMet(t.nodes[..0]) == 0 && Build(EMPTY, []) == Some(Front(t, 0, 0))
  {
  }

  lemma OutlineAll(t: Tpl)
    ensures Outline(t) == OutlineTo(t, |t.nodes|, |t.secs|)
  {
  }

  lemma {:induction false} Rebuild(t: Tpl)
    requires WellFormed(t) && Pristine(t)
    ensures Build(EMPTY, Outline(t)) == Some(t)
    decreases t, |t.nodes| + |t.secs| + 1
  {
    hide Build, Outline, OutlineTo, Separate, Numbered, CellsMet;
    RebuildTo(t, |t.nodes|, |t.secs|);
    OutlineAll(t);
    assert t.nodes[..|t.nodes|] == t.nodes && t.secs[..|t.secs|] == t.secs && t.cells[..|t.cells|] == t.cells;
  }

  /** The trees that parsing their own text rebuilds are exactly the well-formed pristine ones
      whose items are canonical. */
  lemma {:induction false} TreeRoundTripIff(t: Tpl)
    ensures Parse(Print(t)) == Some(t) <==> WellFormed(t) && Pristine(t) && Canonical(Outline(t))
  {
    if WellFormed(t) && Pristine(t) && Canonical(Outline(t)) {
      CanonicalScans(Outline(t));
      Rebuild(t);
    } else if Parse(Print(t)) == Some(t) {
      var items := Scan(Print(t)).value;
      ParseReads(Print(t));
      ScanSound(Print(t));
      ScanCanonical(Print(t));
      RenamedLonger([], items);
      assert false;
    }
  }

  // --- when a scanned text is a template

  function SectionNames(items: seq<Item>): seq<string> {
    if items == [] then []
    else (if items[0].Section? then [items[0].name] else []) + SectionNames(items[1..])
  }

  /** At every level, no section name begins an earlier one of its bucket. */
  predicate SectionsSeparate(items: seq<Item>)
    decreases items, 1
  {
    Separate(SectionNames(items)) && BodiesSeparate(items)
  }

  predicate BodiesSeparate(items: seq<Item>)
    decreases items, 0
  {
    items != [] ==> BodiesSeparate(items[1..]) && (items[0].Section? ==> SectionsSeparate(items[0].body))
  }

  lemma BuildNext(t: Tpl, items: seq<Item>)
    requires items != []
    ensures items[0].Text? ==> Build(t, items) == Build(AddText(t, items[0].s), items[1..])
    ensures items[0].Field? ==> Build(t, items) == Build(AddField(t, items[0].name), items[1..])
    ensures items[0].Section? ==>
      Build(t, items) ==
      if Lookup(SecKeys(t.secs), items[0].name).Some? || Build(EMPTY, items[0].body).None? then None
      else Build(AddSection(t, items[0].name, Build(EMPTY, items[0].body).value), items[1..])
  {
  }

  lemma BodiesNext(items: seq<Item>)
    requires items != []
    ensures BodiesSeparate(items) <==>
      BodiesSeparate(items[1..])
      && (items[0].Section? ==> Separate([] + SectionNames(items[0].body)) && BodiesSeparate(items[0].body))
  {
    hide Separate, SectionNames;
    if items[0].Section? {
      var names := SectionNames(items[0].body);
      assert [] + names == names;
    }
  }

  lemma NamesNext(keys: seq<string>, items: seq<Item>)
    requires items != []
    ensures keys + SectionNames(items) ==
      (if items[0].Section? then keys + [items[0].name] else keys) + SectionNames(items[1..])
  {
    var front, rest := if items[0].Section? then [items[0].name] else [], SectionNames(items[1..]);
    assert SectionNames(items) == front + rest;
    hide SectionNames;
    Associate(keys, front, rest);
    assert keys + [] == keys;
  }

  lemma {:induction false} BuildIff(t: Tpl, items: seq<Item>)
    requires Separate(SecKeys(t.secs))
    ensures Build(t, items).Some? <==> Separate(SecKeys(t.secs) + SectionNames(items)) && BodiesSeparate(items)
    decreases items
  {
    var keys := SecKeys(t.secs);
    if items == [] {
      assert keys + [] == keys;
    } else {
      BuildNext(t, items);
      BodiesNext(items);
      NamesNext(keys, items);
      hide Build, Separate, Lookup, AddField, SectionNames, BodiesSeparate, SectionsSeparate;
      var rest := items[1..];
      match items[0] {
        case Text(s) => BuildIff(AddText(t, s), rest);
        case Field(name) =>
          assert AddField(t, name).secs == t.secs;
          BuildIff(AddField(t, name), rest);
        case Section(name, body) =>
          EmptyLevel();
          assert Separate(SecKeys(EMPTY.secs));
          BuildIff(EMPTY, body);
          if Lookup(keys, name).Some? {
            NotSeparate(keys, name, SectionNames(rest));
          } else if Build(EMPTY, body).Some? {
            var u := AddSection(t, name, Build(EMPTY, body).value);
            SeparateExtended(keys, name);
            assert SecKeys(u.secs) == keys + [name];
            BuildIff(u, rest);
          }
      }
    }
  }

  lemma NotSeparate(keys: seq<string>, name: string, more: seq<string>)
    requires Lookup(keys, name).Some?
    ensures !Separate(keys + [name] + more)
  {
    LookupSpec(keys, name);
    var all := keys + [name] + more;
    assert all[|keys|] == name && forall i | 0 <= i < |keys| :: all[i] == keys[i];
    assert !Misses(all, all[|keys|], |keys|);
  }

  /** A text is a template if and only if it scans and its section names are separate at every level. */
  lemma {:induction false} ParseIff(r: string)
    ensures Parse(r).Some? <==> Scan(r).Some? && SectionsSeparate(Scan(r).value)
  {
    if Scan(r).Some? {
      EmptyLevel();
      BuildIff(EMPTY, Scan(r).value);
      assert [] + SectionNames(Scan(r).value) == SectionNames(Scan(r).value);
    }
  }
}
