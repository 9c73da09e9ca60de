/** Copying a template: the nodes between the section positions, the sections, and the selection. */
module Cloning {
  import opened Search
  import opened Names
  import opened Tree
  import opened Render
  import opened Ops
  import opened RoundTrip
  import opened Runs
  import opened Output
  import opened Links
  import opened Templates
  import opened Copying
  import opened Parsing
  import opened Naming

  // --- fields

  /** The cells after data was copied under key, and the cell that holds it. */
  function WithCell(cells: seq<Cell>, key: string, data: string): (seq<Cell>, nat) {
    match Lookup(CellKeys(cells), key)
    case None => (cells + [Cell(key, data)], |cells|)
    case Some(c) =>
      (if c < |cells| && cells[c].val == "" then cells[c := cells[c].(val := data)] else cells, c)
  }

  method PutData(dst: Template, c: nat, data: string)
    requires Building(dst) && c < |dst.cells| == |dst.room| && Holds(dst.room[c], |data|)
    modifies dst`cells
    ensures Building(dst) && dst.cells == old(dst.cells)[c := old(dst.cells)[c].(val := data)]
    ensures dst.Abs() == old(dst.Abs()).(cells := dst.cells)
  {
    hide Building, Buckets, Template.Valid, Template.Abs, Template.SelOk;
    BuildingFacts(dst);
    assert CellKeys(dst.cells[c := dst.cells[c].(val := data)]) == CellKeys(dst.cells);
    dst.WriteValue(c, data);
    OwnBuilding(dst);
  }

  /** The data would be copied, with its NUL, to a block that was reallocated to hold no more than the data. */
  predicate Overruns(cells: seq<Cell>, key: string, data: string) {
    match Lookup(CellKeys(cells), key)
    case None => false
    case Some(c) => c < |cells| && cells[c].val == "" && |data| > INITIAL_FIELD_LEN
  }

  /** The copy of the data to an older cell, whose block had this size, is out of bounds exactly then. */
  lemma OverrunsIff(cells: seq<Cell>, key: string, data: string, c: nat, size: nat)
    requires Lookup(CellKeys(cells), key) == Some(c) && c < |cells| && Holds(size, |cells[c].val|)
    ensures var grown := if Regrown(cells[c].val, |data|) then |data| else size;
      Overruns(cells, key, data) <==> cells[c].val == "" && data != "" && !(|data| < grown)
  {
    hide Lookup;
  }

  /** No older cell's block is reallocated for the data. */
  predicate Unmoved(cells: seq<Cell>, key: string, data: string) {
    match Lookup(CellKeys(cells), key)
    case None => true
    case Some(c) => c < |cells| && !Regrown(cells[c].val, |data|)
  }

  lemma RoomAtCells(dst: Template)
    requires dst.RoomOk()
    ensures |dst.room| == |dst.cells| && forall c | 0 <= c < |dst.cells| :: dst.room[c] > INITIAL_FIELD_LEN
  {
  }

  method CopyField(dst: Template, key: string, data: string) returns (c: nat)
    requires Building(dst) && key != "" && !Overruns(dst.cells, key, data)
    modifies dst`cells, dst`room, dst`fields
    ensures Building(dst) && dst.Abs() == old(dst.Abs()).(cells := dst.cells)
    ensures (dst.cells, c) == WithCell(old(dst.cells), key, data)
    ensures Unmoved(old(dst.cells), key, data) ==> old(dst.room) <= dst.room
  {
    hide Building, Template.Abs, Template.Valid, Template.RoomOk, Buckets, Lookup;
    LookupSpec(CellKeys(dst.cells), key);
    BuildingFacts(dst);
    RoomAtCells(dst);
    c := ProduceField(dst, key, |data|);
    ghost var cells := dst.cells;
    if dst.cells[c].val == "" && data != "" { PutData(dst, c, data); }
    if c == |old(dst.cells)| {
      assert (old(dst.cells) + [Cell(key, "")])[c := Cell(key, data)] == old(dst.cells) + [Cell(key, data)];
    } else if cells[c].val == "" {
      assert data == "" ==> cells[c := cells[c].(val := data)] == cells;
    }
  }

  method CopyFieldNode(dst: Template, cell: Cell)
    requires Building(dst) && cell.key != "" && !Overruns(dst.cells, cell.key, cell.val)
    modifies dst`head, dst`cells, dst`room, dst`fields
    ensures Building(dst)
    ensures var (cells, c) := WithCell(old(dst.cells), cell.key, cell.val);
      dst.Abs() == old(dst.Abs()).(nodes := old(dst.head) + [FieldNode(c)], cells := cells)
    ensures Unmoved(old(dst.cells), cell.key, cell.val) ==> old(dst.room) <= dst.room
  {
    hide WithCell, Unmoved, Overruns, Buckets, CellKeys, CellNames;
    var c := CopyField(dst, cell.key, cell.val);
    AddNode(dst, FieldNode(c));
  }

  lemma KeysUpTo(cells: seq<Cell>, m: nat)
    requires m <= |cells|
    ensures CellKeys(cells[..m]) == CellKeys(cells)[..m]
  {
  }

  /** Copying the field of node n meets its cell again or creates it next. */
  lemma CellCopied(t: Tpl, n: nat)
    requires WellFormed(t) && n < |t.nodes| && t.nodes[n].FieldNode?
    ensures t.nodes[n].cell < |t.cells| && CellsMet(t.nodes[..n]) <= CellsMet(t.nodes[..n + 1]) <= |t.cells|
    ensures var c := t.nodes[n].cell; var cell := t.cells[c];
      WithCell(t.cells[..CellsMet(t.nodes[..n])], cell.key, cell.val) == (t.cells[..CellsMet(t.nodes[..n + 1])], c)
      && Unmoved(t.cells[..CellsMet(t.nodes[..n])], cell.key, cell.val)
      && !Overruns(t.cells[..CellsMet(t.nodes[..n])], cell.key, cell.val)
  {
    var met, c := CellsMet(t.nodes[..n]), t.nodes[n].cell;
    MetNext(t, n);
    KeysUpTo(t.cells, met);
    hide Lookup, Misses, Hash;
    if c < met {
      StoredFound(CellKeys(t.cells), c, met);
      assert t.cells[..met][c := t.cells[c].(val := t.cells[c].val)] == t.cells[..met];
    } else {
      NewMissed(CellKeys(t.cells), c);
      assert t.cells[..c + 1] == t.cells[..c] + [Cell(t.cells[c].key, t.cells[c].val)];
    }
  }

  lemma MetNext(t: Tpl, n: nat)
    requires WellFormed(t) && n < |t.nodes|
    ensures CellsMet(t.nodes[..n]) <= CellsMet(t.nodes[..n + 1]) <= |t.cells|
    ensures match t.nodes[n]
      case TextNode(_) => CellsMet(t.nodes[..n + 1]) == CellsMet(t.nodes[..n])
      case FieldNode(c) =>
        (c <= CellsMet(t.nodes[..n]) && c < |t.cells|
         && CellsMet(t.nodes[..n + 1]) == (if c < CellsMet(t.nodes[..n]) then CellsMet(t.nodes[..n]) else c + 1))
  {
    assert t.nodes[..n + 1][..n] == t.nodes[..n];
    CellsMetBounds(t.nodes, n + 1);
  }

  // --- one level

  /** The copy of the first n nodes and the first i sections of t, with its own added content. */
  function CopyFront(t: Tpl, n: nat, i: nat, added: seq<string>): Tpl
    requires n <= |t.nodes| && i <= |t.secs| && CellsMet(t.nodes[..n]) <= |t.cells|
  {
    Tpl(t.nodes[..n], t.cells[..CellsMet(t.nodes[..n])], CopyOf(t).secs[..i], added, [])
  }

  method CopyNode(dst: Template, ghost t: Tpl, node: Node, cells: seq<Cell>, ghost n: nat, ghost i: nat)
    requires Building(dst) && WellFormed(t) && Named(t) && n < |t.nodes| && node == t.nodes[n]
      && cells == t.cells && i <= |t.secs|
    requires CellsMet(t.nodes[..n]) <= |t.cells| && dst.Abs() == CopyFront(t, n, i, dst.added)
    modifies dst`head, dst`cells, dst`room, dst`fields
    ensures CellsMet(t.nodes[..n + 1]) <= |t.cells|
    ensures Building(dst) && dst.Abs() == CopyFront(t, n + 1, i, dst.added) && old(dst.room) <= dst.room
  {
    MetNext(t, n);
    hide WellFormed, CellsMet, CopyOf, WithCell, Building, Template.Valid, Separate, Numbered, Placed;
    assert t.nodes[..n + 1] == t.nodes[..n] + [t.nodes[n]];
    match node {
      case TextNode(s) => AddNode(dst, TextNode(s));
      case FieldNode(c) =>
        CellCopied(t, n);
        CopyFieldNode(dst, cells[c]);
    }
  }

  /** Copies text and fields from node n up to node m. */
  method CopyNodesOn(dst: Template, ghost t: Tpl, nodes: seq<Node>, cells: seq<Cell>, n: nat, m: nat, ghost i: nat)
    requires Building(dst) && WellFormed(t) && Named(t) && nodes == t.nodes && cells == t.cells
      && n <= m <= |nodes| && i <= |t.secs|
    requires CellsMet(t.nodes[..n]) <= |t.cells| && dst.Abs() == CopyFront(t, n, i, dst.added)
    modifies dst`head, dst`cells, dst`room, dst`fields
    ensures CellsMet(t.nodes[..m]) <= |t.cells|
    ensures Building(dst) && dst.Abs() == CopyFront(t, m, i, dst.added) && old(dst.room) <= dst.room
  {
    hide WellFormed, Named, CellsMet, CopyFront, Building, Template.Valid, Template.Abs;
    var k := n;
    while k < m
      invariant n <= k <= m && CellsMet(t.nodes[..k]) <= |t.cells|
      invariant Building(dst) && dst.Abs() == CopyFront(t, k, i, dst.added) && old(dst.room) <= dst.room
    {
      CopyNode(dst, t, nodes[k], cells, k, i);
      k := k + 1;
    }
  }

  /** Gives a new level the added content of a section as a single node. */
  method TakeAdded(sub: Template, section: Template)
    requires Building(sub) && sub.repr == {sub} && sub.Abs() == EMPTY && section.ChainOk() && section != sub
    modifies sub`addedHead, sub`addedTail, sub`links, sub`added
    ensures Building(sub) && sub.added == Joined(section.added) && sub.Abs() == EMPTY.(added := sub.added)
    ensures forall l | l in LinksOf(sub.repr) :: fresh(l)
  {
    hide Distinct, Linked, Texts, Concat, Buckets, CellKeys, CellNames;
    assert sub.added == [] && sub.ChainOk() && (section.addedHead == null <==> section.added == []);
    hide Building, Template.Abs, Template.ChainOk;
    if section.addedHead != null {
      var text := JoinedText(section);
      OnlyLink(sub, text);
    }
  }

  method OnlyLink(sub: Template, text: string)
    requires Building(sub) && sub.repr == {sub} && sub.added == []
    modifies sub`addedHead, sub`addedTail, sub`links, sub`added
    ensures Building(sub) && sub.added == [text] && sub.Abs() == old(sub.Abs()).(added := [text])
    ensures forall l | l in LinksOf(sub.repr) :: fresh(l)
  {
    hide Distinct, Linked, Texts, Buckets, CellKeys, CellNames;
    assert sub.links == [] && sub.ChainOk();
    sub.Push(text);
    OwnChanged(sub);
    SoloTidy(sub);
  }

  method JoinedText(section: Template) returns (text: string)
    requires section.ChainOk()
    ensures text == Concat(section.added)
  {
    hide Texts, Concat;
    var len := ChainLen(section.addedHead, section.links);
    ChainLengthIs(section.added);
    var buffer := new char[len + 1](_ => '\0');
    var at := WriteChain(buffer, 0, 0, section.addedHead, section.links);
    assert buffer[0..at] == Concat(section.added);
    text := buffer[..len];
  }

  // --- the selection

  /** No two paths lead to the same level. */
  lemma {:induction false} AtDistinct(t: Template, p: seq<nat>, q: seq<nat>)
    requires t.Valid() && HasPath(t.Abs(), p) && HasPath(t.Abs(), q) && p != q
    ensures t.At(p) != t.At(q)
    decreases p
  {
    hide Buckets, CellKeys, CellNames;
    assert t.At(p) in t.At(p).repr && t.At(q) in t.At(q).repr;
    if p != [] && q != [] {
      var c, d := t.first[p[0]].tpl, t.first[q[0]].tpl;
      assert c.Valid() && d.Valid();
      if p[0] == q[0] {
        assert p == [p[0]] + p[1..] && q == [q[0]] + q[1..];
        AtDistinct(c, p[1..], q[1..]);
      } else {
        assert c.repr !! d.repr;
      }
    }
  }

  /** Section i of the level at path is the selected one exactly when the selection path ends there. */
  lemma SelectedHere(src: Template, path: seq<nat>, i: nat)
    requires src.Valid() && src.SelOk() && HasPath(src.Abs(), path) && i < |src.At(path).first|
    ensures HasPath(src.Abs(), path + [i]) && src.At(path + [i]) == src.At(path).first[i].tpl
    ensures src.tpl == src.At(path).first[i].tpl <==> path + [i] == src.sel
  {
    AtStep(src, path, i);
    if path + [i] != src.sel { AtDistinct(src, path + [i], src.sel); }
  }

  lemma PrefixStep(path: seq<nat>, sel: seq<nat>)
    requires path < sel
    ensures path + [sel[|path|]] <= sel
  {
  }

  /** u is the counterpart in dst of the level v at path in src, and nothing is selected in dst yet. */
  ghost predicate Searching(dst: Template, src: Template, u: Template, v: Template, path: seq<nat>)
    reads dst, dst.repr, src, src.repr
  {
    && src.Valid() && src.SelOk() && HasPath(src.Abs(), path) && v == src.At(path)
    && dst.Valid() && dst.SelOk() && HasPath(dst.Abs(), path) && u == dst.At(path) && dst.tpl == dst && dst.sel == []
    && SameShape(v.Abs(), u.Abs()) && dst.repr !! src.repr
  }

  /** The same for section i of these levels. */
  lemma SearchingStep(dst: Template, src: Template, u: Template, v: Template, path: seq<nat>, i: nat)
    requires Searching(dst, src, u, v, path) && i < |v.first|
    ensures |u.first| == |v.first| && Searching(dst, src, u.first[i].tpl, v.first[i].tpl, path + [i])
    ensures v.Valid() && v.first[i].tpl.repr < v.repr && dst.Valid() && dst !in src.repr && dst.tpl == dst
      && dst.sel == []
    ensures src.tpl == v.first[i].tpl <==> path + [i] == src.sel
  {
    hide Buckets, CellKeys, CellNames;
    SelectedHere(src, path, i);
    assert |v.Abs().secs| == |u.Abs().secs| && SameShape(v.Abs().secs[i].tpl, u.Abs().secs[i].tpl);
    AtStep(dst, path, i);
  }

  /** Points dst at the level at the end of path. */
  method PointAt(dst: Template, src: Template, u: Template, ghost v: Template, ghost path: seq<nat>)
    requires Searching(dst, src, u, v, path) && path != []
    modifies dst`tpl, dst`sel
    ensures dst.Valid() && dst.SelOk() && dst.sel == path && dst.tpl != dst
    ensures dst.Abs() == old(dst.Abs()).(sel := path)
  {
    AtDistinct(dst, path, []);
    hide Template.SelOk;
    dst.MoveSelection(u, path);
  }

  /** Looks at section i of the levels at path, and below it. */
  method AdjustAt(dst: Template, src: Template, u: Template, v: Template, ghost path: seq<nat>, i: nat)
    requires Searching(dst, src, u, v, path) && i < |v.first|
    modifies dst`tpl, dst`sel
    ensures dst.Valid() && dst.SelOk() && dst.sel == (if path + [i] <= src.sel then src.sel else [])
    ensures dst.Abs() == old(dst.Abs()).(sel := dst.sel)
    ensures if dst.sel == [] then dst.tpl == dst && Searching(dst, src, u, v, path) else dst.tpl != dst
    decreases v.repr, 0
  {
    hide Searching, Template.Valid, Template.SelOk, Template.Abs, Template.At;
    SearchingStep(dst, src, u, v, path, i);
    if src.tpl == v.first[i].tpl {
      PointAt(dst, src, u.first[i].tpl, v.first[i].tpl, path + [i]);
    } else {
      AdjustSelection(dst, src, u.first[i].tpl, v.first[i].tpl, path + [i]);
    }
  }

  /** Searches below the levels at path for the selected one of src, and points dst at its counterpart. */
  method AdjustSelection(dst: Template, src: Template, u: Template, v: Template, ghost path: seq<nat>)
    requires Searching(dst, src, u, v, path)
    modifies dst`tpl, dst`sel
    ensures dst.Valid() && dst.SelOk() && dst.sel == (if path < src.sel then src.sel else [])
    ensures dst.Abs() == old(dst.Abs()).(sel := dst.sel)
    ensures if dst.sel == [] then unchanged(dst) else dst.tpl != dst
    decreases v.repr, 1
  {
    hide Searching, SameShape, HasPath, Template.Valid, Template.SelOk, Template.Abs, Template.At;
    SearchingFacts(dst, src, u, v, path);
    if src.tpl != src {
      var i := 0;
      while dst.tpl == dst && i < |v.first|
        invariant 0 <= i <= |v.first|
        invariant dst.Valid() && dst.SelOk() && dst.Abs() == old(dst.Abs()).(sel := dst.sel)
        invariant dst.tpl == dst ==> dst.sel == [] && Searching(dst, src, u, v, path)
        invariant dst.tpl != dst ==> path < src.sel && dst.sel == src.sel
        invariant dst.tpl == dst ==> forall k | 0 <= k < i :: !(path + [k] <= src.sel)
        decreases |v.first| - i
      {
        AdjustAt(dst, src, u, v, path, i);
        i := i + 1;
      }
      if dst.tpl == dst && path < src.sel { PrefixStep(path, src.sel); }
    }
  }

  lemma SearchingFacts(dst: Template, src: Template, u: Template, v: Template, path: seq<nat>)
    requires Searching(dst, src, u, v, path)
    ensures dst.Valid() && dst.SelOk() && dst.Abs() == dst.Abs().(sel := []) && dst !in src.repr
      && dst.tpl == dst && dst.sel == []
    ensures src.sel == [] <==> src.tpl == src
    ensures path < src.sel ==> src.sel[|path|] < |v.first|
  {
    hide Buckets, CellKeys, CellNames;
    SelectedBelow(src, path);
    assert dst in dst.repr;
  }

  lemma SelectedBelow(src: Template, path: seq<nat>)
    requires src.Valid() && src.SelOk() && HasPath(src.Abs(), path)
    ensures src.sel == [] <==> src.tpl == src
    ensures path < src.sel ==> src.sel[|path|] < |src.At(path).first|
  {
    if src.sel != [] { AtDistinct(src, src.sel, []); }
    hide Template.At;
    if path < src.sel { PathBelow(src.Abs(), path, src.sel); }
  }

  lemma {:induction false} PathBelow(t: Tpl, path: seq<nat>, sel: seq<nat>)
    requires HasPath(t, path) && HasPath(t, sel) && path < sel
    ensures sel[|path|] < |Sub(t, path).secs|
    decreases path
  {
    if path != [] { PathBelow(t.secs[path[0]].tpl, path[1..], sel[1..]); }
  }

  // --- the recursive copy

  /** src is a template that can be copied, and a is its tree. */
  ghost predicate Copyable(src: Template, a: Tpl)
    reads src, src.repr, LinksOf(src.repr)
    ensures Copyable(src, a) ==> src.Valid()
  {
    src.Valid() && src.SelOk() && a == src.Abs() && WellFormed(a) && Named(a) && Tidy(src.repr)
  }

  lemma CopyableSection(src: Template, a: Tpl, i: nat)
    requires Copyable(src, a) && i < |src.first|
    ensures |a.secs| == |src.first| && a.nodes == src.head && a.cells == src.cells && WellFormed(a) && Named(a)
    ensures var c := src.first[i]; a.secs[i] == Sec(c.key, c.preceding, c.tpl.Abs())
    ensures src.first[i].key != "" && src.first[i].preceding <= |src.head|
    ensures var c := src.first[i].tpl;
      Copyable(c, a.secs[i].tpl) && c.repr < src.repr && c.added == a.secs[i].tpl.added && c.ChainOk()
    ensures i > 0 ==> a.secs[i - 1].pos <= a.secs[i].pos
    ensures CellsMet(a.nodes[..src.first[i].preceding]) <= |a.cells|
  {
    hide Buckets, CellKeys, CellNames, CellsMet;
    assert src !in src.first[i].tpl.repr;
    TidyPart(src.repr, src.first[i].tpl.repr);
    CellsMetBounds(a.nodes, src.first[i].preceding);
  }

  /** No earlier section answers for the name of section i. */
  lemma SectionMissed(a: Tpl, n: nat, i: nat, added: seq<string>)
    requires WellFormed(a) && i < |a.secs| && n <= |a.nodes| && CellsMet(a.nodes[..n]) <= |a.cells|
    ensures Lookup(SecKeys(CopyFront(a, n, i, added).secs), a.secs[i].key) == None
  {
    hide CellsMet;
    NewMissed(SecKeys(a.secs), i);
    assert SecKeys(CopyOf(a).secs[..i]) == SecKeys(a.secs)[..i];
  }

  lemma SectionCopied(a: Tpl, n: nat, i: nat, added: seq<string>)
    requires i < |a.secs| && n <= |a.nodes| && CellsMet(a.nodes[..n]) <= |a.cells| && a.secs[i].pos == n
    ensures var s := a.secs[i];
      AddSection(CopyFront(a, n, i, added), s.key, CopyOf(s.tpl).(added := Joined(s.tpl.added)))
      == CopyFront(a, n, i + 1, added)
  {
    hide CellsMet, Joined;
    assert CopyOf(a).secs[..i + 1] == CopyOf(a).secs[..i] + [CopyOf(a).secs[i]];
  }

  /** Copies a section's added content and everything below it. */
  method CopyBody(sub: Template, section: Template, ghost a: Tpl)
    requires Copyable(section, a) && section.ChainOk() && a.added == section.added
    requires Building(sub) && sub.repr == {sub} && sub !in section.repr && sub.Abs() == EMPTY
    modifies sub`head, sub`cells, sub`room, sub`fields, sub`first, sub`sections, sub`repr, sub`tpl, sub`sel
    modifies sub`addedHead, sub`addedTail, sub`links, sub`added
    ensures sub.Valid() && sub.SelOk() && Tidy(sub.repr) && Parented(sub.repr) && fresh(sub.repr - {sub})
    ensures sub.Abs() == CopyOf(a).(added := Joined(a.added)) && forall l | l in LinksOf(sub.repr) :: fresh(l)
    decreases section.repr, 3
  {
    hide Building, Copyable, CopyOf, Joined, Tidy, Parented, Template.Valid, Template.SelOk, Template.Abs,
      Template.ChainOk;
    LinksExist(section.repr);
    TakeAdded(sub, section);
    CopyLevel(sub, section, a);
  }

  /** Adds a section to dst, chained in first, and copies the other section into it. */
  method AddCopy(dst: Template, key: string, section: Template, ghost a: Tpl)
    requires Copyable(section, a) && section.ChainOk() && a.added == section.added
    requires Building(dst) && dst !in section.repr && key != ""
    modifies dst`first, dst`sections, dst`repr
    ensures Building(dst) && fresh(dst.repr - old(dst.repr))
    ensures forall l | l in LinksOf(dst.repr) :: l in old(LinksOf(dst.repr)) || fresh(l)
    ensures dst.Abs() == AddSection(old(dst.Abs()), key, CopyOf(a).(added := Joined(a.added)))
    decreases section.repr, 4
  {
    hide Building, Copyable, CopyOf, Joined, AddSection, Tidy, Parented, ParentedBut, Template.Valid, Template.SelOk,
      Template.Abs, Template.ChainOk;
    LinksExist(section.repr);
    LinksExist(dst.repr);
    var sub := MakeSection(dst, key);
    CopyBody(sub, section, a);
    dst.repr := dst.repr + sub.repr;
    Extended(dst, sub, key, false);
    NoOrphan(dst);
  }

  /** Copies section i, with everything below it, to the end of dst. */
  method CopySection(dst: Template, src: Template, ghost a: Tpl, i: nat)
    requires Copyable(src, a) && i < |src.first| && Building(dst) && dst.repr !! src.repr
    requires i < |a.secs| && a.secs[i].pos <= |a.nodes| && CellsMet(a.nodes[..a.secs[i].pos]) <= |a.cells|
    requires dst.Abs() == CopyFront(a, a.secs[i].pos, i, dst.added)
    modifies dst`first, dst`sections, dst`repr
    ensures Building(dst) && fresh(dst.repr - old(dst.repr))
    ensures forall l | l in LinksOf(dst.repr) :: l in old(LinksOf(dst.repr)) || fresh(l)
    ensures dst.Abs() == CopyFront(a, a.secs[i].pos, i + 1, dst.added)
    decreases src.repr, 0
  {
    hide Building, Copyable, CellsMet, WellFormed, Named, CopyOf, CopyFront, AddSection, Lookup, Tidy, Parented,
      ParentedBut, Template.Valid, Template.SelOk, Template.Abs;
    CopyableSection(src, a, i);
    var c := src.first[i];
    LinksExist(dst.repr);
    LinksExist(c.tpl.repr);
    SectionMissed(a, a.secs[i].pos, i, dst.added);
    var found := FindSectionIn(dst, c.key);
    assert found.None?;
    SectionCopied(a, a.secs[i].pos, i, dst.added);
    AddCopy(dst, c.key, c.tpl, a.secs[i].tpl);
  }

  lemma CopyableParts(src: Template, a: Tpl)
    requires Copyable(src, a)
    ensures |a.secs| == |src.first| && a.nodes == src.head && a.cells == src.cells && WellFormed(a) && Named(a)
    ensures src.Valid() && src.SelOk() && a == src.Abs() && a.sel == src.sel
  {
  }

  lemma FrontEnds(a: Tpl, added: seq<string>)
    requires WellFormed(a)
    ensures CellsMet(a.nodes[..0]) <= |a.cells| && CopyFront(a, 0, 0, added) == EMPTY.(added := added)
    ensures CellsMet(a.nodes[..|a.nodes|]) <= |a.cells|
    ensures CopyFront(a, |a.nodes|, |a.secs|, added) == CopyOf(a).(added := added, sel := [])
  {
    assert a.nodes[..0] == [] && a.nodes[..|a.nodes|] == a.nodes;
  }

  /** Copies the nodes up to each section's position, then the section, and the rest of the nodes. */
  method CopyParts(dst: Template, src: Template, ghost a: Tpl)
    requires Copyable(src, a) && Building(dst) && dst.repr == {dst} && dst !in src.repr
    requires dst.Abs() == EMPTY.(added := dst.added)
    modifies dst`head, dst`cells, dst`room, dst`fields, dst`first, dst`sections, dst`repr
    ensures Building(dst) && fresh(dst.repr - {dst})
    ensures dst.Abs() == CopyOf(a).(added := dst.added, sel := [])
    ensures forall l | l in LinksOf(dst.repr) :: l in old(LinksOf(dst.repr)) || fresh(l)
    decreases src.repr, 1
  {
    hide Building, Copyable, CellsMet, WellFormed, Named, CopyOf, CopyFront, Template.Valid, Template.SelOk,
      Template.Abs;
    CopyableParts(src, a);
    FrontEnds(a, dst.added);
    var i, n := 0, 0;
    while i < |src.first|
      invariant 0 <= i <= |src.first| && n == (if i == 0 then 0 else a.secs[i - 1].pos) && n <= |src.head|
      invariant Copyable(src, a) && Building(dst) && fresh(dst.repr - {dst})
      invariant forall l | l in LinksOf(dst.repr) :: l in old(LinksOf(dst.repr)) || fresh(l)
      invariant CellsMet(a.nodes[..n]) <= |a.cells| && dst.Abs() == CopyFront(a, n, i, dst.added)
    {
      LinksExist(src.repr);
      CopyableSection(src, a, i);
      CopyNodesOn(dst, a, src.head, src.cells, n, src.first[i].preceding, i);
      n := src.first[i].preceding;
      CopySection(dst, src, a, i);
      i := i + 1;
    }
    CopyNodesOn(dst, a, src.head, src.cells, n, |src.head|, i);
  }

  lemma {:induction false} CopyShape(t: Tpl)
    ensures SameShape(t, CopyOf(t))
    decreases t
  {
    forall i | 0 <= i < |t.secs| ensures SameShape(t.secs[i].tpl, CopyOf(t).secs[i].tpl) {
      CopyShape(t.secs[i].tpl);
      ShapeAdded(t.secs[i].tpl, CopyOf(t.secs[i].tpl), Joined(t.secs[i].tpl.added));
    }
  }

  lemma ShapeAdded(t: Tpl, u: Tpl, added: seq<string>)
    requires SameShape(t, u)
    ensures SameShape(t, u.(added := added)) && SameShape(t, u.(added := added, sel := []))
  {
  }

  lemma SearchingStart(dst: Template, src: Template, a: Tpl)
    requires Copyable(src, a) && Building(dst) && dst.repr !! src.repr
      && dst.Abs() == CopyOf(a).(added := dst.added, sel := [])
    ensures Searching(dst, src, dst, src, []) && a.sel == src.sel && dst.Valid()
  {
    BuildingSel(dst);
    CopyShape(a);
    hide SameShape;
    ShapeAdded(a, CopyOf(a), dst.added);
  }

  lemma CopySelection(a: Tpl, added: seq<string>)
    ensures CopyOf(a).(added := added, sel := []).(sel := a.sel) == CopyOf(a).(added := added)
  {
  }

  lemma CopyStart(dst: Template, src: Template)
    requires src.Ready() && Named(src.Abs()) && Building(dst) && dst.Abs() == EMPTY
    ensures Copyable(src, src.Abs()) && Invariant(src.Abs()) && dst.Abs() == EMPTY.(added := dst.added)
    ensures CopyOf(src.Abs()).(added := dst.added) == CopyOf(src.Abs()) && dst.links == []
  {
  }

  /** Copies src onto an empty level, whose own added content stays as it is. */
  method CopyLevel(dst: Template, src: Template, ghost a: Tpl)
    requires Copyable(src, a) && Building(dst) && dst.repr == {dst} && dst !in src.repr
    requires dst.Abs() == EMPTY.(added := dst.added)
    modifies dst`head, dst`cells, dst`room, dst`fields, dst`first, dst`sections, dst`repr, dst`tpl, dst`sel
    ensures dst.Valid() && dst.SelOk() && Tidy(dst.repr) && Parented(dst.repr) && fresh(dst.repr - {dst})
    ensures dst.Abs() == CopyOf(a).(added := dst.added)
    ensures forall l | l in LinksOf(dst.repr) :: l in old(LinksOf(dst.repr)) || fresh(l)
    decreases src.repr, 2
  {
    hide Building, Copyable, Searching, WellFormed, Named, CopyOf, Tidy, Parented, Template.Valid, Template.SelOk,
      Template.Abs;
    LinksExist(src.repr);
    CopyParts(dst, src, a);
    SearchingStart(dst, src, a);
    CopySelection(a, dst.added);
    NoOrphan(dst);
    BuildingSel(dst);
    LinksExist(dst.repr);
    AdjustSelection(dst, src, dst, src, []);
  }

  /** Copies a template: the copy shares no level and no link with it, and it is left as it was. */
  method Copy(dst: Template, src: Template)
    requires src.Ready() && Named(src.Abs())
    requires Building(dst) && dst.repr == {dst} && dst !in src.repr && dst.Abs() == EMPTY
    modifies dst`head, dst`cells, dst`room, dst`fields, dst`first, dst`sections, dst`repr, dst`tpl, dst`sel
    ensures dst.Ready() && fresh(dst.repr - {dst}) && dst.repr !! src.repr
    ensures forall l | l in LinksOf(dst.repr) :: fresh(l) && l !in LinksOf(src.repr)
    ensures dst.Abs() == CopyOf(src.Abs())
    ensures src.Ready() && src.Abs() == old(src.Abs())
  {
    hide Named, CopyOf, Building, Copyable, Invariant, Tidy, Parented, Template.Valid, Template.SelOk, Template.Abs;
    LinksExist(src.repr);
    CopyStart(dst, src);
    CopyLevel(dst, src, src.Abs());
    CopyInvariant(src.Abs());
  }
}
