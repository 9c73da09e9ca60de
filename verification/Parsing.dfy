/** Building a template from its text. */
module Parsing {
  import opened Search
  import opened Names
  import opened Markup
  import opened Tree
  import opened Ops
  import opened RoundTrip
  import opened Cursor
  import opened Runs
  import opened Links
  import opened Templates

  // --- adding to a level

  /** A level that is being built, but for the parents: nothing is selected in it. */
  ghost predicate Shaped(t: Template)
    reads t, t.repr, LinksOf(t.repr)
    ensures Shaped(t) ==> t.Valid()
  {
    && t.Valid() && t.tpl == t && t.sel == [] && Tidy(t.repr)
    && forall i | 0 <= i < |t.first| :: t.first[i].tpl.SelOk()
  }

  /** A level that is being built. */
  ghost predicate Building(t: Template)
    reads t, t.repr, LinksOf(t.repr)
    ensures Building(t) ==> t.Valid()
  {
    Shaped(t) && Parented(t.repr)
  }

  lemma BuildingSel(t: Template)
    requires Shaped(t)
    ensures t.Valid() && t.SelOk() && t.Abs().sel == [] && Tidy(t.repr)
  {
    hide Buckets, CellKeys, CellNames, Tidy;
  }

  /** Only nodes and fields of the level changed. */
  twostate lemma OwnBuilding(new t: Template)
    requires old(allocated(t)) && old(Building(t)) && t.fields == Buckets(CellKeys(t.cells))
    requires t.first == old(t.first) && t.sections == old(t.sections) && t.repr == old(t.repr)
    requires t.tpl == old(t.tpl) && t.sel == old(t.sel) && t.parent == old(t.parent) && SameChain(t) && t.RoomOk()
    requires forall u | u in old(t.repr) && u != t :: unchanged(u)
    requires forall l | l in old(LinksOf(t.repr)) :: unchanged(l)
    ensures Building(t) && t.Abs() == Tpl(t.head, t.cells, old(t.Abs()).secs, old(t.Abs()).added, old(t.Abs()).sel)
  {
    hide Buckets, CellKeys, CellNames, Tidy, Parented;
    assert old(t.Abs()).added == t.added && old(t.Abs()).sel == t.sel;
    OwnChanged(t);
    hide Template.Valid, Template.Abs, Template.SelOk;
    assert t in t.repr;
    CellsChanged(t.repr, t);
    ParentsKept(t.repr);
  }

  lemma BuildingFacts(t: Template)
    requires Building(t)
    ensures t.fields == Buckets(CellKeys(t.cells)) && t.Abs().nodes == t.head && t.Abs().cells == t.cells
    ensures t in t.repr && t.RoomOk() && |t.room| == |t.cells|
  {
    hide Buckets, CellKeys, CellNames, Template.ChainOk;
    assert t in t.repr;
  }

  method AddNode(t: Template, node: Node)
    requires Building(t)
    modifies t`head
    ensures Building(t) && t.Abs() == old(t.Abs()).(nodes := old(t.Abs()).nodes + [node])
    ensures t.head == old(t.head) + [node]
  {
    hide Building, Buckets, CellKeys, Template.Valid, Template.Abs, Template.SelOk, Template.RoomOk;
    BuildingFacts(t);
    t.head := t.head + [node];
    OwnBuilding(t);
  }

  /** Stores the text between two positions unless there is none. */
  method AddTextBetween(t: Template, src: string, from: nat, to: nat)
    requires Building(t) && from <= to <= |src|
    modifies t`head
    ensures Building(t) && t.Abs() == AddTextIfAny(old(t.Abs()), src[from..to])
  {
    if to - from != 0 { AddNode(t, TextNode(src[from..to])); }
  }

  /** Data of that length makes the block of this value too short, if the value's length is a guide. */
  predicate Regrown(val: string, dataLen: nat) {
    dataLen > INITIAL_FIELD_LEN && dataLen > |val|
  }

  /** The field cell for name, created at the end of its bucket if there is none. Its block is for data of
      that length when it is created; an older one is reallocated, without room for a NUL, if it is asked for. */
  method ProduceField(t: Template, name: string, dataLen: nat) returns (c: nat)
    requires Building(t) && name != ""
    modifies t`cells, t`room, t`fields
    ensures Building(t) && t.Abs() == old(t.Abs()).(cells := t.cells) && |t.room| == |t.cells|
    ensures match Lookup(CellKeys(old(t.cells)), name)
      case Some(k) =>
        (c == k < |t.cells| == |old(t.room)| && t.cells == old(t.cells)
         && t.room == if Regrown(t.cells[c].val, dataLen) then old(t.room)[c := dataLen] else old(t.room))
      case None =>
        (c == |old(t.cells)| && t.cells == old(t.cells) + [Cell(name, "")]
         && old(t.room) <= t.room && Holds(t.room[c], dataLen))
  {
    hide Building, Buckets, CellKeys, Lookup, Template.Valid, Template.Abs, Template.SelOk, Template.RoomOk;
    BuildingFacts(t);
    LookupSpec(CellKeys(t.cells), name);
    var found := t.FindField(name);
    if found.Some? {
      c := found.value;
      Reallocate(t, c, dataLen);
    } else {
      c := |t.cells|;
      NewCell(t, name, dataLen);
    }
    OwnBuilding(t);
  }

  method Reallocate(t: Template, c: nat, dataLen: nat)
    requires t.RoomOk() && c < |t.cells|
    modifies t`room
    ensures t.RoomOk() && |t.room| == |t.cells| == |old(t.room)|
    ensures t.room == if Regrown(t.cells[c].val, dataLen) then old(t.room)[c := dataLen] else old(t.room)
  {
    if Regrown(t.cells[c].val, dataLen) {
      t.room := t.room[c := dataLen];
    }
  }

  /** Adds an empty field cell, in its bucket too. */
  method NewCell(t: Template, name: string, dataLen: nat)
    requires t.fields == Buckets(CellKeys(t.cells)) && name != "" && t.RoomOk()
    modifies t`cells, t`room, t`fields
    ensures t.cells == old(t.cells) + [Cell(name, "")] && t.fields == Buckets(CellKeys(t.cells))
    ensures t.RoomOk() && |t.room| == |t.cells| && old(t.room) <= t.room && Holds(t.room[|old(t.cells)|], dataLen)
  {
    ghost var keys := CellKeys(t.cells);
    var h := HashLoop(name);
    BucketsExtended(keys, name);
    t.fields := t.fields[h := t.fields[h] + [|t.cells|]];
    t.cells := t.cells + [Cell(name, "")];
    t.room := t.room + [(if dataLen > INITIAL_FIELD_LEN then dataLen else INITIAL_FIELD_LEN) + 1];
    assert CellKeys(t.cells) == keys + [name];
  }

  method AddFieldNode(t: Template, name: string)
    requires Building(t) && name != ""
    modifies t`head, t`cells, t`room, t`fields
    ensures Building(t) && t.Abs() == AddField(old(t.Abs()), name)
  {
    assert t.Abs().nodes == t.head && t.Abs().cells == t.cells;
    hide Building, Template.Valid, Template.Abs, Template.SelOk;
    var c := ProduceField(t, name, 0);
    AddNode(t, FieldNode(c));
  }

  /** Chains a section cell in, in its bucket and at the end of the section list. */
  method ChainIn(t: Template, cell: SectionCell)
    requires cell.key != "" && t.sections == Buckets(CellNames(t.first))
    modifies t`first, t`sections, t`repr
    ensures t.first == old(t.first) + [cell] && t.repr == old(t.repr) + cell.tpl.repr
    ensures t.sections == Buckets(CellNames(t.first))
  {
    var h := HashLoop(cell.key);
    BucketsExtended(CellNames(t.first), cell.key);
    assert CellNames(t.first + [cell]) == CellNames(t.first) + [cell.key];
    ghost var footprint := cell.tpl.repr;
    t.sections := t.sections[h := t.sections[h] + [|t.first|]];
    t.first := t.first + [cell];
    t.repr := t.repr + footprint;
  }

  /** t got one more section, sub, and with it sub's footprint. */
  twostate predicate GotSection(new t: Template, new sub: Template)
    requires old(allocated(t))
    reads *
  {
    && old(t.Valid()) && sub.Valid() && sub.repr !! old(t.repr)
    && |t.first| == |old(t.first)| + 1 && old(t.first) <= t.first
    && t.first[|t.first| - 1].tpl == sub && t.repr == old(t.repr) + sub.repr
    && forall u | u in old(t.repr) && u != t :: unchanged(u)
  }

  /** Every section of the grown level, the new one included. */
  twostate lemma LinkedKid(new t: Template, new sub: Template, i: nat)
    requires old(allocated(t)) && GotSection(t, sub)
    requires i < |t.first|
    ensures var c := t.first[i].tpl;
      && c.Valid() && c.repr <= t.repr && c in t.repr && t !in c.repr
      && c.repr == (if i < |old(t.first)| then old(t.first[i].tpl.repr) else sub.repr)
      && c.Abs() == (if i < |old(t.first)| then old(t.Abs()).secs[i].tpl else sub.Abs())
      && (if i < |old(t.first)| then old(t.first[i].tpl.SelOk()) ==> c.SelOk() else c == sub)
  {
    hide Buckets, CellKeys, CellNames;
    if i < |old(t.first)| { OldKid(t, i); } else { assert old(t.Valid()); }
  }

  twostate lemma LinkedApart(new t: Template, new sub: Template)
    requires old(allocated(t)) && GotSection(t, sub)
    ensures forall i, j | 0 <= i < j < |t.first| :: t.first[i].tpl.repr !! t.first[j].tpl.repr
  {
    hide Buckets, CellKeys, CellNames;
    assert t in old(t.repr);
    forall i, j | 0 <= i < j < |t.first| ensures t.first[i].tpl.repr !! t.first[j].tpl.repr {
      LinkedKid(t, sub, i);
      LinkedKid(t, sub, j);
      if j < |old(t.first)| { assert old(t.first[i].tpl.repr) !! old(t.first[j].tpl.repr); }
    }
  }

  twostate lemma LinkedValid(new t: Template, new sub: Template)
    requires old(allocated(t)) && GotSection(t, sub)
    requires t.fields == Buckets(CellKeys(t.cells)) && t.sections == Buckets(CellNames(t.first))
    ensures t.Valid()
  {
    hide Buckets, CellKeys, CellNames;
    forall i | 0 <= i < |t.first|
      ensures var c := t.first[i].tpl; c in t.repr && c.repr <= t.repr && t !in c.repr && c.Valid()
    {
      LinkedKid(t, sub, i);
    }
    LinkedApart(t, sub);
  }

  twostate lemma LinkedAbs(new t: Template, new sub: Template)
    requires old(allocated(t)) && GotSection(t, sub)
    requires t.Valid() && t.head == old(t.head) && t.cells == old(t.cells) && t.added == old(t.added)
      && t.sel == old(t.sel)
    requires (forall i | 0 <= i < |old(t.first)| :: old(t.first[i].tpl.SelOk())) && sub.SelOk()
    ensures var c := t.first[|t.first| - 1];
      t.Abs() == old(t.Abs()).(secs := old(t.Abs()).secs + [Sec(c.key, c.preceding, sub.Abs())])
    ensures forall i | 0 <= i < |t.first| :: t.first[i].tpl.SelOk()
  {
    hide Buckets, CellKeys, CellNames;
    var c := t.first[|t.first| - 1];
    var secs := old(t.Abs()).secs + [Sec(c.key, c.preceding, sub.Abs())];
    forall i | 0 <= i < |t.first| ensures t.Abs().secs[i] == secs[i] && t.first[i].tpl.SelOk() {
      LinkedKid(t, sub, i);
    }
    assert t.Abs().secs == secs;
  }

  /** The chains of the grown level: those of t as before, those of sub apart from them. */
  twostate lemma LinkedTidy(new t: Template, new sub: Template)
    requires old(allocated(t)) && GotSection(t, sub) && old(Tidy(t.repr)) && Tidy(sub.repr) && SameStore(t)
    requires forall l | l in old(LinksOf(t.repr)) :: unchanged(l) && l !in LinksOf(sub.repr)
    ensures Tidy(t.repr) && LinksOf(t.repr) == old(LinksOf(t.repr)) + LinksOf(sub.repr)
  {
    var s := old(t.repr);
    assert t in s by { hide Buckets, CellKeys, CellNames; }
    Regrouped(s, {});
    UnionTidy(s, sub.repr);
    assert LinksOf(s) == old(LinksOf(t.repr));
  }

  lemma UnionTidy(a: set<Template>, b: set<Template>)
    requires Tidy(a) && Tidy(b) && LinksOf(a) !! LinksOf(b)
    ensures Tidy(a + b) && LinksOf(a + b) == LinksOf(a) + LinksOf(b)
  {
    hide Distinct, Linked, Texts;
    forall u, v | u in a + b && v in a + b && u != v ensures Apart(u.links, v.links) {
      forall i, j | 0 <= i < |u.links| && 0 <= j < |v.links| ensures u.links[i] != v.links[j] {
        if (u in a && v in a) || (u in b && v in b) {
          assert Apart(u.links, v.links);
        } else if u in a {
          assert u.links[i] in LinksOf(a) && v.links[j] in LinksOf(b);
        } else {
          assert u.links[i] in LinksOf(b) && v.links[j] in LinksOf(a);
        }
      }
    }
    assert LinksOf(a + b) == LinksOf(a) + LinksOf(b);
  }

  /** The parents of the grown level: the new section's is t or none. */
  twostate lemma LinkedParents(new t: Template, new sub: Template, new orphan: bool)
    requires old(allocated(t)) && GotSection(t, sub) && old(Parented(t.repr)) && Parented(sub.repr)
    requires t.parent == old(t.parent) && sub.parent == if orphan then null else t
    ensures ParentedBut(t.repr, t, orphan)
  {
    hide Buckets, CellKeys, CellNames;
    forall u | u in t.repr ensures forall i | 0 <= i < |u.first| :: var c := u.first[i].tpl;
      c in t.repr && c.parent == if orphan && u == t && i == |t.first| - 1 then null else u
    {
      if u in old(t.repr) {
        forall i | 0 <= i < |u.first| && !(u == t && i == |t.first| - 1)
          ensures var c := u.first[i].tpl; c in t.repr && c.parent == u
        {
          assert u.first[i] == old(u.first)[i];
          var c := old(u.first)[i].tpl;
          assert c in old(t.repr) && old(c.parent) == u;
          if c == t { assert c.parent == old(c.parent); }
        }
      }
    }
  }

  /** A level with a section more, built or empty, is as described. */
  twostate lemma Extended(new t: Template, new sub: Template, new name: string, new orphan: bool)
    requires old(allocated(t)) && old(Building(t)) && sub.Valid() && sub.SelOk() && sub.repr !! old(t.repr)
    requires t.first == old(t.first) + [SectionCell(name, |old(t.head)|, sub)] && t.repr == old(t.repr) + sub.repr
    requires t.sections == Buckets(CellNames(t.first))
    requires t.head == old(t.head) && t.cells == old(t.cells) && t.fields == old(t.fields) && SameStore(t)
    requires t.sel == old(t.sel) && t.tpl == old(t.tpl) && t.parent == old(t.parent)
    requires forall u | u in old(t.repr) && u != t :: unchanged(u)
    requires Tidy(sub.repr) && forall l | l in old(LinksOf(t.repr)) :: unchanged(l) && l !in LinksOf(sub.repr)
    requires Parented(sub.repr) && sub.parent == if orphan then null else t
    ensures Shaped(t) && ParentedBut(t.repr, t, orphan) && t.Abs() == AddSection(old(t.Abs()), name, sub.Abs())
    ensures LinksOf(t.repr) == old(LinksOf(t.repr)) + LinksOf(sub.repr)
  {
    ExtendedTree(t, sub, name);
    hide Buckets, CellKeys, CellNames, Template.Abs, Template.SelOk, Parented, Tidy;
    LinkedTidy(t, sub);
    LinkedParents(t, sub, orphan);
  }

  twostate lemma ExtendedTree(new t: Template, new sub: Template, new name: string)
    requires old(allocated(t)) && old(Building(t)) && sub.Valid() && sub.SelOk() && sub.repr !! old(t.repr)
    requires t.first == old(t.first) + [SectionCell(name, |old(t.head)|, sub)] && t.repr == old(t.repr) + sub.repr
    requires t.sections == Buckets(CellNames(t.first))
    requires t.head == old(t.head) && t.cells == old(t.cells) && t.fields == old(t.fields) && SameStore(t)
    requires t.sel == old(t.sel) && t.tpl == old(t.tpl)
    requires forall u | u in old(t.repr) && u != t :: unchanged(u)
    ensures GotSection(t, sub) && t.Valid() && t.Abs() == AddSection(old(t.Abs()), name, sub.Abs())
    ensures forall i | 0 <= i < |t.first| :: t.first[i].tpl.SelOk()
  {
    hide Buckets, CellKeys, CellNames, Tidy, Parented;
    assert old(t.Abs()).nodes == old(t.head);
    LinkedValid(t, sub);
    LinkedAbs(t, sub);
  }

  /** With no orphan, a shaped level is one that is being built; with one, the parents are not right. */
  lemma NoOrphan(t: Template)
    ensures Building(t) <==> Shaped(t) && ParentedBut(t.repr, t, false)
    ensures ParentedBut(t.repr, t, false) <==> Parented(t.repr)
    ensures t in t.repr && t.first != [] && ParentedBut(t.repr, t, true) ==>
      !Parented(t.repr) && t.first[|t.first| - 1].tpl.parent == null
  {
    hide Buckets, CellKeys, CellNames, Tidy;
    if t in t.repr && t.first != [] && ParentedBut(t.repr, t, true) {
      assert t.first[|t.first| - 1].tpl.parent == null;
    }
  }

  // --- the parser

  /** What the parse loop tests for a section tag is what makes it one in the unread range. */
  lemma SectionTest(src: string, lo: nat, hi: nat, last: nat, d: nat, e: nat)
    requires lo <= last <= d && d + 2 <= e < hi <= |src|
    requires last > 0 ==> src[last - 1] == '>'
    ensures
      (d + 3 >= lo + 7 && d >= 5 && hi - e >= 5 && src[d - 5..d + 2] == SECTION_HEAD && src[e..e + 5] == SECTION_TAIL)
      <==> (last + 5 <= d && OccursAt(src[..hi], d - 5, SECTION_HEAD) && OccursAt(src[..hi], e, SECTION_TAIL))
  {
    if d >= 5 {
      assert src[..hi][d - 5..d + 2] == src[d - 5..d + 2];
      if d >= lo + 4 && OccursAt(src[..hi], d - 5, SECTION_HEAD) { TagTest(src[..hi], lo, last, d); }
    }
    if hi - e >= 5 { assert src[..hi][e..e + 5] == src[e..e + 5]; }
  }

  lemma Within(src: string, hi: nat, a: nat, b: nat)
    requires a <= b <= hi <= |src|
    ensures src[..hi][a..b] == src[a..b] && src[..hi][a..] == src[a..hi]
  {
  }

  lemma FieldStepIn(t: Tpl, src: string, hi: nat, last: nat, d: nat, e: nat)
    requires last <= hi <= |src| && FirstAt(src[..hi], LEFT, last) == Some(d)
      && FirstAt(src[..hi], RIGHT, d + 2) == Some(e)
    requires !(last + 5 <= d && OccursAt(src[..hi], d - 5, SECTION_HEAD) && OccursAt(src[..hi], e, SECTION_TAIL))
    requires NamesOk(src[..hi][last..])
    ensures last <= d && d + 2 < e < hi && NamesOk(src[..hi][e + 1..])
    ensures Left(t, src[..hi][last..])
      == Left(AddField(AddTextIfAny(t, src[last..d]), src[d + 2..e]), src[..hi][e + 1..])
  {
    hide FirstAt, OccursAt, NamesOk, Left, AddField, AddTextIfAny;
    FieldStep(t, src[..hi], last, d, e);
    Within(src, hi, last, d);
    Within(src, hi, d + 2, e);
  }

  /** The end of the section whose tag lies in d - 5..e + 5. */
  function Ending(src: string, hi: nat, d: nat, e: nat): (r: Option<nat>)
    requires 5 <= d && d + 2 <= e && e + 5 <= hi <= |src|
    ensures r.Some? ==> e + 5 <= r.value && r.value + (e - d + 10) <= hi
  {
    FirstAtSpec(src[..hi], src[d - 5..e + 5], e + 5);
    FirstAt(src[..hi], src[d - 5..e + 5], e + 5)
  }

  lemma SectionStepIn(t: Tpl, src: string, hi: nat, last: nat, d: nat, e: nat)
    requires last <= hi <= |src| && FirstAt(src[..hi], LEFT, last) == Some(d)
      && FirstAt(src[..hi], RIGHT, d + 2) == Some(e)
    requires last + 5 <= d && OccursAt(src[..hi], d - 5, SECTION_HEAD) && OccursAt(src[..hi], e, SECTION_TAIL)
    requires NamesOk(src[..hi][last..])
    ensures d + 2 < e && e + 5 <= hi && src[e + 4] == '>'
    ensures var name, b, u := src[d + 2..e], e + 5, AddTextIfAny(t, src[last..d - 5]);
      match Ending(src, hi, d, e)
      case None => Left(t, src[..hi][last..]) == LeftUnclosed(t, src[last..d - 5], name)
      case Some(c) =>
        (NamesOk(src[b..c]) && NamesOk(src[..hi][c + (e - d + 10)..]) && src[c + (e - d + 9)] == '>'
         && Left(t, src[..hi][last..])
            == if Lookup(SecKeys(u.secs), name).Some? then (u, Repeated)
               else if Parse(src[b..c]).None? then (AddSection(u, name, EMPTY), BadSection)
               else Left(AddSection(u, name, Parse(src[b..c]).value), src[..hi][c + (e - d + 10)..]))
  {
    hide FirstAt, NamesOk, Left, LeftUnclosed, Parse, AddSection, AddTextIfAny, Lookup;
    SectionStep(t, src[..hi], last, d, e);
    Within(src, hi, last, d - 5);
    Within(src, hi, d + 2, e);
    Within(src, hi, d - 5, e + 5);
    CharsAt(src[..hi], e, SECTION_TAIL, 4);
    if Ending(src, hi, d, e).Some? {
      var c := Ending(src, hi, d, e).value;
      Within(src, hi, e + 5, c);
      CharsAt(src[..hi], c, src[d - 5..e + 5], e - d + 9);
    }
  }

  method NewSection(parent: Template?) returns (sub: Template)
    ensures Building(sub) && fresh(sub) && sub.parent == parent && sub.repr == {sub} && sub.Abs() == EMPTY
    ensures LinksOf(sub.repr) == {}
  {
    hide Distinct, Linked, Texts, Buckets, CellKeys, CellNames, Template.SelOk, Tidy, Parented;
    sub := new Template();
    assert sub.fields == Buckets(CellKeys([])) && sub.sections == Buckets(CellNames([])) && sub.tpl == sub;
    assert sub.head == [] && sub.cells == [] && sub.added == [] && sub.sel == [];
    hide Building, Template.Valid, Template.Abs;
    sub.parent := parent;
    EmptyBuilding(sub);
  }

  /** A level with nothing in it can be built on. */
  lemma EmptyBuilding(t: Template)
    requires t.fields == Buckets(CellKeys([])) && t.sections == Buckets(CellNames([])) && t.repr == {t}
    requires t.head == [] && t.cells == [] && t.first == [] && t.sel == [] && t.tpl == t
    requires t.links == [] && t.added == [] && t.ChainOk() && t.RoomOk()
    ensures Building(t) && t.SelOk() && Tidy(t.repr) && Parented(t.repr) && t.Abs() == EMPTY
    ensures LinksOf(t.repr) == {}
  {
    hide Buckets, CellKeys, CellNames, Distinct, Linked, Texts, Template.ChainOk;
    SoloTidy(t);
    hide Tidy;
  }

  method FindSectionIn(t: Template, name: string) returns (r: Option<nat>)
    requires Building(t) && name != ""
    ensures r == Lookup(SecKeys(t.Abs().secs), name)
  {
    t.AbsKeys();
    r := t.FindSection(name);
  }

  /** Creates a section that was not found before, chained in and still empty. */
  method MakeSection(t: Template, name: string) returns (sub: Template)
    requires Building(t) && name != ""
    modifies t`first, t`sections, t`repr
    ensures Building(sub) && fresh(sub) && sub.repr == {sub} && sub.Abs() == EMPTY && LinksOf(sub.repr) == {}
    ensures sub.parent == t && t.first == old(t.first) + [SectionCell(name, |t.head|, sub)]
    ensures t.repr == old(t.repr) + {sub} && t.sections == Buckets(CellNames(t.first))
  {
    assert t.fields == Buckets(CellKeys(t.cells)) && t.sections == Buckets(CellNames(t.first)) && t in t.repr;
    hide Building;
    sub := NewSection(t);
    ChainIn(t, SectionCell(name, |t.head|, sub));
  }

  /** Releases a section whose body could not be built, and initialises it again: it has no parent then. */
  method ReleaseSection(sub: Template)
    requires Shaped(sub) && LinksOf(sub.repr) == {}
    modifies sub`head, sub`cells, sub`fields, sub`first, sub`sections, sub`tpl, sub`parent, sub`sel, sub`room
    modifies sub`addedHead, sub`addedTail, sub`links, sub`added, sub`repr
    ensures sub.Valid() && sub.SelOk() && sub.Abs() == EMPTY && sub.parent == null && sub.repr == {sub}
    ensures Tidy(sub.repr) && Parented(sub.repr) && LinksOf(sub.repr) == {}
  {
    hide Distinct, Linked, Texts, Buckets, CellKeys, CellNames, Template.SelOk, Tidy, Parented, Template.ChainOk;
    ChainWhenShaped(sub);
    sub.Clear();
    assert sub.fields == Buckets(CellKeys([])) && sub.sections == Buckets(CellNames([]));
    assert sub.head == [] && sub.cells == [] && sub.added == [];
    hide Shaped, Building, Template.Valid, Template.Abs;
    sub.repr := {sub};
    EmptyBuilding(sub);
  }

  lemma ChainWhenShaped(t: Template)
    requires Shaped(t)
    ensures t.ChainOk()
  {
    hide Buckets, CellKeys, CellNames, Distinct, Linked, Texts;
    assert t in t.repr;
  }

  /** Builds the body of a new section whose name lies in d + 2..e, or leaves it without a parent. */
  method ReadBody(sub: Template, src: string, hi: nat, d: nat, e: nat)
    returns (code: int, last: nat, ghost cause: Cause)
    requires 5 <= d && d + 2 < e && e + 5 <= hi <= |src| && src[e + 4] == '>'
    requires Building(sub) && sub.repr == {sub} && sub.Abs() == EMPTY && LinksOf(sub.repr) == {}
    requires Ending(src, hi, d, e).Some? ==> NamesOk(src[e + 5..Ending(src, hi, d, e).value])
    modifies sub
    ensures sub.Valid() && sub.SelOk() && Tidy(sub.repr) && Parented(sub.repr) && LinksOf(sub.repr) == {}
    ensures fresh(sub.repr - {sub}) && code == (if cause == NoFault then TPL_OK else TPL_SYNTAX_ERROR)
    ensures sub.parent == if cause == BadSection then null else old(sub.parent)
    ensures var ending := Ending(src, hi, d, e);
      if ending.None? || Parse(src[e + 5..ending.value]).None? then sub.Abs() == EMPTY && cause == BadSection
      else
        (sub.Abs() == Parse(src[e + 5..ending.value]).value && cause == NoFault
         && last == ending.value + (e - d + 10))
    decreases hi - d, 0
  {
    hide Building, Shaped, Parse, NamesOk, FirstAt, Left, Tidy, Parented, ParentedBut, Template.Abs, Template.Valid,
      Template.SelOk;
    last, code, cause := d, TPL_SYNTAX_ERROR, NoFault;
    var beginning := e + 5;
    var ending := StrStr(src, beginning, hi, src[d - 5..beginning]);
    NoOrphan(sub);
    if ending.Some? {
      last := ending.value + (beginning - (d - 5));
      code, cause := Construct(sub, src, beginning, ending.value);
      NoOrphan(sub);
    }
    if code != TPL_OK {
      ReleaseSection(sub);
      cause := BadSection;
    } else {
      BuildingSel(sub);
    }
  }

  /** Makes the section whose name lies in d + 2..e, and then builds its body. */
  method ReadNewSection(t: Template, src: string, hi: nat, d: nat, e: nat)
    returns (code: int, last: nat, ghost cause: Cause)
    requires 5 <= d && d + 2 < e && e + 5 <= hi <= |src| && src[e + 4] == '>'
    requires Building(t) && LinksOf(t.repr) == {}
    requires Ending(src, hi, d, e).Some? ==> NamesOk(src[e + 5..Ending(src, hi, d, e).value])
    modifies t`first, t`sections, t`repr
    ensures Shaped(t) && ParentedBut(t.repr, t, cause == BadSection) && LinksOf(t.repr) == {}
    ensures fresh(t.repr - old(t.repr)) && code == (if cause == NoFault then TPL_OK else TPL_SYNTAX_ERROR)
    ensures var u, name, ending := old(t.Abs()), src[d + 2..e], Ending(src, hi, d, e);
      if ending.None? || Parse(src[e + 5..ending.value]).None? then
        (t.Abs(), cause) == (AddSection(u, name, EMPTY), BadSection)
      else
        ((t.Abs(), cause) == (AddSection(u, name, Parse(src[e + 5..ending.value]).value), NoFault)
         && last == ending.value + (e - d + 10))
    decreases hi - d, 1
  {
    hide Building, Shaped, Parse, NamesOk, Ending, AddSection, Tidy, Parented, ParentedBut, LinksOf, Buckets, CellNames,
      Template.Abs, Template.Valid, Template.SelOk;
    var sub := MakeSection(t, src[d + 2..e]);
    code, last, cause := ReadBody(sub, src, hi, d, e);
    t.repr := t.repr + sub.repr;
    Extended(t, sub, src[d + 2..e], cause == BadSection);
  }

  /** Reads the section whose name lies in d + 2..e unless its level has one that answers for it. */
  method ReadSection(t: Template, src: string, hi: nat, d: nat, e: nat)
    returns (code: int, last: nat, ghost cause: Cause)
    requires 5 <= d && d + 2 < e && e + 5 <= hi <= |src| && src[e + 4] == '>'
    requires Building(t) && LinksOf(t.repr) == {}
    requires Ending(src, hi, d, e).Some? ==> NamesOk(src[e + 5..Ending(src, hi, d, e).value])
    modifies t`first, t`sections, t`repr
    ensures Shaped(t) && ParentedBut(t.repr, t, cause == BadSection) && LinksOf(t.repr) == {}
    ensures fresh(t.repr - old(t.repr)) && code == (if cause == NoFault then TPL_OK else TPL_SYNTAX_ERROR)
    ensures var u, name, ending := old(t.Abs()), src[d + 2..e], Ending(src, hi, d, e);
      if Lookup(SecKeys(u.secs), name).Some? then (t.Abs(), cause) == (u, Repeated)
      else if ending.None? || Parse(src[e + 5..ending.value]).None? then
        (t.Abs(), cause) == (AddSection(u, name, EMPTY), BadSection)
      else
        ((t.Abs(), cause) == (AddSection(u, name, Parse(src[e + 5..ending.value]).value), NoFault)
         && last == ending.value + (e - d + 10))
    decreases hi - d, 2
  {
    hide Building, Shaped, Parse, NamesOk, Ending, Lookup, AddSection, Parented, ParentedBut, LinksOf, SecKeys,
      Template.Abs, Template.Valid;
    last := d;
    NoOrphan(t);
    var found := FindSectionIn(t, src[d + 2..e]);
    if found.Some? { return TPL_SYNTAX_ERROR, d, Repeated; }
    code, last, cause := ReadNewSection(t, src, hi, d, e);
  }

  /** Reads the text up to a field tag, and the field whose name lies in d + 2..e. */
  method ReadField(t: Template, src: string, hi: nat, last: nat, d: nat, e: nat)
    requires last <= hi <= |src| && FirstAt(src[..hi], LEFT, last) == Some(d)
      && FirstAt(src[..hi], RIGHT, d + 2) == Some(e)
    requires !(last + 5 <= d && OccursAt(src[..hi], d - 5, SECTION_HEAD) && OccursAt(src[..hi], e, SECTION_TAIL))
    requires Building(t) && LinksOf(t.repr) == {} && NamesOk(src[..hi][last..])
    modifies t`head, t`cells, t`room, t`fields
    ensures last <= d && d + 2 < e < hi && NamesOk(src[..hi][e + 1..])
    ensures Building(t) && LinksOf(t.repr) == {}
    ensures Left(t.Abs(), src[..hi][e + 1..]) == Left(old(t.Abs()), src[..hi][last..])
  {
    hide Building, Left, NamesOk, FirstAt, OccursAt, AddField, AddTextIfAny, Template.Abs, Template.Valid;
    FieldStepIn(t.Abs(), src, hi, last, d, e);
    AddTextBetween(t, src, last, d);
    AddFieldNode(t, src[d + 2..e]);
  }

  /** Reads the text up to a section tag, and the section whose name lies in d + 2..e. */
  method ReadTagged(t: Template, src: string, hi: nat, from: nat, d: nat, e: nat)
    returns (code: int, last: nat, ghost cause: Cause)
    requires from <= hi <= |src| && FirstAt(src[..hi], LEFT, from) == Some(d)
      && FirstAt(src[..hi], RIGHT, d + 2) == Some(e)
    requires from + 5 <= d && OccursAt(src[..hi], d - 5, SECTION_HEAD) && OccursAt(src[..hi], e, SECTION_TAIL)
    requires Building(t) && LinksOf(t.repr) == {} && NamesOk(src[..hi][from..])
    modifies t`head, t`first, t`sections, t`repr
    ensures Shaped(t) && ParentedBut(t.repr, t, cause == BadSection) && LinksOf(t.repr) == {}
    ensures fresh(t.repr - old(t.repr)) && code == (if cause == NoFault then TPL_OK else TPL_SYNTAX_ERROR)
    ensures
      if cause == NoFault then
        (Building(t) && from < last <= hi && src[last - 1] == '>' && NamesOk(src[..hi][last..])
         && Left(t.Abs(), src[..hi][last..]) == Left(old(t.Abs()), src[..hi][from..]))
      else (t.Abs(), cause) == Left(old(t.Abs()), src[..hi][from..])
    decreases hi - d, 3
  {
    hide Building, Shaped, Parse, Left, NamesOk, FirstAt, OccursAt, Lookup, AddSection, AddTextIfAny, Ending, Tidy,
      Parented, ParentedBut, Template.Abs, Template.Valid, Template.SelOk;
    SectionStepIn(t.Abs(), src, hi, from, d, e);
    AddTextBetween(t, src, from, d - 5);
    code, last, cause := ReadSection(t, src, hi, d, e);
    NoOrphan(t);
  }

  /** Parses src[lo..hi] onto an empty level. What it leaves, on an error too, is the described level; only
      a bad section at its end has no parent. */
  method Construct(t: Template, src: string, lo: nat, hi: nat) returns (code: int, ghost cause: Cause)
    requires lo <= hi <= |src| && (lo > 0 ==> src[lo - 1] == '>')
    requires Building(t) && t.repr == {t} && t.Abs() == EMPTY && LinksOf(t.repr) == {} && NamesOk(src[lo..hi])
    modifies t`head, t`cells, t`room, t`fields, t`first, t`sections, t`repr
    ensures Shaped(t) && ParentedBut(t.repr, t, cause == BadSection) && LinksOf(t.repr) == {}
    ensures (t.Abs(), cause) == Left(EMPTY, src[lo..hi])
    ensures fresh(t.repr - {t}) && code == (if cause == NoFault then TPL_OK else TPL_SYNTAX_ERROR)
    ensures Parse(src[lo..hi]) == if cause == NoFault then Some(t.Abs()) else None
    decreases hi - lo
  {
    hide Building, Shaped, Parse, Left, NamesOk, FirstAt, OccursAt, Lookup, AddField, AddSection,
      AddTextIfAny, Ending, Tidy, Parented, ParentedBut, Template.Abs, Template.Valid, Template.SelOk;
    ghost var s := src[..hi];
    var last := lo;
    Within(src, hi, lo, hi);
    LeftOfText(src[lo..hi]);
    var curr := StrStr(src, last, hi, LEFT);
    while curr.Some?
      invariant lo <= last <= hi && (last > 0 ==> src[last - 1] == '>')
      invariant curr == FirstAt(s, LEFT, last)
      invariant Building(t) && fresh(t.repr - {t}) && LinksOf(t.repr) == {}
      invariant NamesOk(s[last..]) && Left(t.Abs(), s[last..]) == Left(EMPTY, src[lo..hi])
      decreases hi - last
    {
      var d := curr.value;
      CutAt(s, last, d);
      NoOrphan(t);
      var next := StrStr(src, d + 2, hi, RIGHT);
      if next.None? {
        BrokenStep(t.Abs(), s, last, d);
        return TPL_SYNTAX_ERROR, MissingRight;
      }
      var e := next.value;
      SectionTest(src, lo, hi, last, d, e);
      if d + 3 >= lo + 7 && d >= 5 && hi - e >= 5
         && src[d - 5..d + 2] == SECTION_HEAD && src[e..e + 5] == SECTION_TAIL {
        code, last, cause := ReadTagged(t, src, hi, last, d, e);
        if code != TPL_OK { return; }
      } else {
        ReadField(t, src, hi, last, d, e);
        last := e + 1;
      }
      curr := StrStr(src, last, hi, LEFT);
    }
    LastStep(t.Abs(), s, last);
    Within(src, hi, last, hi);
    AddTextBetween(t, src, last, hi);
    NoOrphan(t);
    code, cause := TPL_OK, NoFault;
  }

  lemma LeftOfText(r: string)
    ensures Parse(r) == if Left(EMPTY, r).1 == NoFault then Some(Left(EMPTY, r).0) else None
  {
    hide Left;
    LeftParses(EMPTY, r);
  }

  // --- whole texts

  /** Constructs a template from a text in memory: on a syntax error, what was read stays. It is a template
      ready for every operation unless the construction stopped at a bad section. */
  method FromString(t: Template, src: string) returns (code: int, ghost cause: Cause)
    requires Building(t) && t.repr == {t} && t.Abs() == EMPTY && LinksOf(t.repr) == {} && NamesOk(src)
    modifies t`head, t`cells, t`room, t`fields, t`first, t`sections, t`repr
    ensures t.Valid() && t.SelOk() && Tidy(t.repr) && (t.Abs(), cause) == Left(EMPTY, src) && Invariant(t.Abs())
    ensures Parse(src) == if cause == NoFault then Some(t.Abs()) else None
    ensures fresh(t.repr - {t}) && LinksOf(t.repr) == {}
    ensures code == if cause == NoFault then TPL_OK else TPL_SYNTAX_ERROR
    ensures ParentedBut(t.repr, t, cause == BadSection)
    ensures t.Ready() <==> cause != BadSection
    ensures Parented(t.repr) <==> cause != BadSection
    ensures cause == BadSection ==> t.first != [] && t.first[|t.first| - 1].tpl.parent == null
  {
    hide Parse, Left, NamesOk, Invariant, Tidy, Parented, ParentedBut, Template.SelOk, Template.Abs, Template.Valid;
    assert src[0..|src|] == src;
    code, cause := Construct(t, src, 0, |src|);
    LeftInvariant(src);
    SectionCount(t);
    BuildingSel(t);
    NoOrphan(t);
    if cause == BadSection {
      BadSectionStays(EMPTY, src);
    }
  }

  /** Loading a text: a new template becomes the tree of the text, or is initialised again on a syntax error. */
  method Load(t: Template, src: string) returns (code: int)
    requires Building(t) && t.repr == {t} && t.Abs() == EMPTY && LinksOf(t.repr) == {} && NamesOk(src)
    modifies t
    ensures t.Ready() && fresh(t.repr - {t}) && LinksOf(t.repr) == {}
    ensures match Parse(src)
      case Some(a) => code == TPL_OK && t.Abs() == a
      case None => code == TPL_SYNTAX_ERROR && t.Abs() == EMPTY
  {
    hide Building, Shaped, Parse, Left, NamesOk, Invariant, Tidy, Parented, ParentedBut, Template.SelOk, Template.Abs,
      Template.Valid;
    assert src[0..|src|] == src;
    ghost var cause;
    code, cause := Construct(t, src, 0, |src|);
    NoOrphan(t);
    LeftInvariant(src);
    if code != TPL_OK {
      ReleaseSection(t);
    } else {
      BuildingSel(t);
    }
  }

  /** A text that opens a section and never closes it: the constructed template is not one that can be
      worked with, as the lookup finds a section without a parent. */
  method Orphaned(name: string) returns (t: Template, code: int, found: Option<nat>)
    requires NameOk(name) && '>' !in name
    ensures fresh(t) && t.Valid() && !t.Ready() && code == TPL_SYNTAX_ERROR && Parse(Tag(name)) == None
    ensures found == Some(0) && |t.first| == 1 && t.first[0].key == name && t.first[0].tpl.parent == null
  {
    hide Tag, Parse, Left, NamesOk, Invariant, Tidy, Parented, ParentedBut, Template.SelOk, Lookup;
    t := NewSection(null);
    UnclosedLeaves(name);
    ghost var cause;
    code, cause := FromString(t, Tag(name));
    assert t.Abs().secs == [Sec(name, 0, EMPTY)];
    t.AbsKeys();
    assert CellNames(t.first) == [name];
    found := t.FindSection(name);
    LookupOnly(name);
  }

  lemma LeftInvariant(r: string)
    ensures Invariant(EMPTY) && Invariant(Left(EMPTY, r).0)
  {
    EmptyLevel();
    LeftKeeps(EMPTY, r);
    hide Left;
    PristineUnselected(Left(EMPTY, r).0);
  }

  /** A bad section is the last one of what is left. */
  lemma {:induction false} BadSectionStays(t: Tpl, r: string)
    requires Left(t, r).1 == BadSection
    ensures Left(t, r).0.secs != []
    decreases |r|
  {
    hide Parse, Lookup, AddField;
    match CutOf(r) {
      case Plain =>
      case Broken =>
      case FieldCut(text, name, tail) => BadSectionStays(AddField(AddTextIfAny(t, text), name), tail);
      case SectionCut(text, name, body, tail) =>
        var u := AddTextIfAny(t, text);
        if Lookup(SecKeys(u.secs), name).None? && Parse(body).Some? {
          BadSectionStays(AddSection(u, name, Parse(body).value), tail);
        }
    }
  }
}
