/** The operations that visit every level: reset and global field set. */
module Traversal {
  import opened Names
  import opened Tree
  import opened Ops
  import opened Runs
  import opened Links
  import opened Templates

  // --- reset

  /** Cells of the buckets from b on are cleared. */
  predicate ClearedFrom(cells: seq<Cell>, cells': seq<Cell>, b: nat) {
    && |cells'| == |cells|
    && forall c | 0 <= c < |cells| ::
         cells'[c] == if Hash(cells[c].key) >= b then Cell(cells[c].key, "") else cells[c]
  }

  /** Empties every field value, walking the buckets from the last to the first. */
  method ClearFields(t: Template)
    requires t.Valid() && t.RoomOk()
    modifies t`cells
    ensures t.Valid() && t.RoomOk() && t.cells == ClearedCells(old(t.cells))
    ensures t.Abs() == old(t.Abs()).(cells := ClearedCells(old(t.cells)))
    ensures (forall i | 0 <= i < |t.first| :: old(t.first[i].tpl.SelOk())) ==>
      (forall i | 0 <= i < |t.first| :: t.first[i].tpl.SelOk())
  {
    ghost var cells := t.cells;
    var b := TABLE_SIZE;
    while b != 0
      invariant 0 <= b <= TABLE_SIZE && ClearedFrom(cells, t.cells, b)
      decreases b
    {
      b := b - 1;
      t.cells := ClearBucket(t.cells, t.fields[b], cells, b);
    }
    assert t.cells == ClearedCells(cells);
    assert CellKeys(t.cells) == CellKeys(cells);
    OwnChanged(t);
  }

  method ClearBucket(cells: seq<Cell>, chain: seq<nat>, ghost before: seq<Cell>, ghost b: nat)
    returns (cells': seq<Cell>)
    requires ClearedFrom(before, cells, b + 1) && chain == Chain(CellKeys(before), b)
    ensures ClearedFrom(before, cells', b)
  {
    hide Hash, Chain;
    ChainSpec(CellKeys(before), b);
    cells' := cells;
    var k := 0;
    while k < |chain|
      invariant 0 <= k <= |chain| && |cells'| == |before|
      invariant forall c | 0 <= c < |before| ::
        cells'[c] == if Hash(before[c].key) > b || c in chain[..k] then Cell(before[c].key, "") else before[c]
    {
      assert chain[k] in chain;
      cells' := cells'[chain[k] := cells'[chain[k]].(val := "")];
      k := k + 1;
    }
    assert chain[..k] == chain;
    forall c: nat | c < |before| ensures Hash(before[c].key) == b <==> c in chain {
    }
  }

  /** Each level of s has the chain it had, or none, and each of its values is as long as it was or shorter. */
  twostate predicate ChainsDropped(new s: set<Template>)
    requires forall u <- s :: old(allocated(u))
    reads s
  {
    forall u <- s ::
      && (SameChain(u) || (u.links == [] && u.added == [] && u.addedHead == null && u.addedTail == null))
      && u.room == old(u.room) && |u.cells| == |old(u.cells)|
      && forall c | 0 <= c < |u.cells| :: |u.cells[c].val| <= |old(u.cells)[c].val|
  }

  twostate lemma DroppedTidy(new s: set<Template>)
    requires (forall u <- s :: old(allocated(u))) && old(Tidy(s)) && ChainsDropped(s)
    requires forall l | l in old(LinksOf(s)) :: unchanged(l)
    ensures Tidy(s) && LinksOf(s) <= old(LinksOf(s))
  {
    hide Distinct, Linked;
    forall u | u in s ensures u.RoomOk() { assert old(u.RoomOk()); }
    forall u | u in s ensures u.ChainOk() && forall l | l in u.links :: l in old(LinksOf(s)) {
      assert old(u.ChainOk());
      if u.links == [] {
        NoLinks(u);
      } else {
        forall i | 0 <= i < |u.links| ensures unchanged(u.links[i]) {
          assert u.links[i] in old(u.links) && u.links[i] in old(LinksOf(s));
        }
        ChainSame(u.links);
      }
    }
    forall u, v | u in s && v in s && u != v ensures Apart(u.links, v.links) {
      assert old(Apart(u.links, v.links));
    }
  }

  lemma NoLinks(u: Template)
    requires u.links == [] && u.added == [] && u.addedHead == null && u.addedTail == null
    ensures u.ChainOk()
  {
  }

  /** The tree with its own cells and its first k sections reset. */
  function ResetTo(a: Tpl, k: nat): (r: Tpl)
    requires k <= |a.secs|
    ensures |r.secs| == |a.secs|
    decreases k
  {
    if k == 0 then a.(cells := ClearedCells(a.cells))
    else SetChild(ResetTo(a, k - 1), k - 1, Ops.Reset(a.secs[k - 1].tpl).(added := []))
  }

  lemma {:induction false} ResetToSecs(a: Tpl, k: nat)
    requires k <= |a.secs|
    ensures var r := ResetTo(a, k);
      && r == a.(cells := r.cells, secs := r.secs) && r.cells == ClearedCells(a.cells) && |r.secs| == |a.secs|
      && forall i | 0 <= i < |a.secs| ::
           r.secs[i] == if i < k then a.secs[i].(tpl := Ops.Reset(a.secs[i].tpl).(added := [])) else a.secs[i]
    ensures k < |a.secs| ==>
      ResetTo(a, k + 1) == SetChild(ResetTo(a, k), k, Ops.Reset(a.secs[k].tpl).(added := []))
    decreases k
  {
    if k > 0 { ResetToSecs(a, k - 1); }
  }

  lemma ResetToAll(a: Tpl)
    ensures ResetTo(a, |a.secs|) == Ops.Reset(a)
  {
    ResetToSecs(a, |a.secs|);
    assert ResetTo(a, |a.secs|).secs == Ops.Reset(a).secs;
  }

  /** Drops section k's added content and resets the section. */
  method ResetSection(t: Template, k: nat)
    requires t.Valid() && k < |t.first| && Tidy(t.repr)
    modifies t.repr`cells, t.repr`addedHead, t.repr`addedTail, t.repr`links, t.repr`added
    ensures t.Valid() && ChainsDropped(t.repr)
    ensures t.Abs() == SetChild(old(t.Abs()), k, Ops.Reset(old(t.Abs()).secs[k].tpl).(added := []))
    decreases t.repr, 0
  {
    hide Buckets, CellKeys, CellNames, Ops.Reset, Tidy;
    TidyPart(t.repr, t.first[k].tpl.repr);
    ClearSection(t.first[k].tpl);
    OneUp(t, k);
  }

  method ClearSection(c: Template)
    requires c.Valid() && Tidy(c.repr)
    modifies c.repr`cells, c.repr`addedHead, c.repr`addedTail, c.repr`links, c.repr`added
    ensures c.Valid() && ChainsDropped(c.repr)
    ensures c.Abs() == Ops.Reset(old(c.Abs())).(added := [])
    decreases c.repr, 3
  {
    hide Buckets, CellKeys, CellNames;
    ghost var a := c.Abs();
    DropAdded(c);
    DroppedTidy(c.repr);
    Reset(c);
    assert Ops.Reset(a.(added := [])) == Ops.Reset(a).(added := []);
  }

  method DropAdded(c: Template)
    requires c.Valid() && Tidy(c.repr)
    modifies c`addedHead, c`addedTail, c`links, c`added
    ensures c.Valid() && c.Abs() == old(c.Abs()).(added := []) && ChainsDropped(c.repr)
  {
    hide Buckets, CellKeys, CellNames, Distinct, Linked, Texts;
    c.FreeChain();
    OwnChanged(c);
  }

  method ResetSections(t: Template, ghost a: Tpl)
    requires t.Valid() && t.Abs() == ResetTo(a, 0) && Tidy(t.repr)
    modifies t.repr`cells, t.repr`addedHead, t.repr`addedTail, t.repr`links, t.repr`added
    ensures t.Valid() && ChainsDropped(t.repr)
    ensures t.Abs() == Ops.Reset(a)
    decreases t.repr, 1
  {
    hide ResetTo, Ops.Reset, Tidy, Template.Valid, Template.Abs;
    SectionCount(t);
    var k := 0;
    while k < |t.first|
      invariant 0 <= k <= |t.first| == |a.secs| && t.Valid() && t.Abs() == ResetTo(a, k)
      invariant ChainsDropped(t.repr)
    {
      DroppedTidy(t.repr);
      ResetToSecs(a, k);
      ResetSection(t, k);
      k := k + 1;
    }
    ResetToAll(a);
  }

  /** Clears the fields, then the added content of the sections, at every level. */
  method Reset(t: Template)
    requires t.Valid() && Tidy(t.repr)
    modifies t.repr`cells, t.repr`addedHead, t.repr`addedTail, t.repr`links, t.repr`added
    ensures t.Valid() && ChainsDropped(t.repr)
    ensures t.Abs() == Ops.Reset(old(t.Abs()))
    decreases t.repr, 2
  {
    hide Buckets, CellKeys, CellNames, Ops.Reset, Tidy, Template.RoomOk;
    ghost var a := t.Abs();
    SectionCount(t);
    RoomWhenTidy(t.repr, t);
    ClearFields(t);
    DroppedTidy(t.repr);
    ResetSections(t, a);
  }

  lemma ResetInvariant(t: Tpl)
    requires Invariant(t)
    ensures Invariant(Ops.Reset(t))
  {
    hide WellFormed, Children;
    ResetKeeps(t, t.sel);
  }

  method ResetTemplate(t: Template)
    requires t.Ready()
    modifies t.repr`cells, t.repr`addedHead, t.repr`addedTail, t.repr`links, t.repr`added
    ensures t.Ready() && t.Abs() == Ops.Reset(old(t.Abs())) && LinksOf(t.repr) <= old(LinksOf(t.repr))
  {
    hide Ops.Reset, Invariant, Tidy, Parented, Template.Valid, Template.SelOk, Template.Abs;
    ResetInvariant(t.Abs());
    Reset(t);
    SelKept(t);
    DroppedTidy(t.repr);
    ParentsKept(t.repr);
  }

  // --- setting a field at every level

  lemma {:induction false} SelOkAllSel(t: Template)
    requires t.Valid() && t.SelOk()
    ensures AllSel(t.Abs())
    decreases t.repr
  {
    hide Buckets, CellKeys, CellNames;
    forall i | 0 <= i < |t.first| ensures AllSel(t.Abs().secs[i].tpl) {
      SelOkAllSel(t.first[i].tpl);
    }
  }

  /** The tree with its first k sections handed the value. */
  function GlobalTo(u: Tpl, k: nat, key: string, val: string): (r: Tpl)
    requires k <= |u.secs| && forall i | 0 <= i < |u.secs| :: AllSel(u.secs[i].tpl)
    ensures |r.secs| == |u.secs|
    decreases k
  {
    if k == 0 then u else SetChild(GlobalTo(u, k - 1, key, val), k - 1, SetGlobal(u.secs[k - 1].tpl, key, val))
  }

  lemma {:induction false} GlobalToSecs(u: Tpl, k: nat, key: string, val: string)
    requires k <= |u.secs| && forall i | 0 <= i < |u.secs| :: AllSel(u.secs[i].tpl)
    ensures var r := GlobalTo(u, k, key, val);
      && r == u.(secs := r.secs) && |r.secs| == |u.secs|
      && forall i | 0 <= i < |u.secs| ::
           r.secs[i] == if i < k then u.secs[i].(tpl := SetGlobal(u.secs[i].tpl, key, val)) else u.secs[i]
    ensures (k == 0 ==> GlobalTo(u, k, key, val) == u) && (k < |u.secs| ==>
      GlobalTo(u, k + 1, key, val) == SetChild(GlobalTo(u, k, key, val), k, SetGlobal(u.secs[k].tpl, key, val)))
    decreases k
  {
    hide SetGlobal, AllSel;
    if k > 0 { GlobalToSecs(u, k - 1, key, val); }
  }

  lemma GlobalToAll(a: Tpl, key: string, val: string)
    requires AllSel(a)
    ensures var u := Ops.SetField(a, key, val);
      && (forall i | 0 <= i < |u.secs| :: AllSel(u.secs[i].tpl))
      && GlobalTo(u, |u.secs|, key, val) == SetGlobal(a, key, val)
  {
    var u := Ops.SetField(a, key, val);
    ReplaceCells(a, a.sel, SetCell(Sub(a, a.sel), key, val));
    GlobalToSecs(u, |u.secs|, key, val);
    assert GlobalTo(u, |u.secs|, key, val).secs == SetGlobal(a, key, val).secs;
  }

  method SetInSection(t: Template, k: nat, key: string, val: string)
    requires t.Valid() && t.SelOk() && Tidy(t.repr) && k < |t.first| && key != ""
    modifies t.repr`cells, t.repr`room
    ensures t.Valid() && t.SelOk() && Tidy(t.repr)
    ensures AllSel(old(t.Abs()).secs[k].tpl)
    ensures t.Abs() == SetChild(old(t.Abs()), k, SetGlobal(old(t.Abs()).secs[k].tpl, key, val))
    decreases t.repr, 0
  {
    hide Buckets, CellKeys, CellNames, SetGlobal, Tidy;
    SectionCount(t);
    TidyPart(t.repr, t.first[k].tpl.repr);
    SetFieldGlobal(t.first[k].tpl, key, val);
    Regrouped(t.repr, t.first[k].tpl.repr);
    OneUp(t, k);
    SelKept(t);
  }

  method SetInSections(t: Template, ghost u: Tpl, key: string, val: string)
    requires t.Valid() && t.SelOk() && Tidy(t.repr) && t.Abs() == u && key != ""
    requires forall i | 0 <= i < |u.secs| :: AllSel(u.secs[i].tpl)
    modifies t.repr`cells, t.repr`room
    ensures t.Valid() && t.SelOk() && Tidy(t.repr)
    ensures t.Abs() == GlobalTo(u, |u.secs|, key, val)
    decreases t.repr, 1
  {
    hide SetGlobal, AllSel, GlobalTo, Tidy, Template.Valid, Template.SelOk, Template.Abs;
    SectionCount(t);
    GlobalToSecs(u, 0, key, val);
    var k := 0;
    while k < |t.first|
      invariant 0 <= k <= |t.first| == |u.secs| && t.Valid() && t.SelOk() && Tidy(t.repr)
      invariant t.Abs() == GlobalTo(u, k, key, val)
    {
      SectionCount(t);
      GlobalToSecs(u, k, key, val);
      SetInSection(t, k, key, val);
      k := k + 1;
    }
  }

  /** Sets the field where this level's selection pointer leads, then in every section. */
  method SetFieldGlobal(t: Template, key: string, val: string)
    requires t.Valid() && t.SelOk() && Tidy(t.repr) && key != ""
    modifies t.repr`cells, t.repr`room
    ensures t.Valid() && t.SelOk() && Tidy(t.repr)
    ensures AllSel(old(t.Abs())) && t.Abs() == SetGlobal(old(t.Abs()), key, val)
    decreases t.repr, 2
  {
    hide Buckets, CellKeys, CellNames, SetGlobal, AllSel, Ops.SetField, GlobalTo, Tidy;
    ghost var a := t.Abs();
    SelOkAllSel(t);
    GlobalToAll(a, key, val);
    t.SetField(key, val);
    SetInSections(t, t.Abs(), key, val);
  }

  lemma GlobalInvariant(t: Tpl, key: string, val: string)
    requires Invariant(t)
    ensures AllSel(t) && Invariant(SetGlobal(t, key, val))
  {
    hide SetGlobal, AllSel, WellFormed, Children, HasPath;
    InvariantPath(t);
    GlobalKeeps(t, key, val, t.sel);
  }

  method SetFieldEverywhere(t: Template, key: string, val: string)
    requires t.Ready() && key != ""
    modifies t.repr`cells, t.repr`room
    ensures t.Ready() && LinksOf(t.repr) == old(LinksOf(t.repr))
    ensures AllSel(old(t.Abs())) && t.Abs() == SetGlobal(old(t.Abs()), key, val)
  {
    hide SetGlobal, AllSel, Invariant, Tidy, Parented, Template.Valid, Template.SelOk, Template.Abs;
    GlobalInvariant(t.Abs(), key, val);
    SetFieldGlobal(t, key, val);
    ParentsKept(t.repr);
  }
}
