/** Runs of operations: what every step keeps, and what one step undoes. */
module Runs {
  import opened Names
  import opened Tree
  import opened Ops
  import opened RoundTrip

  datatype Op =
    | SelectOp(key: string)
    | DeselectOp
    | SetFieldOp(key: string, val: string)
    | SetGlobalOp(key: string, val: string)
    | AppendOp
    | SetSectionOp(key: string, val: string)
    | ResetOp

  // --- the selection shape

  /** Below the root: a level on the selected path points at the next level of the path,
      the last one and every level off the path at itself. */
  predicate Below(t: Tpl, path: seq<nat>)
    decreases t, 1
  {
    t.sel == (if path == [] then [] else [path[0]]) && Children(t, path)
  }

  predicate Children(t: Tpl, path: seq<nat>)
    decreases t, 0
  {
    && (path != [] ==> path[0] < |t.secs|)
    && forall i | 0 <= i < |t.secs| :: Below(t.secs[i].tpl, Rest(path, i))
  }

  function Rest(path: seq<nat>, i: nat): seq<nat> {
    if path != [] && path[0] == i then path[1..] else []
  }

  /** The root points at the end of the path; nothing is ever appended to it. */
  predicate Invariant(t: Tpl) {
    WellFormed(t) && Children(t, t.sel) && t.added == []
  }

  lemma {:induction false} ChildrenPath(t: Tpl, path: seq<nat>)
    requires Children(t, path)
    ensures HasPath(t, path)
    decreases path
  {
    if path != [] {
      assert Below(t.secs[path[0]].tpl, path[1..]);
      ChildrenPath(t.secs[path[0]].tpl, path[1..]);
    }
  }

  lemma {:induction false} ChildrenAllSel(t: Tpl, path: seq<nat>)
    requires Children(t, path)
    ensures forall i | 0 <= i < |t.secs| :: AllSel(t.secs[i].tpl)
    decreases t
  {
    forall i | 0 <= i < |t.secs| ensures AllSel(t.secs[i].tpl) {
      var c := t.secs[i].tpl;
      assert Below(c, Rest(path, i));
      ChildrenPath(c, Rest(path, i));
      ChildrenAllSel(c, Rest(path, i));
      if c.sel != [] { assert HasPath(c.secs[c.sel[0]].tpl, []); }
    }
  }

  lemma InvariantAllSel(t: Tpl)
    requires Children(t, t.sel)
    ensures AllSel(t)
  {
    ChildrenPath(t, t.sel);
    ChildrenAllSel(t, t.sel);
  }

  lemma InvariantPath(t: Tpl)
    requires Invariant(t)
    ensures AllSel(t) && HasPath(t, t.sel)
  {
    InvariantAllSel(t);
  }

  /** On the way down the path, every selection path is a part of what remains of it. */
  predicate SelAlong(t: Tpl, path: seq<nat>)
    requires HasPath(t, path)
    decreases path
  {
    t.sel <= path && (path != [] ==> SelAlong(t.secs[path[0]].tpl, path[1..]))
  }

  lemma {:induction false} AlongEnd(t: Tpl, path: seq<nat>)
    requires HasPath(t, path) && SelAlong(t, path)
    ensures Sub(t, path).sel == []
    decreases path
  {
    if path != [] { AlongEnd(t.secs[path[0]].tpl, path[1..]); }
  }

  lemma {:induction false} ChildrenAlong(t: Tpl, path: seq<nat>)
    requires Children(t, path) && t.sel <= path
    ensures HasPath(t, path) && SelAlong(t, path)
    decreases path
  {
    ChildrenPath(t, path);
    if path != [] {
      var c := t.secs[path[0]].tpl;
      assert Below(c, Rest(path, path[0]));
      ChildrenAlong(c, path[1..]);
    }
  }

  /** The selected level, and its selection pointer. */
  lemma {:induction false} ChildrenAtEnd(t: Tpl, path: seq<nat>)
    requires Children(t, path)
    ensures HasPath(t, path) && Children(Sub(t, path), [])
    ensures path != [] ==> Sub(t, path).sel == []
    decreases path
  {
    ChildrenPath(t, path);
    if path != [] {
      assert Below(t.secs[path[0]].tpl, path[1..]);
      ChildrenAtEnd(t.secs[path[0]].tpl, path[1..]);
    }
  }

  // --- replacing a level

  lemma {:induction false} ReplaceWellFormed(t: Tpl, path: seq<nat>, x: Tpl)
    requires HasPath(t, path) && WellFormed(t)
    ensures WellFormed(Sub(t, path))
    ensures WellFormed(x) ==> WellFormed(Replace(t, path, x))
    decreases path
  {
    if path != [] {
      var u := Replace(t, path, x);
      ReplaceWellFormed(t.secs[path[0]].tpl, path[1..], x);
      assert SecKeys(u.secs) == SecKeys(t.secs);
    }
  }

  /** Replacing the end of the path by a level with the same pointer and shape. */
  lemma {:induction false} ReplaceChildren(t: Tpl, path: seq<nat>, x: Tpl)
    requires HasPath(t, path) && Children(t, path)
    requires Children(x, []) && (path != [] ==> x.sel == [])
    ensures Children(Replace(t, path, x), path)
    decreases path
  {
    if path != [] {
      assert Below(t.secs[path[0]].tpl, path[1..]);
      ReplaceChildren(t.secs[path[0]].tpl, path[1..], x);
      var u := Replace(t, path, x);
      forall i | 0 <= i < |u.secs| ensures Below(u.secs[i].tpl, Rest(path, i)) {
        assert Below(t.secs[i].tpl, Rest(path, i));
      }
    }
  }

  lemma {:induction false} ExtendPath(t: Tpl, path: seq<nat>, j: nat)
    requires HasPath(t, path) && Children(t, path) && j < |Sub(t, path).secs|
    ensures Children(Replace(t, path, Sub(t, path).(sel := [j])), path + [j])
    decreases path
  {
    var u := Replace(t, path, Sub(t, path).(sel := [j]));
    if path == [] {
      forall i | 0 <= i < |u.secs| ensures Below(u.secs[i].tpl, Rest([j], i)) {
        assert Below(t.secs[i].tpl, Rest(path, i));
      }
      assert path + [j] == [j];
    } else {
      assert Below(t.secs[path[0]].tpl, path[1..]);
      ExtendPath(t.secs[path[0]].tpl, path[1..], j);
      assert (path + [j])[1..] == path[1..] + [j];
      forall i | 0 <= i < |u.secs| ensures Below(u.secs[i].tpl, Rest(path + [j], i)) {
        assert Below(t.secs[i].tpl, Rest(path, i));
      }
    }
  }

  lemma {:induction false} ShrinkPath(t: Tpl, path: seq<nat>)
    requires path != [] && Children(t, path)
    ensures var up := path[..|path| - 1]; HasPath(t, up) && Children(Replace(t, up, Sub(t, up).(sel := [])), up)
    decreases path
  {
    var up := path[..|path| - 1];
    ChildrenPath(t, path);
    PathPrefix(t, path, |up|);
    var u := Replace(t, up, Sub(t, up).(sel := []));
    if |path| == 1 {
      forall i | 0 <= i < |u.secs| ensures Below(u.secs[i].tpl, []) {
        assert Below(t.secs[i].tpl, Rest(path, i));
      }
    } else {
      assert Below(t.secs[path[0]].tpl, path[1..]);
      ShrinkPath(t.secs[path[0]].tpl, path[1..]);
      assert path[1..][..|path| - 2] == up[1..];
      forall i | 0 <= i < |u.secs| ensures Below(u.secs[i].tpl, Rest(up, i)) {
        assert Below(t.secs[i].tpl, Rest(path, i));
      }
    }
  }

  // --- one step

  predicate Allowed(t: Tpl, op: Op) {
    AllSel(t) && (op.SetSectionOp? ==> SetSectionAllowed(t, op.key, op.val))
  }

  function Step(t: Tpl, op: Op): (Tpl, int)
    requires AllSel(t)
  {
    match op
    case SelectOp(key) => Select(t, key)
    case DeselectOp => Deselect(t)
    case SetFieldOp(key, val) => (SetField(t, key, val), TPL_OK)
    case SetGlobalOp(key, val) => (SetGlobal(t, key, val), TPL_OK)
    case AppendOp => Append(t)
    case SetSectionOp(key, val) => SetSection(t, key, val)
    case ResetOp => (Reset(t), TPL_OK)
  }

  lemma SelectKeeps(t: Tpl, key: string)
    requires Invariant(t) && HasPath(t, t.sel)
    ensures Invariant(Select(t, key).0)
  {
    hide WellFormed, Children, HasPath, Lookup;
    var s := Sub(t, t.sel);
    LookupSpec(SecKeys(s.secs), key);
    if Lookup(SecKeys(s.secs), key).Some? {
      var j := Lookup(SecKeys(s.secs), key).value;
      ReplaceWellFormed(t, t.sel, s.(sel := [j]));
      SelOnly(s, [], [j]);
      ExtendPath(t, t.sel, j);
      SelOnly(Replace(t, t.sel, s.(sel := [j])), t.sel + [j], t.sel + [j]);
    }
  }

  /** The selection pointer of a level itself does not matter to what is below it. */
  lemma SelOnly(t: Tpl, path: seq<nat>, sel: seq<nat>)
    ensures Children(t, path) ==> Children(t.(sel := sel), path)
    ensures WellFormed(t) ==> WellFormed(t.(sel := sel))
  {
    if Children(t, path) {
      forall i | 0 <= i < |t.secs| ensures Below(t.(sel := sel).secs[i].tpl, Rest(path, i)) {
        assert Below(t.secs[i].tpl, Rest(path, i));
      }
    }
  }

  lemma DeselectKeeps(t: Tpl)
    requires Invariant(t) && HasPath(t, t.sel)
    ensures Invariant(Deselect(t).0)
  {
    if t.sel != [] {
      var up := t.sel[..|t.sel| - 1];
      PathPrefix(t, t.sel, |up|);
      var x := Sub(t, up).(sel := []);
      ReplaceWellFormed(t, up, Sub(t, up));
      SelOnly(Sub(t, up), [], []);
      ReplaceWellFormed(t, up, x);
      ShrinkPath(t, t.sel);
      SelOnly(Replace(t, up, x), up, up);
    }
  }

  /** Changing the selected level keeps the invariant if the level's own shape is kept. */
  lemma AtSelectedKeeps(t: Tpl, x: Tpl)
    requires Invariant(t) && HasPath(t, t.sel)
    requires WellFormed(Sub(t, t.sel)) && Children(Sub(t, t.sel), []) ==> WellFormed(x) && Children(x, [])
    requires x.sel == Sub(t, t.sel).sel && (t.sel == [] ==> x.added == [])
    ensures Invariant(Replace(t, t.sel, x))
  {
    ChildrenAtEnd(t, t.sel);
    ReplaceWellFormed(t, t.sel, x);
    ReplaceChildren(t, t.sel, x);
  }

  lemma AppendedKeeps(s: Tpl)
    ensures WellFormed(s) ==> WellFormed(Appended(s))
    ensures Children(s, []) ==> Children(Appended(s), [])
  {
    var u := Appended(s);
    assert SecKeys(u.secs) == SecKeys(s.secs);
    if Children(s, []) {
      forall i | 0 <= i < |u.secs| ensures Below(u.secs[i].tpl, []) {
        AddedOnly(s.secs[i].tpl, []);
        assert Below(s.secs[i].tpl, Rest([], i));
      }
    }
    if WellFormed(s) {
      forall i | 0 <= i < |u.secs| ensures WellFormed(u.secs[i].tpl) { AddedOnly(s.secs[i].tpl, []); }
    }
  }

  lemma AddedOnly(t: Tpl, path: seq<nat>)
    ensures WellFormed(t) ==> WellFormed(t.(added := []))
    ensures Below(t, path) ==> Below(t.(added := []), path)
  {
    if Below(t, path) {
      assert Children(t, path);
      forall i | 0 <= i < |t.secs| ensures Below(t.(added := []).secs[i].tpl, Rest(path, i)) {
        assert Below(t.secs[i].tpl, Rest(path, i));
      }
    }
  }

  lemma WithTextKeeps(t: Tpl, val: string)
    requires WellFormed(t) && Below(t, [])
    requires val == "" && t.secs == [] && |t.nodes| == 1 ==> t.nodes[0].TextNode?
    ensures WithText(t, val) == Tpl([TextNode(val)], [], [], [val], [])
    ensures WellFormed(WithText(t, val)) && Below(WithText(t, val), [])
  {
    var u := Tpl([TextNode(val)], [], [], [val], []);
    assert u.nodes[..0] == [];
    if InPlace(t, |val|) {
      assert t.nodes[0].TextNode? && t.nodes[..0] == [];
      assert CellsMet(t.nodes) == 0;
    }
  }

  lemma SetChildKeeps(s: Tpl, j: nat, x: Tpl)
    requires j < |s.secs| && WellFormed(s) && Children(s, []) && WellFormed(x) && Below(x, [])
    ensures WellFormed(SetChild(s, j, x)) && Children(SetChild(s, j, x), [])
  {
    var u := SetChild(s, j, x);
    assert SecKeys(u.secs) == SecKeys(s.secs);
    forall i | 0 <= i < |u.secs| ensures Below(u.secs[i].tpl, Rest([], i)) {
      assert Below(s.secs[i].tpl, Rest([], i));
    }
  }

  lemma SetSectionKeeps(t: Tpl, key: string, val: string)
    requires Invariant(t) && HasPath(t, t.sel) && SetSectionAllowed(t, key, val)
    ensures Invariant(SetSection(t, key, val).0)
  {
    var s := Sub(t, t.sel);
    ChildrenAtEnd(t, t.sel);
    ReplaceWellFormed(t, t.sel, s);
    LookupSpec(SecKeys(s.secs), key);
    if Lookup(SecKeys(s.secs), key).Some? {
      var j := Lookup(SecKeys(s.secs), key).value;
      assert Below(s.secs[j].tpl, Rest([], j));
      WithTextKeeps(s.secs[j].tpl, val);
      SetChildKeeps(s, j, WithText(s.secs[j].tpl, val));
      ReplaceSame(t, t.sel);
      AtSelectedKeeps(t, SetChild(s, j, WithText(s.secs[j].tpl, val)));
    }
  }

  lemma {:induction false} ResetKeeps(t: Tpl, path: seq<nat>)
    ensures WellFormed(t) ==> WellFormed(Reset(t))
    ensures Children(t, path) ==> Children(Reset(t), path)
    decreases t
  {
    var u := Reset(t);
    forall i | 0 <= i < |t.secs|
      ensures WellFormed(t.secs[i].tpl) ==> WellFormed(u.secs[i].tpl)
      ensures Below(t.secs[i].tpl, Rest(path, i)) ==> Below(u.secs[i].tpl, Rest(path, i))
    {
      ResetKeeps(t.secs[i].tpl, Rest(path, i));
      AddedOnly(Reset(t.secs[i].tpl), Rest(path, i));
    }
    assert CellKeys(u.cells) == CellKeys(t.cells) && SecKeys(u.secs) == SecKeys(t.secs);
  }

  /** Changing only the values of cells somewhere below keeps every shape. */
  lemma {:induction false} CellsAt(t: Tpl, at: seq<nat>, x: Tpl, path: seq<nat>)
    requires HasPath(t, at) && x == Sub(t, at).(cells := x.cells) && CellKeys(x.cells) == CellKeys(Sub(t, at).cells)
    ensures var u := Replace(t, at, x);
      && u.sel == t.sel && u.added == t.added && |u.secs| == |t.secs|
      && (WellFormed(t) ==> WellFormed(u)) && (Children(t, path) ==> Children(u, path))
    decreases at
  {
    var u := Replace(t, at, x);
    if at != [] {
      CellsAt(t.secs[at[0]].tpl, at[1..], x, Rest(path, at[0]));
      assert SecKeys(u.secs) == SecKeys(t.secs);
    }
    if Children(t, path) {
      forall i | 0 <= i < |u.secs| ensures Below(u.secs[i].tpl, Rest(path, i)) {
        assert Below(t.secs[i].tpl, Rest(path, i));
      }
    }
  }

  lemma SetFieldKeeps(t: Tpl, key: string, val: string, path: seq<nat>)
    requires HasPath(t, t.sel)
    ensures var u := SetField(t, key, val);
      && u.sel == t.sel && u.added == t.added && |u.secs| == |t.secs|
      && (WellFormed(t) ==> WellFormed(u)) && (Children(t, path) ==> Children(u, path))
  {
    var s := Sub(t, t.sel);
    assert CellKeys(SetCell(s, key, val).cells) == CellKeys(s.cells);
    CellsAt(t, t.sel, SetCell(s, key, val), path);
  }

  lemma SetFieldInvariant(t: Tpl, key: string, val: string)
    requires HasPath(t, t.sel)
    ensures Invariant(t) ==> Invariant(SetField(t, key, val))
  {
    hide SetField, WellFormed, Children;
    SetFieldKeeps(t, key, val, t.sel);
  }

  lemma SetCellSame(t: Tpl, key: string, val: string)
    ensures SetCell(t, key, val) == t.(cells := SetCell(t, key, val).cells)
  {
  }

  lemma WellFormedBelow(t: Tpl, i: nat)
    requires i < |t.secs|
    ensures WellFormed(t) ==> WellFormed(t.secs[i].tpl)
  {
  }

  lemma {:induction false} GlobalKeeps(t: Tpl, key: string, val: string, path: seq<nat>)
    requires AllSel(t)
    ensures var u := SetGlobal(t, key, val);
      && u.sel == t.sel && u.added == t.added
      && (WellFormed(t) ==> WellFormed(u)) && (Children(t, path) ==> Children(u, path))
    decreases Height(t)
  {
    hide SetCell, WellFormed;
    var s, u := SetField(t, key, val), SetGlobal(t, key, val);
    SetFieldKeeps(t, key, val, path);
    SetCellSame(Sub(t, t.sel), key, val);
    ReplaceCells(t, t.sel, SetCell(Sub(t, t.sel), key, val));
    forall i | 0 <= i < |s.secs|
      ensures WellFormed(t) ==> WellFormed(u.secs[i].tpl)
      ensures Children(t, path) ==> Below(u.secs[i].tpl, Rest(path, i))
    {
      ChildLower(s, i, |s.secs|);
      WellFormedBelow(s, i);
      GlobalKeeps(s.secs[i].tpl, key, val, Rest(path, i));
      assert Children(t, path) ==> Below(s.secs[i].tpl, Rest(path, i));
    }
    SameLevelKeeps(s, u);
  }

  /** A level with other levels below it. */
  lemma SameLevelKeeps(s: Tpl, u: Tpl)
    requires u == s.(secs := u.secs) && |u.secs| == |s.secs|
    requires forall i | 0 <= i < |s.secs| :: u.secs[i] == s.secs[i].(tpl := u.secs[i].tpl)
    ensures WellFormed(s) && (forall i | 0 <= i < |s.secs| :: WellFormed(u.secs[i].tpl)) ==> WellFormed(u)
  {
    hide Separate, Numbered, CellsMet;
    assert SecKeys(u.secs) == SecKeys(s.secs);
  }

  lemma AppendKeeps(t: Tpl)
    requires Invariant(t)
    ensures HasPath(t, t.sel) && Placed(Sub(t, t.sel)) && Invariant(Append(t).0)
  {
    InvariantPath(t);
    ReplaceWellFormed(t, t.sel, Sub(t, t.sel));
    if t.sel != [] {
      AppendedKeeps(Sub(t, t.sel));
      AtSelectedKeeps(t, Appended(Sub(t, t.sel)));
    }
  }

  /** What a successful selection needs to know. */
  lemma SelectReady(t: Tpl, key: string)
    requires Invariant(t) && HasPath(t, t.sel)
    ensures Invariant(Select(t, key).0)
    ensures var s := Sub(t, t.sel); match Lookup(SecKeys(s.secs), key)
      case None => true
      case Some(j) => j < |s.secs| && s.secs[j].tpl.sel == []
  {
    SelectKeeps(t, key);
    ChildrenAtEnd(t, t.sel);
    var s := Sub(t, t.sel);
    LookupSpec(SecKeys(s.secs), key);
    if Lookup(SecKeys(s.secs), key).Some? {
      assert Below(s.secs[Lookup(SecKeys(s.secs), key).value].tpl, Rest([], Lookup(SecKeys(s.secs), key).value));
    }
  }

  /** What a successful replacement needs to know. */
  lemma SetSectionReady(t: Tpl, key: string, val: string)
    requires Invariant(t) && HasPath(t, t.sel) && SetSectionAllowed(t, key, val)
    ensures Invariant(SetSection(t, key, val).0) && SelAlong(t, t.sel)
    ensures var s := Sub(t, t.sel); match Lookup(SecKeys(s.secs), key)
      case None => true
      case Some(j) => j < |s.secs| && s.secs[j].tpl.sel == [] && !OverNoText(s.secs[j].tpl, val)
  {
    SetSectionKeeps(t, key, val);
    ChildrenAlong(t, t.sel);
    ChildrenAtEnd(t, t.sel);
    var s := Sub(t, t.sel);
    LookupSpec(SecKeys(s.secs), key);
    if Lookup(SecKeys(s.secs), key).Some? {
      assert Below(s.secs[Lookup(SecKeys(s.secs), key).value].tpl, Rest([], Lookup(SecKeys(s.secs), key).value));
    }
  }

  /** Every step keeps the invariant. */
  lemma {:induction false} StepKeeps(t: Tpl, op: Op)
    requires Invariant(t) && Allowed(t, op)
    ensures Invariant(Step(t, op).0)
  {
    hide WellFormed, Children, AllSel;
    InvariantAllSel(t);
    ChildrenPath(t, t.sel);
    match op {
      case SelectOp(key) => SelectKeeps(t, key);
      case DeselectOp => DeselectKeeps(t);
      case SetFieldOp(key, val) => SetFieldKeeps(t, key, val, t.sel);
      case SetGlobalOp(key, val) => GlobalKeeps(t, key, val, t.sel);
      case AppendOp => AppendKeeps(t);
      case SetSectionOp(key, val) => SetSectionKeeps(t, key, val);
      case ResetOp => ResetKeeps(t, t.sel);
    }
  }

  /** Each operation of the run is allowed where it comes. */
  predicate AllowedRun(t: Tpl, ops: seq<Op>)
    decreases ops
  {
    ops == [] || (Allowed(t, ops[0]) && AllowedRun(Step(t, ops[0]).0, ops[1..]))
  }

  function Run(t: Tpl, ops: seq<Op>): Tpl
    requires AllowedRun(t, ops)
    decreases ops
  {
    if ops == [] then t else Run(Step(t, ops[0]).0, ops[1..])
  }

  /** In every state that can be reached, only a replacement that would write through a null pointer is not
      allowed. */
  lemma AllowedIff(t: Tpl, op: Op)
    requires Invariant(t)
    ensures AllSel(t) && (Allowed(t, op) <==> !(op.SetSectionOp? && WritesThroughNull(t, op.key, op.val)))
  {
    hide Invariant, AllSel, SetSectionAllowed, WritesThroughNull;
    InvariantPath(t);
    if op.SetSectionOp? { WritesThroughNullIff(t, op.key, op.val); }
  }

  lemma RunNone(t: Tpl)
    ensures AllowedRun(t, []) && Run(t, []) == t
  {
  }

  lemma RunOne(t: Tpl, op: Op)
    ensures AllowedRun(t, [op]) <==> Allowed(t, op)
    ensures Allowed(t, op) ==> Run(t, [op]) == Step(t, op).0
  {
    if Allowed(t, op) { assert AllSel(t); }
    hide Step, Allowed, AllSel;
    assert [op][1..] == [];
    if Allowed(t, op) { assert Run(Step(t, op).0, []) == Step(t, op).0; }
  }

  /** Running a sequence is running its parts one after the other; with `RunOne`, a run is its steps. */
  lemma {:induction false} RunConcat(t: Tpl, a: seq<Op>, b: seq<Op>)
    ensures AllowedRun(t, a + b) <==> AllowedRun(t, a) && AllowedRun(Run(t, a), b)
    ensures AllowedRun(t, a + b) ==> Run(t, a + b) == Run(Run(t, a), b)
    decreases a
  {
    if a == [] {
      assert a + b == b;
    } else if Allowed(t, a[0]) {
      assert AllSel(t);
      hide Step, Allowed, AllSel;
      assert (a + b)[1..] == a[1..] + b;
      RunConcat(Step(t, a[0]).0, a[1..], b);
    }
  }

  lemma RunTwo(t: Tpl, p: Op, q: Op)
    requires Allowed(t, p) && Allowed(Step(t, p).0, q)
    ensures AllowedRun(t, [p, q]) && Run(t, [p, q]) == Step(Step(t, p).0, q).0
  {
    assert AllSel(t) && AllSel(Step(t, p).0);
    hide Step, Allowed, AllSel;
    RunOne(Step(t, p).0, q);
    assert [p, q][1..] == [q];
  }

  /** So does every run. */
  lemma {:induction false} RunKeeps(t: Tpl, ops: seq<Op>)
    requires Invariant(t) && AllowedRun(t, ops)
    ensures Invariant(Run(t, ops))
    decreases ops
  {
    if ops != [] {
      StepKeeps(t, ops[0]);
      RunKeeps(Step(t, ops[0]).0, ops[1..]);
    }
  }

  /** A parsed template starts every run inside the invariant. */
  lemma {:induction false} PristineUnselected(t: Tpl)
    requires Pristine(t)
    ensures Below(t, [])
    decreases t
  {
    forall i | 0 <= i < |t.secs| ensures Below(t.secs[i].tpl, Rest([], i)) {
      PristineUnselected(t.secs[i].tpl);
    }
  }

  lemma {:induction false} ParsedInvariant(r: string)
    requires Parse(r).Some?
    ensures Invariant(Parse(r).value)
  {
    ParseReads(r);
    PristineUnselected(Parse(r).value);
  }

  // --- undoing a selection

  /** A deselect right after a successful select restores the whole tree. */
  lemma {:induction false} DeselectUndoesSelect(t: Tpl, key: string)
    requires Invariant(t) && HasPath(t, t.sel) && Select(t, key).1 == TPL_OK
    ensures var u := Select(t, key).0; HasPath(u, u.sel) && Deselect(u) == (t, TPL_OK)
  {
    var s, path := Sub(t, t.sel), t.sel;
    LookupSpec(SecKeys(s.secs), key);
    var j := Lookup(SecKeys(s.secs), key).value;
    var w := Replace(t, path, s.(sel := [j]));
    var u := w.(sel := path + [j]);
    ChildrenAtEnd(t, path);
    SelectKeeps(t, key);
    ChildrenPath(u, u.sel);
    PathPrefix(u, u.sel, |path|);
    assert u.sel[..|path|] == path;
    SubReplace(t, path, s.(sel := [j]));
    if path == [] {
      assert Deselect(u).0 == t;
    } else {
      assert Sub(u, path) == Sub(w, path) == s.(sel := [j]);
      assert s.(sel := [j]).(sel := []) == s;
      SelOutside(w, path, s, u.sel);
      ReplaceTwice(t, path, s.(sel := [j]), s);
      ReplaceSame(t, path);
    }
  }

  lemma SelOutside(t: Tpl, path: seq<nat>, x: Tpl, sel: seq<nat>)
    requires path != [] && HasPath(t, path)
    ensures HasPath(t.(sel := sel), path) && Replace(t.(sel := sel), path, x) == Replace(t, path, x).(sel := sel)
  {
  }
}
