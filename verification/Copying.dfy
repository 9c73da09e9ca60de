/** Copies: the same template up to how added content is cut into pieces. */
module Copying {
  import opened Names
  import opened Tree
  import opened Render
  import opened Ops
  import opened Runs
  import opened Appending

  /** The tree a copy has. Each section's added chain becomes one node, the root's own is dropped. */
  function CopyOf(t: Tpl): (r: Tpl)
    decreases t
    ensures |r.secs| == |t.secs|
  {
    t.(added := [],
       secs := seq(|t.secs|, i requires 0 <= i < |t.secs| =>
         t.secs[i].(tpl := CopyOf(t.secs[i].tpl).(added := Joined(t.secs[i].tpl.added)))))
  }

  /** One text in place of all of the chain's. */
  function Joined(chain: seq<string>): (r: seq<string>)
    ensures |r| <= 1 && (r == [] <==> chain == []) && Concat(r) == Concat(chain)
  {
    ConcatOne(Concat(chain));
    if chain == [] then [] else [Concat(chain)]
  }

  /** Added content at every level as a single text. */
  function Flat(t: Tpl): (r: Tpl)
    decreases t
    ensures |r.secs| == |t.secs|
  {
    t.(added := [Concat(t.added)],
       secs := seq(|t.secs|, i requires 0 <= i < |t.secs| => t.secs[i].(tpl := Flat(t.secs[i].tpl))))
  }

  /** The same nodes, values, sections and selections, and the same added text at every level. */
  predicate Same(t: Tpl, u: Tpl) {
    Flat(t) == Flat(u)
  }

  lemma SameParts(t: Tpl, u: Tpl)
    requires Same(t, u)
    ensures t.nodes == u.nodes && t.cells == u.cells && t.sel == u.sel && |t.secs| == |u.secs|
    ensures Concat(t.added) == Concat(u.added)
    ensures SecKeys(t.secs) == SecKeys(u.secs)
    ensures forall i | 0 <= i < |t.secs| ::
      t.secs[i].key == u.secs[i].key && t.secs[i].pos == u.secs[i].pos && Same(t.secs[i].tpl, u.secs[i].tpl)
  {
    assert Flat(t).added[0] == Flat(u).added[0];
    forall i | 0 <= i < |t.secs|
      ensures t.secs[i].key == u.secs[i].key && t.secs[i].pos == u.secs[i].pos && Same(t.secs[i].tpl, u.secs[i].tpl)
    {
      assert Flat(t).secs[i] == Flat(u).secs[i];
    }
  }

  lemma PartsSame(t: Tpl, u: Tpl)
    requires t.nodes == u.nodes && t.cells == u.cells && t.sel == u.sel && |t.secs| == |u.secs|
    requires Concat(t.added) == Concat(u.added)
    requires forall i | 0 <= i < |t.secs| ::
      t.secs[i].key == u.secs[i].key && t.secs[i].pos == u.secs[i].pos && Same(t.secs[i].tpl, u.secs[i].tpl)
    ensures Same(t, u)
  {
    forall i | 0 <= i < |t.secs| ensures Flat(t).secs[i] == Flat(u).secs[i] {
      assert Same(t.secs[i].tpl, u.secs[i].tpl);
    }
    assert Flat(t).secs == Flat(u).secs;
  }

  lemma {:induction false} SameContent(t: Tpl, u: Tpl)
    requires Same(t, u)
    ensures Content(t) == Content(u)
  {
    SameParts(t, u);
    forall i | 0 <= i < |t.secs| ensures Concat(t.secs[i].tpl.added) == Concat(u.secs[i].tpl.added) {
      SameParts(t.secs[i].tpl, u.secs[i].tpl);
    }
    ContentAlike(t, u, |t.nodes|, |t.secs|);
  }

  lemma {:induction false} SamePath(t: Tpl, u: Tpl, path: seq<nat>)
    requires Same(t, u)
    ensures HasPath(t, path) <==> HasPath(u, path)
    ensures HasPath(t, path) ==> Same(Sub(t, path), Sub(u, path))
    decreases path
  {
    SameParts(t, u);
    if path != [] && path[0] < |t.secs| {
      SamePath(t.secs[path[0]].tpl, u.secs[path[0]].tpl, path[1..]);
    }
  }

  lemma {:induction false} SameReplace(t: Tpl, u: Tpl, path: seq<nat>, x: Tpl, y: Tpl)
    requires Same(t, u) && Same(x, y) && HasPath(t, path) && HasPath(u, path)
    ensures Same(Replace(t, path, x), Replace(u, path, y))
    decreases path
  {
    if path != [] {
      SameParts(t, u);
      SameReplace(t.secs[path[0]].tpl, u.secs[path[0]].tpl, path[1..], x, y);
      PartsSame(Replace(t, path, x), Replace(u, path, y));
    }
  }

  lemma SameSel(t: Tpl, u: Tpl, sel: seq<nat>)
    requires Same(t, u)
    ensures Same(t.(sel := sel), u.(sel := sel))
  {
    SameParts(t, u);
    PartsSame(t.(sel := sel), u.(sel := sel));
  }

  /** A copy is the same template. */
  lemma {:induction false} CopySame(t: Tpl)
    ensures Same(CopyOf(t), t.(added := []))
    decreases t
  {
    var u := CopyOf(t);
    forall i | 0 <= i < |t.secs|
      ensures Same(u.secs[i].tpl, t.secs[i].tpl)
    {
      var c := t.secs[i].tpl;
      CopySame(c);
      SameParts(CopyOf(c), c.(added := []));
      if c.added != [] { ConcatOne(Concat(c.added)); }
      PartsSame(CopyOf(c).(added := Joined(c.added)), c);
    }
    PartsSame(u, t.(added := []));
  }

  // --- every operation respects sameness

  lemma SameSetCell(t: Tpl, u: Tpl, key: string, val: string)
    requires Same(t, u)
    ensures Same(SetCell(t, key, val), SetCell(u, key, val))
  {
    SameParts(t, u);
    PartsSame(SetCell(t, key, val), SetCell(u, key, val));
  }

  lemma SameAppended(t: Tpl, u: Tpl)
    requires Same(t, u) && Placed(t)
    ensures Same(Appended(t), Appended(u))
  {
    SameParts(t, u);
    SameContent(t, u);
    PiecesAreContent(t);
    PiecesAreContent(u);
    ConcatAppend(t.added, Pieces(t));
    ConcatAppend(u.added, Pieces(u));
    var t', u' := Appended(t), Appended(u);
    forall i | 0 <= i < |t.secs| ensures Same(t'.secs[i].tpl, u'.secs[i].tpl) {
      SameParts(t.secs[i].tpl, u.secs[i].tpl);
      PartsSame(t.secs[i].tpl.(added := []), u.secs[i].tpl.(added := []));
    }
    PartsSame(t', u');
  }

  lemma SameWithText(t: Tpl, u: Tpl, val: string)
    requires Same(t, u)
    ensures Same(WithText(t, val), WithText(u, val))
  {
    SameParts(t, u);
    PartsSame(WithText(t, val), WithText(u, val));
  }

  lemma SameSetChild(t: Tpl, u: Tpl, j: nat, x: Tpl, y: Tpl)
    requires Same(t, u) && Same(x, y) && j < |t.secs| && j < |u.secs|
    ensures Same(SetChild(t, j, x), SetChild(u, j, y))
  {
    SameParts(t, u);
    PartsSame(SetChild(t, j, x), SetChild(u, j, y));
  }

  lemma {:induction false} SameReset(t: Tpl, u: Tpl)
    requires Same(t, u)
    ensures Same(Reset(t), Reset(u))
    decreases t
  {
    SameParts(t, u);
    var t', u' := Reset(t), Reset(u);
    forall i | 0 <= i < |t.secs| ensures Same(t'.secs[i].tpl, u'.secs[i].tpl) {
      SameReset(t.secs[i].tpl, u.secs[i].tpl);
      SameParts(Reset(t.secs[i].tpl), Reset(u.secs[i].tpl));
      PartsSame(t'.secs[i].tpl, u'.secs[i].tpl);
    }
    PartsSame(t', u');
  }

  lemma {:induction false} SameAllSel(t: Tpl, u: Tpl)
    requires Same(t, u)
    ensures AllSel(t) ==> AllSel(u)
    decreases t
  {
    SameParts(t, u);
    SamePath(t, u, t.sel);
    forall i | 0 <= i < |t.secs| ensures AllSel(t.secs[i].tpl) ==> AllSel(u.secs[i].tpl) {
      SameAllSel(t.secs[i].tpl, u.secs[i].tpl);
    }
  }

  lemma SameSetField(t: Tpl, u: Tpl, key: string, val: string)
    requires Same(t, u) && HasPath(t, t.sel) && HasPath(u, u.sel)
    ensures Same(SetField(t, key, val), SetField(u, key, val))
  {
    SameParts(t, u);
    SamePath(t, u, t.sel);
    SameSetCell(Sub(t, t.sel), Sub(u, u.sel), key, val);
    SameReplace(t, u, t.sel, SetCell(Sub(t, t.sel), key, val), SetCell(Sub(u, u.sel), key, val));
  }

  lemma {:induction false} SameGlobal(t: Tpl, u: Tpl, key: string, val: string)
    requires Same(t, u) && AllSel(t) && AllSel(u)
    ensures Same(SetGlobal(t, key, val), SetGlobal(u, key, val))
    decreases Height(t)
  {
    SameSetField(t, u, key, val);
    ReplaceCells(t, t.sel, SetCell(Sub(t, t.sel), key, val));
    ReplaceCells(u, u.sel, SetCell(Sub(u, u.sel), key, val));
    var t1, u1 := SetField(t, key, val), SetField(u, key, val);
    SameParts(t1, u1);
    var t', u' := SetGlobal(t, key, val), SetGlobal(u, key, val);
    forall i | 0 <= i < |t1.secs| ensures Same(t'.secs[i].tpl, u'.secs[i].tpl) {
      ChildLower(t1, i, |t1.secs|);
      SameGlobal(t1.secs[i].tpl, u1.secs[i].tpl, key, val);
    }
    PartsSame(t', u');
  }

  lemma SameSetSection(t: Tpl, u: Tpl, key: string, val: string)
    requires Same(t, u) && HasPath(t, t.sel) && HasPath(u, u.sel) && t.sel == u.sel
    ensures SetSectionAllowed(t, key, val) ==> SetSectionAllowed(u, key, val)
    ensures SetSection(t, key, val).1 == SetSection(u, key, val).1
    ensures Same(SetSection(t, key, val).0, SetSection(u, key, val).0)
  {
    SamePath(t, u, t.sel);
    var s, z := Sub(t, t.sel), Sub(u, u.sel);
    SameParts(s, z);
    LookupSpec(SecKeys(s.secs), key);
    if Lookup(SecKeys(s.secs), key).Some? {
      var j := Lookup(SecKeys(s.secs), key).value;
      SameParts(s.secs[j].tpl, z.secs[j].tpl);
      SameWithText(s.secs[j].tpl, z.secs[j].tpl, val);
      SameSetChild(s, z, j, WithText(s.secs[j].tpl, val), WithText(z.secs[j].tpl, val));
      SameReplace(t, u, t.sel, SetChild(s, j, WithText(s.secs[j].tpl, val)),
        SetChild(z, j, WithText(z.secs[j].tpl, val)));
    }
  }

  lemma SameSelect(t: Tpl, u: Tpl, key: string)
    requires Same(t, u) && HasPath(t, t.sel) && HasPath(u, u.sel) && t.sel == u.sel
    ensures Select(t, key).1 == Select(u, key).1
    ensures Same(Select(t, key).0, Select(u, key).0)
  {
    SamePath(t, u, t.sel);
    var s, z := Sub(t, t.sel), Sub(u, u.sel);
    SameParts(s, z);
    if Lookup(SecKeys(s.secs), key).Some? {
      var j := Lookup(SecKeys(s.secs), key).value;
      SameSel(s, z, [j]);
      SameReplace(t, u, t.sel, s.(sel := [j]), z.(sel := [j]));
      SameSel(Replace(t, t.sel, s.(sel := [j])), Replace(u, t.sel, z.(sel := [j])), t.sel + [j]);
    }
  }

  lemma SameDeselect(t: Tpl, u: Tpl)
    requires Same(t, u) && HasPath(t, t.sel) && HasPath(u, u.sel) && t.sel == u.sel
    ensures Deselect(t).1 == Deselect(u).1
    ensures Same(Deselect(t).0, Deselect(u).0)
  {
    if t.sel != [] {
      var up := t.sel[..|t.sel| - 1];
      PathPrefix(t, t.sel, |up|);
      SamePath(t, u, up);
      SameSel(Sub(t, up), Sub(u, up), []);
      SameReplace(t, u, up, Sub(t, up).(sel := []), Sub(u, up).(sel := []));
      SameSel(Replace(t, up, Sub(t, up).(sel := [])), Replace(u, up, Sub(u, up).(sel := [])), up);
    }
  }

  lemma SameAppend(t: Tpl, u: Tpl)
    requires Same(t, u) && HasPath(t, t.sel) && HasPath(u, u.sel) && t.sel == u.sel && WellFormed(t)
    ensures Append(t).1 == Append(u).1
    ensures Same(Append(t).0, Append(u).0)
  {
    if t.sel != [] {
      SamePath(t, u, t.sel);
      ReplaceWellFormed(t, t.sel, Sub(t, t.sel));
      SameAppended(Sub(t, t.sel), Sub(u, t.sel));
      SameReplace(t, u, t.sel, Appended(Sub(t, t.sel)), Appended(Sub(u, t.sel)));
    }
  }

  /** One step on the same templates answers the same and leaves them the same. */
  lemma SameStep(t: Tpl, u: Tpl, op: Op)
    requires Same(t, u) && WellFormed(t) && Allowed(t, op)
    ensures Allowed(u, op)
    ensures Step(t, op).1 == Step(u, op).1 && Same(Step(t, op).0, Step(u, op).0)
  {
    SameAllSel(t, u);
    SameParts(t, u);
    hide Same, AllSel, WellFormed;
    assert HasPath(t, t.sel) && HasPath(u, u.sel);
    match op {
      case SelectOp(key) => SameSelect(t, u, key);
      case DeselectOp => SameDeselect(t, u);
      case SetFieldOp(key, val) => SameSetField(t, u, key, val);
      case SetGlobalOp(key, val) => SameGlobal(t, u, key, val);
      case AppendOp => SameAppend(t, u);
      case SetSectionOp(key, val) => SameSetSection(t, u, key, val);
      case ResetOp => SameReset(t, u);
    }
  }

  lemma {:induction false} SameRun(t: Tpl, u: Tpl, ops: seq<Op>)
    requires Same(t, u) && Invariant(t) && AllowedRun(t, ops)
    ensures AllowedRun(u, ops) && Same(Run(t, ops), Run(u, ops))
    decreases ops
  {
    if ops != [] {
      SameStep(t, u, ops[0]);
      StepKeeps(t, ops[0]);
      SameRun(Step(t, ops[0]).0, Step(u, ops[0]).0, ops[1..]);
    }
  }

  /** Whatever is done to a template and to its copy, both render the same at every level. */
  lemma {:induction false} CopyRunsAlike(t: Tpl, ops: seq<Op>, path: seq<nat>)
    requires Invariant(t) && AllowedRun(t, ops)
    ensures AllowedRun(CopyOf(t), ops)
    ensures Content(Run(CopyOf(t), ops)) == Content(Run(t, ops))
    ensures HasPath(Run(t, ops), path) ==>
      (HasPath(Run(CopyOf(t), ops), path)
       && Content(Sub(Run(CopyOf(t), ops), path)) == Content(Sub(Run(t, ops), path)))
  {
    CopySame(t);
    SameRun(t, CopyOf(t), ops);
    SamePath(Run(t, ops), Run(CopyOf(t), ops), path);
    SameContent(Run(t, ops), Run(CopyOf(t), ops));
    if HasPath(Run(t, ops), path) {
      SameContent(Sub(Run(t, ops), path), Sub(Run(CopyOf(t), ops), path));
    }
  }

  /** A copy is well formed like the original. */
  lemma {:induction false} CopyWellFormed(t: Tpl)
    requires WellFormed(t)
    ensures WellFormed(CopyOf(t))
    decreases t
  {
    var u := CopyOf(t);
    assert SecKeys(u.secs) == SecKeys(t.secs);
    hide Separate, CellsMet, Numbered, Joined;
    forall i | 0 <= i < |t.secs| ensures WellFormed(u.secs[i].tpl) {
      CopyWellFormed(t.secs[i].tpl);
    }
  }

  /** A copy has the same selection. */
  lemma {:induction false} CopyChildren(t: Tpl, path: seq<nat>)
    requires Children(t, path)
    ensures Children(CopyOf(t), path)
    decreases t
  {
    hide Joined;
    forall i | 0 <= i < |t.secs| ensures Below(CopyOf(t).secs[i].tpl, Rest(path, i)) {
      assert Below(t.secs[i].tpl, Rest(path, i));
      CopyChildren(t.secs[i].tpl, Rest(path, i));
    }
  }

  lemma {:induction false} CopyInvariant(t: Tpl)
    requires Invariant(t)
    ensures Invariant(CopyOf(t))
  {
    CopyWellFormed(t);
    CopyChildren(t, t.sel);
  }
}
