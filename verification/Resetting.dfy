/** Resetting undoes every run of field sets, selections and appends, except the selection. */
module Resetting {
  import opened Names
  import opened Tree
  import opened Render
  import opened Ops
  import opened RoundTrip
  import opened Runs
  import opened Appending

  /** What parsing fixed: values, added content and selections cleared at every level. */
  function Bare(t: Tpl): (r: Tpl)
    decreases t
    ensures |r.secs| == |t.secs|
  {
    t.(cells := ClearedCells(t.cells), added := [], sel := [],
       secs := seq(|t.secs|, i requires 0 <= i < |t.secs| => t.secs[i].(tpl := Bare(t.secs[i].tpl))))
  }

  /** The same tree with nothing selected at any level. */
  function Unselected(t: Tpl): (r: Tpl)
    decreases t
    ensures |r.secs| == |t.secs|
  {
    t.(sel := [],
       secs := seq(|t.secs|, i requires 0 <= i < |t.secs| => t.secs[i].(tpl := Unselected(t.secs[i].tpl))))
  }

  lemma BareParts(t: Tpl, u: Tpl)
    requires t.nodes == u.nodes && |t.secs| == |u.secs| && ClearedCells(t.cells) == ClearedCells(u.cells)
    requires forall i | 0 <= i < |t.secs| ::
      t.secs[i].key == u.secs[i].key && t.secs[i].pos == u.secs[i].pos && Bare(t.secs[i].tpl) == Bare(u.secs[i].tpl)
    ensures Bare(t) == Bare(u)
  {
    forall i | 0 <= i < |t.secs| ensures Bare(t).secs[i] == Bare(u).secs[i] {
      assert Bare(t.secs[i].tpl) == Bare(u.secs[i].tpl);
    }
    assert Bare(t).secs == Bare(u).secs;
  }

  lemma {:induction false} BareReplace(t: Tpl, path: seq<nat>, x: Tpl)
    requires HasPath(t, path) && Bare(x) == Bare(Sub(t, path))
    ensures Bare(Replace(t, path, x)) == Bare(t)
    decreases path
  {
    if path != [] {
      BareReplace(t.secs[path[0]].tpl, path[1..], x);
      BareParts(Replace(t, path, x), t);
    }
  }

  lemma BareSetField(t: Tpl, key: string, val: string)
    requires HasPath(t, t.sel)
    ensures Bare(SetField(t, key, val)) == Bare(t)
  {
    var s := Sub(t, t.sel);
    BareParts(SetCell(s, key, val), s);
    BareReplace(t, t.sel, SetCell(s, key, val));
  }

  lemma BareAppended(s: Tpl)
    ensures Bare(Appended(s)) == Bare(s)
  {
    forall i | 0 <= i < |s.secs| ensures Bare(Appended(s).secs[i].tpl) == Bare(s.secs[i].tpl) {
      BareParts(s.secs[i].tpl.(added := []), s.secs[i].tpl);
    }
    BareParts(Appended(s), s);
  }

  lemma {:induction false} BareReset(t: Tpl)
    ensures Bare(Reset(t)) == Bare(t)
    decreases t
  {
    forall i | 0 <= i < |t.secs| ensures Bare(Reset(t).secs[i].tpl) == Bare(t.secs[i].tpl) {
      BareReset(t.secs[i].tpl);
      BareParts(Reset(t.secs[i].tpl).(added := []), Reset(t.secs[i].tpl));
    }
    assert ClearedCells(ClearedCells(t.cells)) == ClearedCells(t.cells);
    BareParts(Reset(t), t);
  }

  lemma {:induction false} BareGlobal(t: Tpl, key: string, val: string)
    requires AllSel(t)
    ensures Bare(SetGlobal(t, key, val)) == Bare(t)
    decreases Height(t)
  {
    BareSetField(t, key, val);
    ReplaceCells(t, t.sel, SetCell(Sub(t, t.sel), key, val));
    var s := SetField(t, key, val);
    forall i | 0 <= i < |s.secs| ensures Bare(SetGlobal(t, key, val).secs[i].tpl) == Bare(s.secs[i].tpl) {
      ChildLower(s, i, |s.secs|);
      BareGlobal(s.secs[i].tpl, key, val);
    }
    BareParts(SetGlobal(t, key, val), s);
  }

  lemma BareSelect(t: Tpl, key: string)
    requires HasPath(t, t.sel)
    ensures Bare(Select(t, key).0) == Bare(t)
  {
    var s := Sub(t, t.sel);
    if Lookup(SecKeys(s.secs), key).Some? {
      var j := Lookup(SecKeys(s.secs), key).value;
      BareParts(s.(sel := [j]), s);
      BareReplace(t, t.sel, s.(sel := [j]));
      BareParts(Select(t, key).0, Replace(t, t.sel, s.(sel := [j])));
    }
  }

  lemma BareDeselect(t: Tpl)
    requires HasPath(t, t.sel)
    ensures Bare(Deselect(t).0) == Bare(t)
  {
    if t.sel != [] {
      var up := t.sel[..|t.sel| - 1];
      PathPrefix(t, t.sel, |up|);
      var x := Sub(t, up).(sel := []);
      BareParts(x, Sub(t, up));
      BareReplace(t, up, x);
      BareParts(Deselect(t).0, Replace(t, up, x));
    }
  }

  lemma BareStep(t: Tpl, op: Op)
    requires AllSel(t) && !op.SetSectionOp?
    ensures Bare(Step(t, op).0) == Bare(t)
  {
    match op {
      case SelectOp(key) => BareSelect(t, key);
      case DeselectOp => BareDeselect(t);
      case SetFieldOp(key, val) => BareSetField(t, key, val);
      case SetGlobalOp(key, val) => BareGlobal(t, key, val);
      case AppendOp =>
        if t.sel != [] {
          BareAppended(Sub(t, t.sel));
          BareReplace(t, t.sel, Appended(Sub(t, t.sel)));
        }
      case ResetOp => BareReset(t);
    }
  }

  lemma {:induction false} BareRun(t: Tpl, ops: seq<Op>)
    requires AllowedRun(t, ops) && forall op <- ops :: !op.SetSectionOp?
    ensures Bare(Run(t, ops)) == Bare(t)
    decreases ops
  {
    if ops != [] {
      BareStep(t, ops[0]);
      BareRun(Step(t, ops[0]).0, ops[1..]);
    }
  }

  lemma {:induction false} PristineBare(t: Tpl)
    requires Pristine(t)
    ensures Bare(t) == t
    decreases t
  {
    forall i | 0 <= i < |t.secs| ensures Bare(t).secs[i] == t.secs[i] {
      PristineBare(t.secs[i].tpl);
    }
    forall i | 0 <= i < |t.cells| ensures ClearedCells(t.cells)[i] == t.cells[i] {
      assert t.cells[i] in t.cells;
    }
    assert Bare(t).secs == t.secs && ClearedCells(t.cells) == t.cells;
  }

  lemma {:induction false} ResetIsBare(t: Tpl)
    ensures Unselected(Reset(t)).(added := []) == Bare(t)
    decreases t
  {
    var u := Unselected(Reset(t));
    forall i | 0 <= i < |t.secs| ensures u.secs[i] == Bare(t).secs[i] {
      var c := t.secs[i].tpl;
      ResetIsBare(c);
      assert Unselected(Reset(c).(added := [])) == Unselected(Reset(c)).(added := []);
    }
    assert u.secs == Bare(t).secs;
  }

  lemma {:induction false} UnselectedContent(t: Tpl, path: seq<nat>)
    ensures HasPath(t, path) <==> HasPath(Unselected(t), path)
    ensures HasPath(t, path) ==> Content(Sub(Unselected(t), path)) == Content(Sub(t, path))
    decreases path
  {
    if path == [] {
      assert forall i | 0 <= i < |t.secs| :: Unselected(t).secs[i].tpl.added == t.secs[i].tpl.added;
      ContentAlike(Unselected(t), t, |t.nodes|, |t.secs|);
    } else if path[0] < |t.secs| {
      UnselectedContent(t.secs[path[0]].tpl, path[1..]);
    }
  }

  /** After any run of field sets, selections, appends and resets on a parsed template, a reset
      gives back the parsed tree but for the selection, so every level renders as it did right
      after parsing. */
  lemma {:induction false} ResetRestores(r: string, ops: seq<Op>, path: seq<nat>)
    requires Parse(r).Some? && AllowedRun(Parse(r).value, ops) && forall op <- ops :: !op.SetSectionOp?
    ensures var t := Parse(r).value; var u := Reset(Run(t, ops));
      && Unselected(u) == t
      && (HasPath(t, path) ==> HasPath(u, path) && Content(Sub(u, path)) == Content(Sub(t, path)))
  {
    var t := Parse(r).value;
    ParseReads(r);
    ParsedInvariant(r);
    RunKeeps(t, ops);
    PristineBare(t);
    BareRun(t, ops);
    ResetIsBare(Run(t, ops));
    UnselectedContent(Reset(Run(t, ops)), path);
  }

  /** A reset empties the values of every level and what was added to every section, and nothing else: nodes,
      names, places and selections are as before. */
  lemma {:induction false} ResetLevels(t: Tpl, path: seq<nat>)
    requires HasPath(t, path)
    ensures var s, u := Sub(t, path), Reset(t);
      && HasPath(u, path) && var s' := Sub(u, path);
      && s' == s.(cells := s'.cells, added := if path == [] then s.added else [], secs := s'.secs)
      && |s'.cells| == |s.cells| && (forall c | 0 <= c < |s.cells| :: s'.cells[c] == Cell(s.cells[c].key, ""))
      && |s'.secs| == |s.secs|
      && forall i | 0 <= i < |s.secs| :: s'.secs[i].key == s.secs[i].key && s'.secs[i].pos == s.secs[i].pos
    decreases path
  {
    if path != [] {
      var c := t.secs[path[0]].tpl;
      ResetLevels(c, path[1..]);
      assert Reset(t).secs[path[0]].tpl == Reset(c).(added := []);
      if |path| > 1 {
        assert HasPath(Reset(c).(added := []), path[1..]);
      }
    }
  }

  /** The step does that at every level, and reports no error. */
  lemma ResetStep(t: Tpl, path: seq<nat>)
    requires AllSel(t) && HasPath(t, path)
    ensures var s, (u, code) := Sub(t, path), Step(t, ResetOp);
      && code == TPL_OK && HasPath(u, path) && var s' := Sub(u, path);
      && s' == s.(cells := s'.cells, added := if path == [] then s.added else [], secs := s'.secs)
      && |s'.cells| == |s.cells| && (forall c | 0 <= c < |s.cells| :: s'.cells[c] == Cell(s.cells[c].key, ""))
      && |s'.secs| == |s.secs|
      && forall i | 0 <= i < |s.secs| :: s'.secs[i].key == s.secs[i].key && s'.secs[i].pos == s.secs[i].pos
  {
    ResetLevels(t, path);
  }

  /** A second reset changes nothing. */
  lemma {:induction false} ResetTwice(t: Tpl)
    ensures Reset(Reset(t)) == Reset(t)
    decreases t
  {
    var u := Reset(t);
    forall i | 0 <= i < |t.secs| ensures Reset(u).secs[i] == u.secs[i] {
      var c := Reset(t.secs[i].tpl);
      ResetTwice(t.secs[i].tpl);
      assert Reset(c.(added := [])) == Reset(c).(added := []);
    }
    assert Reset(u).secs == u.secs;
    assert ClearedCells(ClearedCells(t.cells)) == ClearedCells(t.cells);
  }
}
