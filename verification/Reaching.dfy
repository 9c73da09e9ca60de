/** Which levels a global field set reaches, and which it misses. */
module Reaching {
  import opened Names
  import opened Tree
  import opened Ops
  import opened Runs
  import opened Effects

  /** Some level on the way to the end of the path, that one included, has its selection pointer there. */
  predicate Pointed(t: Tpl, path: seq<nat>)
    requires HasPath(t, path)
    decreases path
  {
    t.sel == path || (path != [] && Pointed(t.secs[path[0]].tpl, path[1..]))
  }

  // --- one level

  lemma CellsOnly(t: Tpl, u: Tpl, key: string, val: string)
    requires t.cells == u.cells
    ensures SetCell(t, key, val).cells == SetCell(u, key, val).cells
  {
  }

  lemma SetCellTwice(t: Tpl, key: string, val: string)
    ensures SetCell(SetCell(t, key, val), key, val) == SetCell(t, key, val)
  {
    var u := SetCell(t, key, val);
    assert CellKeys(u.cells) == CellKeys(t.cells);
  }

  /** Replacing a level by one with the same sections and pointer. */
  lemma {:induction false} PointedReplace(t: Tpl, path: seq<nat>, x: Tpl, q: seq<nat>)
    requires HasPath(t, path) && HasPath(t, q) && x.secs == Sub(t, path).secs && x.sel == Sub(t, path).sel
    ensures HasPath(Replace(t, path, x), q) && (Pointed(Replace(t, path, x), q) <==> Pointed(t, q))
    decreases path
  {
    if path != [] && q != [] && q[0] == path[0] {
      PointedReplace(t.secs[path[0]].tpl, path[1..], x, q[1..]);
    }
  }

  /** Setting the cell of the level at path changes that level's cells, and no other's. */
  lemma CellsAfter(t: Tpl, path: seq<nat>, key: string, val: string, q: seq<nat>)
    requires HasPath(t, path) && HasPath(t, q)
    ensures var x := SetCell(Sub(t, path), key, val); var u := Replace(t, path, x);
      && HasPath(u, q) && (Pointed(u, q) <==> Pointed(t, q))
      && Sub(u, q).cells == (if q == path then x.cells else Sub(t, q).cells)
      && SameLevel(Sub(t, q).(cells := Sub(u, q).cells), Sub(u, q))
  {
    hide Sub, Replace, HasPath, SetCell, Pointed;
    var x := SetCell(Sub(t, path), key, val);
    SetCellSections(Sub(t, path), key, val);
    PointedReplace(t, path, x, q);
    if q == path {
      SubReplace(t, path, x);
    } else if path <= q {
      Inside(t, path, x, q);
    } else {
      Elsewhere(t, path, x, q);
    }
  }

  /** Section i of a level after the level itself has set the field. */
  lemma SectionAfter(t: Tpl, key: string, val: string, i: nat)
    requires AllSel(t) && i < |t.secs|
    ensures var u := SetField(t, key, val); var c := t.secs[i].tpl;
      && |u.secs| == |t.secs| && AllSel(u.secs[i].tpl) && |SetGlobal(t, key, val).secs| == |t.secs|
      && SetGlobal(t, key, val).secs[i].tpl == SetGlobal(u.secs[i].tpl, key, val)
      && if t.sel != [] && t.sel[0] == i then
           (HasPath(c, t.sel[1..])
            && u.secs[i].tpl == Replace(c, t.sel[1..], SetCell(Sub(c, t.sel[1..]), key, val)))
         else u.secs[i].tpl == c
  {
    hide SetCell;
    SetCellSections(Sub(t, t.sel), key, val);
    ReplaceCells(t, t.sel, SetCell(Sub(t, t.sel), key, val));
  }

  // --- every level

  /** A level's cells are set if and only if it is pointed at on the way to it. */
  lemma {:induction false} GlobalReaches(t: Tpl, key: string, val: string, path: seq<nat>)
    requires AllSel(t) && HasPath(t, path)
    ensures var s, u := Sub(t, path), SetGlobal(t, key, val);
      && HasPath(u, path) && SameLevel(s.(cells := Sub(u, path).cells), Sub(u, path))
      && Sub(u, path).cells == if Pointed(t, path) then SetCell(s, key, val).cells else s.cells
    decreases path
  {
    hide SetCell, SetGlobal, SetField;
    if path == [] {
      RootCells(t, key, val);
    } else {
      var i, q := path[0], path[1..];
      SectionAfter(t, key, val, i);
      var c, d := t.secs[i].tpl, SetField(t, key, val).secs[i].tpl;
      if t.sel != [] && t.sel[0] == i {
        CellsAfter(c, t.sel[1..], key, val, q);
        assert t.sel == path <==> t.sel[1..] == q;
        SetCellTwice(Sub(c, q), key, val);
        CellsOnly(Sub(d, q), if t.sel == path then SetCell(Sub(c, q), key, val) else Sub(c, q), key, val);
      }
      GlobalReaches(d, key, val, q);
    }
  }

  lemma RootCells(t: Tpl, key: string, val: string)
    requires AllSel(t)
    ensures var u := SetGlobal(t, key, val);
      && SameLevel(t.(cells := u.cells), u)
      && u.cells == if t.sel == [] then SetCell(t, key, val).cells else t.cells
  {
    hide SetCell;
    SetCellSections(t, key, val);
  }

  // --- in every state that can be reached

  /** The levels a global set does not reach: the root while a section is selected, and the first level of
      the selected path when there are more. */
  predicate Missed(sel: seq<nat>, path: seq<nat>) {
    (path == [] && sel != []) || (|sel| >= 2 && path == sel[..1])
  }

  /** Below the root, a level is pointed at unless it is the first one and points on. */
  lemma {:induction false} BelowPointed(t: Tpl, path: seq<nat>, q: seq<nat>)
    requires Below(t, path) && HasPath(t, q)
    ensures Pointed(t, q) <==> q != [] || path == []
    decreases q
  {
    if q != [] { BelowPointed(t.secs[q[0]].tpl, Rest(path, q[0]), q[1..]); }
  }

  /** Whatever was done before: a global set writes the field at the level at path if and only if that is
      neither the root under a selection nor the first level of a longer selected path. */
  lemma {:induction false} GlobalReachesIff(t: Tpl, key: string, val: string, path: seq<nat>)
    requires Invariant(t) && HasPath(t, path)
    ensures AllSel(t) && var s, (u, code) := Sub(t, path), Step(t, SetGlobalOp(key, val));
      && code == TPL_OK && HasPath(u, path) && SameLevel(s.(cells := Sub(u, path).cells), Sub(u, path))
      && Sub(u, path).cells == (if Missed(t.sel, path) then s.cells else SetCell(s, key, val).cells)
      && match Lookup(CellKeys(s.cells), key)
         case None => true
         case Some(c) =>
           (c < |s.cells| == |Sub(u, path).cells|
            && (s.cells[c].val != val ==> (Sub(u, path).cells[c].val == val <==> !Missed(t.sel, path))))
  {
    InvariantPath(t);
    if path != [] { BelowPointed(t.secs[path[0]].tpl, Rest(t.sel, path[0]), path[1..]); }
    assert Pointed(t, path) <==> !Missed(t.sel, path);
    GlobalReaches(t, key, val, path);
    LookupSpec(CellKeys(Sub(t, path).cells), key);
  }
}
