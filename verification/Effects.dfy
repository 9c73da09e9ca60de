/** What setting a field and replacing a section change in the rendered text, and what they leave alone. */
module Effects {
  import opened Search
  import opened Names
  import opened Tree
  import opened Render
  import opened Ops
  import opened RoundTrip
  import opened Runs
  import opened Appending
  import opened Resetting

  // --- levels that are not touched

  /** The level itself is the same: its nodes, values, added content, selection pointer, and the names and
      places of its sections. */
  predicate SameLevel(t: Tpl, u: Tpl) {
    && t.nodes == u.nodes && t.cells == u.cells && t.added == u.added && t.sel == u.sel
    && |t.secs| == |u.secs|
    && forall i | 0 <= i < |t.secs| :: t.secs[i].key == u.secs[i].key && t.secs[i].pos == u.secs[i].pos
  }

  /** Replacing the level at path leaves every level that is not at or below it. */
  lemma {:induction false} Elsewhere(t: Tpl, path: seq<nat>, x: Tpl, q: seq<nat>)
    requires HasPath(t, path) && HasPath(t, q) && !(path <= q)
    ensures HasPath(Replace(t, path, x), q) && SameLevel(Sub(t, q), Sub(Replace(t, path, x), q))
    decreases path
  {
    if q != [] {
      if q[0] == path[0] {
        TailNotBelow(path, q);
        Elsewhere(t.secs[path[0]].tpl, path[1..], x, q[1..]);
      } else {
        assert Replace(t, path, x).secs[q[0]] == t.secs[q[0]];
      }
    }
  }

  lemma TailNotBelow(path: seq<nat>, q: seq<nat>)
    requires path != [] && q != [] && q[0] == path[0] && !(path <= q)
    ensures !(path[1..] <= q[1..])
  {
    assert path == [path[0]] + path[1..] && q == [q[0]] + q[1..];
  }

  /** Replacing a level by one with the same sections leaves every level below it. */
  lemma {:induction false} Inside(t: Tpl, path: seq<nat>, x: Tpl, q: seq<nat>)
    requires HasPath(t, path) && HasPath(t, q) && path < q && x.secs == Sub(t, path).secs
    ensures HasPath(Replace(t, path, x), q) && Sub(Replace(t, path, x), q) == Sub(t, q)
    decreases path
  {
    if path != [] {
      assert path[1..] < q[1..];
      Inside(t.secs[path[0]].tpl, path[1..], x, q[1..]);
    }
  }

  // --- selecting

  lemma {:induction false} UnselectedReplace(t: Tpl, path: seq<nat>, x: Tpl)
    requires HasPath(t, path) && Unselected(x) == Unselected(Sub(t, path))
    ensures Unselected(Replace(t, path, x)) == Unselected(t)
    decreases path
  {
    if path != [] {
      UnselectedReplace(t.secs[path[0]].tpl, path[1..], x);
      assert Unselected(Replace(t, path, x)).secs == Unselected(t).secs;
    }
  }

  lemma UnselectedSel(t: Tpl, sel: seq<nat>)
    ensures Unselected(t.(sel := sel)) == Unselected(t)
  {
    assert Unselected(t.(sel := sel)).secs == Unselected(t).secs;
  }

  /** A successful select selects the section that answers for the key, one level below the selected
      one, and moves nothing but selection pointers. */
  lemma {:induction false} SelectReaches(t: Tpl, key: string)
    requires Invariant(t)
    ensures AllSel(t) && var s, (u, code) := Sub(t, t.sel), Step(t, SelectOp(key));
      match Lookup(SecKeys(s.secs), key)
      case None => u == t && code == TPL_SECTION_NOT_FOUND_ERROR
      case Some(j) =>
        (j < |s.secs| && code == TPL_OK && u.sel == t.sel + [j]
         && HasPath(u, u.sel) && Sub(u, u.sel) == s.secs[j].tpl && Unselected(u) == Unselected(t))
  {
    InvariantPath(t);
    var s := Sub(t, t.sel);
    LookupSpec(SecKeys(s.secs), key);
    if Lookup(SecKeys(s.secs), key).Some? {
      var j := Lookup(SecKeys(s.secs), key).value;
      var w := Replace(t, t.sel, s.(sel := [j]));
      SubReplace(t, t.sel, s.(sel := [j]));
      PathStep(w, t.sel, j);
      UnselectedSel(s, [j]);
      UnselectedReplace(t, t.sel, s.(sel := [j]));
      hide Unselected, Replace, Lookup, Invariant;
      UnselectedSel(w, t.sel + [j]);
      PathOf(w, t.sel + [j]);
    }
  }

  /** The selection pointer of a level does not matter for paths from it. */
  lemma PathOf(t: Tpl, path: seq<nat>)
    requires path != [] && HasPath(t, path)
    ensures HasPath(t.(sel := path), path) && Sub(t.(sel := path), path) == Sub(t, path)
  {
  }

  /** A successful deselect selects the level around the selected one, and moves nothing but selection pointers. */
  lemma {:induction false} DeselectReaches(t: Tpl)
    requires AllSel(t)
    ensures var (u, code) := Step(t, DeselectOp);
      if t.sel == [] then u == t && code == TPL_NO_SECTION_SELECTED_ERROR
      else code == TPL_OK && u.sel == t.sel[..|t.sel| - 1] && Unselected(u) == Unselected(t)
  {
    if t.sel != [] {
      var up := t.sel[..|t.sel| - 1];
      PathPrefix(t, t.sel, |t.sel| - 1);
      UnselectedSel(Sub(t, up), []);
      UnselectedReplace(t, up, Sub(t, up).(sel := []));
      hide Unselected, Replace;
      UnselectedSel(Replace(t, up, Sub(t, up).(sel := [])), up);
    }
  }

  // --- setting a field

  /** Every node of the selected level that stands for key renders as val, every other node as before. */
  lemma {:induction false} SetFieldShows(t: Tpl, key: string, val: string, k: nat)
    requires Invariant(t) && AllSel(t) && k < |Sub(t, t.sel).nodes|
    requires Exact(CellKeys(Sub(t, t.sel).cells), key)
    ensures var s, u := Sub(t, t.sel), Step(t, SetFieldOp(key, val)).0;
      && HasPath(u, t.sel) && Sub(u, t.sel).nodes == s.nodes
      && NodeText(Sub(u, t.sel).cells, s.nodes[k])
         == match s.nodes[k]
            case TextNode(text) => text
            case FieldNode(c) => if c < |s.cells| && s.cells[c].key == key then val else NodeText(s.cells, s.nodes[k])
  {
    var s := Sub(t, t.sel);
    SubReplace(t, t.sel, SetCell(s, key, val));
    ReplaceWellFormed(t, t.sel, s);
    LookupSpec(CellKeys(s.cells), key);
    if s.nodes[k].FieldNode? {
      CellInRange(s, k);
      StoredFound(CellKeys(s.cells), s.nodes[k].cell, |s.cells|);
      assert CellKeys(s.cells)[..|s.cells|] == CellKeys(s.cells);
    }
  }

  /** Whether or not the lookup is exact: the cell that answers for the key holds val, every other cell of the
      selected level what it held, and nothing else of that level changes. */
  lemma {:induction false} SetFieldAnswers(t: Tpl, key: string, val: string, c: nat)
    requires AllSel(t) && c < |Sub(t, t.sel).cells|
    ensures var s, (u, code) := Sub(t, t.sel), Step(t, SetFieldOp(key, val));
      && code == TPL_OK && HasPath(u, t.sel) && var s' := Sub(u, t.sel);
      && s' == s.(cells := s'.cells) && |s'.cells| == |s.cells| && s'.cells[c].key == s.cells[c].key
      && s'.cells[c].val == if Lookup(CellKeys(s.cells), key) == Some(c) then val else s.cells[c].val
  {
    SubReplace(t, t.sel, SetCell(Sub(t, t.sel), key, val));
  }

  /** Every other level is as it was, whether around, beside or below the selected one. */
  lemma {:induction false} SetFieldElsewhere(t: Tpl, key: string, val: string, q: seq<nat>)
    requires AllSel(t) && HasPath(t, q) && q != t.sel
    ensures var u := Step(t, SetFieldOp(key, val)).0; HasPath(u, q) && SameLevel(Sub(t, q), Sub(u, q))
  {
    hide Sub, Replace, HasPath, SetCell;
    var x := SetCell(Sub(t, t.sel), key, val);
    SetCellSections(Sub(t, t.sel), key, val);
    if t.sel <= q { Inside(t, t.sel, x, q); } else { Elsewhere(t, t.sel, x, q); }
  }

  lemma SetCellSections(t: Tpl, key: string, val: string)
    ensures SetCell(t, key, val) == t.(cells := SetCell(t, key, val).cells)
  {
  }

  // --- appending

  /** Every level but the selected section and its direct sections is as it was. */
  lemma {:induction false} AppendLeaves(t: Tpl, q: seq<nat>)
    requires AllSel(t) && t.sel != [] && HasPath(t, q) && q != t.sel && !(t.sel < q && |q| == |t.sel| + 1)
    ensures var u := Step(t, AppendOp).0; HasPath(u, q) && SameLevel(Sub(t, q), Sub(u, q))
  {
    hide Sub, Replace, HasPath, Pieces;
    var x := Appended(Sub(t, t.sel));
    if t.sel <= q { InsideAppended(t, t.sel, q); } else { Elsewhere(t, t.sel, x, q); }
  }

  lemma {:induction false} InsideAppended(t: Tpl, path: seq<nat>, q: seq<nat>)
    requires HasPath(t, path) && HasPath(t, q) && path < q && |q| > |path| + 1
    ensures var u := Replace(t, path, Appended(Sub(t, path))); HasPath(u, q) && Sub(u, q) == Sub(t, q)
    decreases path
  {
    hide Pieces;
    if path != [] {
      assert path[1..] < q[1..];
      InsideAppended(t.secs[path[0]].tpl, path[1..], q[1..]);
    } else {
      assert HasPath(t.secs[q[0]].tpl.(added := []), q[1..]);
    }
  }

  // --- replacing a section

  /** A level without the added content of section j. */
  function Without(s: Tpl, j: nat): Tpl
    requires j < |s.secs|
  {
    SetChild(s, j, s.secs[j].tpl.(added := []))
  }

  /** Added content stands at the section's place in what the level renders to otherwise. */
  lemma ContentAround(s: Tpl, j: nat, x: Tpl)
    requires Placed(s) && j < |s.secs|
    ensures Placed(Without(s, j))
    ensures Content(SetChild(s, j, x)) == Inserted(Content(Without(s, j)), EndOf(Without(s, j), j), Concat(x.added))
  {
    var rest := Without(s, j);
    hide Inserted;
    GrownContent(rest, SetChild(s, j, x), j, Concat(x.added), |s.nodes|, |s.secs|);
  }

  lemma TextContent(s: Tpl, val: string)
    ensures Content(WithText(s, val)) == val && Concat(WithText(s, val).added) == val
    ensures var u := WithText(s, val); u.nodes == [TextNode(val)] && u.secs == [] && u.added == [val]
  {
    ConcatOne(val);
    var u := WithText(s, val);
    assert ContentTo(u, 0, 0) == "";
    assert u.nodes == [TextNode(val)] && u.secs == [];
    assert ContentTo(u, 1, 0) == ContentTo(u, 0, 0) + val;
  }

  /** Where the section's added content stood now stands val; the section itself renders as val. */
  lemma {:induction false} SetSectionShows(t: Tpl, key: string, val: string, j: nat)
    requires Invariant(t) && AllSel(t) && Lookup(SecKeys(Sub(t, t.sel).secs), key) == Some(j)
    ensures var s, (u, code) := Sub(t, t.sel), Step(t, SetSectionOp(key, val));
      && j < |s.secs| && code == TPL_OK && HasPath(u, t.sel)
      && var s' := Sub(u, t.sel);
      && SameLevel(s, s') && Content(s'.secs[j].tpl) == val && s'.secs[j].tpl.added == [val]
      && s'.secs[j].tpl.nodes == [TextNode(val)] && s'.secs[j].tpl.secs == []
      && Placed(Without(s, j))
      && Content(s) == Inserted(Content(Without(s, j)), EndOf(Without(s, j), j), Concat(s.secs[j].tpl.added))
      && Content(s') == Inserted(Content(Without(s, j)), EndOf(Without(s, j), j), val)
  {
    hide WithText, Inserted, Content, ContentTo, EndOf, Concat, Replace, Sub, HasPath, Lookup, Children, AllSel,
      Numbered, Separate;
    InvariantPath(t);
    var s := Sub(t, t.sel);
    LookupSpec(SecKeys(s.secs), key);
    ReplaceWellFormed(t, t.sel, s);
    var x := WithText(s.secs[j].tpl, val);
    SubReplace(t, t.sel, SetChild(s, j, x));
    TextContent(s.secs[j].tpl, val);
    ContentAround(s, j, s.secs[j].tpl);
    ContentAround(s, j, x);
    assert SetChild(s, j, s.secs[j].tpl) == s;
  }

  /** If no section of the selected level answers for the key, nothing changes and the error is returned. */
  lemma {:induction false} SetSectionMisses(t: Tpl, key: string, val: string)
    requires AllSel(t) && Lookup(SecKeys(Sub(t, t.sel).secs), key) == None
    ensures Step(t, SetSectionOp(key, val)) == (t, TPL_SECTION_NOT_FOUND_ERROR)
  {
    hide Lookup;
  }

  /** Every level but the selected one and those in the replaced section is as it was. */
  lemma {:induction false} SetSectionElsewhere(t: Tpl, key: string, val: string, j: nat, q: seq<nat>)
    requires AllSel(t) && Lookup(SecKeys(Sub(t, t.sel).secs), key) == Some(j) && j < |Sub(t, t.sel).secs|
    requires HasPath(t, q) && !(t.sel + [j] <= q)
    ensures var u := Step(t, SetSectionOp(key, val)).0; HasPath(u, q) && SameLevel(Sub(t, q), Sub(u, q))
  {
    var s := Sub(t, t.sel);
    var x := WithText(s.secs[j].tpl, val);
    PathStep(t, t.sel, j);
    ReplaceLast(t, t.sel, j, x);
    Elsewhere(t, t.sel + [j], x, q);
  }

  // --- a run of two steps

  /** Selecting a section and appending it: the level it stands in renders as before, with what the section
      renders to right after what was added there before. */
  lemma {:induction false} SelectAppendShows(t: Tpl, key: string, j: nat)
    requires Invariant(t) && AllSel(t) && Lookup(SecKeys(Sub(t, t.sel).secs), key) == Some(j)
    ensures var ops := [SelectOp(key), AppendOp]; AllowedRun(t, ops) && HasPath(Run(t, ops), t.sel)
    ensures j < |Sub(t, t.sel).secs| && Sub(t, t.sel).secs[j].pos <= |Sub(t, t.sel).nodes|
    ensures var s, u := Sub(t, t.sel), Run(t, [SelectOp(key), AppendOp]);
      Content(Sub(u, t.sel)) == Inserted(Content(s), EndOf(s, j), Content(s.secs[j].tpl))
  {
    hide Content, ContentTo, Inserted, Lookup, Run, AllowedRun, Unselected;
    var s, u := Sub(t, t.sel), Step(t, SelectOp(key)).0;
    SelectReaches(t, key);
    StepKeeps(t, SelectOp(key));
    InvariantPath(u);
    SelectedLevel(t, key, j);
    AppendShows(u, t.sel, j);
    OnlySel(s, Sub(u, t.sel), j);
    RunTwo(t, SelectOp(key), AppendOp);
  }

  lemma SelectedLevel(t: Tpl, key: string, j: nat)
    requires HasPath(t, t.sel) && AllSel(t) && Lookup(SecKeys(Sub(t, t.sel).secs), key) == Some(j)
    ensures var s, u := Sub(t, t.sel), Step(t, SelectOp(key)).0;
      HasPath(u, t.sel) && s == Sub(u, t.sel).(sel := s.sel)
  {
    hide Lookup;
    var s := Sub(t, t.sel);
    LookupSpec(SecKeys(s.secs), key);
    SubReplace(t, t.sel, s.(sel := [j]));
    var w := Replace(t, t.sel, s.(sel := [j]));
    if t.sel != [] { SelPath(w, t.sel + [j], t.sel); }
  }

  lemma SelPath(t: Tpl, sel: seq<nat>, path: seq<nat>)
    requires path != [] && HasPath(t, path)
    ensures HasPath(t.(sel := sel), path) && Sub(t.(sel := sel), path) == Sub(t, path)
  {
  }

  /** What a level renders to does not depend on its selection pointer. */
  lemma OnlySel(s: Tpl, u: Tpl, j: nat)
    requires s == u.(sel := s.sel) && j < |s.secs| && s.secs[j].pos <= |s.nodes|
    ensures Content(s) == Content(u) && EndOf(s, j) == EndOf(u, j)
  {
    ContentAlike(s, u, |s.nodes|, |s.secs|);
    ContentAlike(s, u, s.secs[j].pos, j + 1);
  }
}
