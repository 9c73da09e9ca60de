/** The operations on a template, as functions on its tree. */
module Ops {
  import opened Names
  import opened Tree
  import opened Render

  const TPL_OK := 0
  const TPL_SECTION_NOT_FOUND_ERROR := -1
  const TPL_NO_SECTION_SELECTED_ERROR := -2
  const TPL_SYNTAX_ERROR := -3

  // --- levels by path

  predicate HasPath(t: Tpl, path: seq<nat>)
    decreases path
  {
    path == [] || (path[0] < |t.secs| && HasPath(t.secs[path[0]].tpl, path[1..]))
  }

  function Sub(t: Tpl, path: seq<nat>): Tpl
    requires HasPath(t, path)
    decreases path
  {
    if path == [] then t else Sub(t.secs[path[0]].tpl, path[1..])
  }

  /** t with child i replaced. */
  function SetChild(t: Tpl, i: nat, x: Tpl): Tpl
    requires i < |t.secs|
  {
    t.(secs := t.secs[i := t.secs[i].(tpl := x)])
  }

  function Replace(t: Tpl, path: seq<nat>, x: Tpl): Tpl
    requires HasPath(t, path)
    decreases path
  {
    if path == [] then x else SetChild(t, path[0], Replace(t.secs[path[0]].tpl, path[1..], x))
  }

  lemma {:induction false} SubReplace(t: Tpl, path: seq<nat>, x: Tpl)
    requires HasPath(t, path)
    ensures HasPath(Replace(t, path, x), path) && Sub(Replace(t, path, x), path) == x
    decreases path
  {
    if path != [] { SubReplace(t.secs[path[0]].tpl, path[1..], x); }
  }

  lemma {:induction false} ReplaceSame(t: Tpl, path: seq<nat>)
    requires HasPath(t, path)
    ensures Replace(t, path, Sub(t, path)) == t
    decreases path
  {
    if path != [] { ReplaceSame(t.secs[path[0]].tpl, path[1..]); }
  }

  lemma {:induction false} ReplaceTwice(t: Tpl, path: seq<nat>, x: Tpl, y: Tpl)
    requires HasPath(t, path)
    ensures HasPath(Replace(t, path, x), path) && Replace(Replace(t, path, x), path, y) == Replace(t, path, y)
    decreases path
  {
    SubReplace(t, path, x);
    if path != [] {
      var i, c := path[0], t.secs[path[0]].tpl;
      ReplaceTwice(c, path[1..], x, y);
      assert t.secs[i := t.secs[i].(tpl := Replace(c, path[1..], x))][i := t.secs[i].(tpl := Replace(c, path[1..], y))]
          == t.secs[i := t.secs[i].(tpl := Replace(c, path[1..], y))];
    }
  }

  lemma {:induction false} PathStep(t: Tpl, path: seq<nat>, j: nat)
    requires HasPath(t, path)
    ensures HasPath(t, path + [j]) <==> j < |Sub(t, path).secs|
    ensures HasPath(t, path + [j]) ==> Sub(t, path + [j]) == Sub(t, path).secs[j].tpl
    decreases path
  {
    if path == [] {
      assert [] + [j] == [j];
    } else {
      assert (path + [j])[1..] == path[1..] + [j];
      PathStep(t.secs[path[0]].tpl, path[1..], j);
    }
  }

  lemma {:induction false} PathPrefix(t: Tpl, path: seq<nat>, n: nat)
    requires HasPath(t, path) && n <= |path|
    ensures HasPath(t, path[..n])
    decreases path
  {
    if n > 0 {
      assert path[..n][1..] == path[1..][..n - 1];
      PathPrefix(t.secs[path[0]].tpl, path[1..], n - 1);
    }
  }

  // --- the operations

  function Select(t: Tpl, key: string): (Tpl, int)
    requires HasPath(t, t.sel)
  {
    var s := Sub(t, t.sel);
    match Lookup(SecKeys(s.secs), key)
    case None => (t, TPL_SECTION_NOT_FOUND_ERROR)
    case Some(j) => (Replace(t, t.sel, s.(sel := [j])).(sel := t.sel + [j]), TPL_OK)
  }

  function Deselect(t: Tpl): (Tpl, int)
    requires HasPath(t, t.sel)
  {
    if t.sel == [] then (t, TPL_NO_SECTION_SELECTED_ERROR)
    else
      var up := t.sel[..|t.sel| - 1];
      PathPrefix(t, t.sel, |t.sel| - 1);
      (Replace(t, up, Sub(t, up).(sel := [])).(sel := up), TPL_OK)
  }

  function SetCell(t: Tpl, key: string, val: string): Tpl {
    match Lookup(CellKeys(t.cells), key)
    case None => t
    case Some(c) => if c < |t.cells| then t.(cells := t.cells[c := t.cells[c].(val := val)]) else t
  }

  function SetField(t: Tpl, key: string, val: string): Tpl
    requires HasPath(t, t.sel)
  {
    Replace(t, t.sel, SetCell(Sub(t, t.sel), key, val))
  }

  /** The chain that the first i sections contribute to an append, and the node reached. */
  function PiecesTo(t: Tpl, i: nat): (r: (seq<string>, nat))
    requires i <= |t.secs|
  {
    if i == 0 then ([], 0)
    else
      var (chain, n) := PiecesTo(t, i - 1);
      var s := t.secs[i - 1];
      if s.tpl.added == [] || s.pos > |t.nodes| then (chain, n)
      else (chain + [NodesText(t.nodes, t.cells, n, s.pos)] + s.tpl.added, s.pos)
  }

  function Pieces(t: Tpl): seq<string> {
    var (chain, n) := PiecesTo(t, |t.secs|);
    chain + [NodesText(t.nodes, t.cells, n, |t.nodes|)]
  }

  function Emptied(secs: seq<Sec>): (r: seq<Sec>)
    ensures |r| == |secs| && forall i | 0 <= i < |r| :: r[i] == secs[i].(tpl := secs[i].tpl.(added := []))
  {
    seq(|secs|, i requires 0 <= i < |secs| => secs[i].(tpl := secs[i].tpl.(added := [])))
  }

  function Appended(t: Tpl): Tpl {
    t.(added := t.added + Pieces(t), secs := Emptied(t.secs))
  }

  function Append(t: Tpl): (Tpl, int)
    requires HasPath(t, t.sel)
  {
    if t.sel == [] then (t, TPL_NO_SECTION_SELECTED_ERROR)
    else (Replace(t, t.sel, Appended(Sub(t, t.sel))), TPL_OK)
  }

  /** The length field of a node: a field node has none of its own. */
  function NodeLen(node: Node): nat {
    match node case TextNode(s) => |s| case FieldNode(_) => 0
  }

  /** The section's only node can be overwritten in place. */
  predicate InPlace(t: Tpl, len: nat) {
    t.secs == [] && |t.nodes| == 1 && NodeLen(t.nodes[0]) == len
  }

  function WithText(t: Tpl, val: string): Tpl {
    if InPlace(t, |val|) then t.(nodes := [TextNode(val)], added := [val])
    else Tpl([TextNode(val)], [], [], [val], [])
  }

  function SetSection(t: Tpl, key: string, val: string): (Tpl, int)
    requires HasPath(t, t.sel)
  {
    var s := Sub(t, t.sel);
    match Lookup(SecKeys(s.secs), key)
    case None => (t, TPL_SECTION_NOT_FOUND_ERROR)
    case Some(j) =>
      if j < |s.secs| then (Replace(t, t.sel, SetChild(s, j, WithText(s.secs[j].tpl, val))), TPL_OK)
      else (t, TPL_SECTION_NOT_FOUND_ERROR)
  }

  /** The level's only node would be overwritten in place, but it is a field and has no text of its own. */
  predicate OverNoText(t: Tpl, val: string) {
    InPlace(t, |val|) && t.nodes[0].FieldNode?
  }

  /** The call comes to the copy in place with a null text pointer. */
  predicate WritesThroughNull(t: Tpl, key: string, val: string)
    requires HasPath(t, t.sel)
  {
    var s := Sub(t, t.sel);
    match Lookup(SecKeys(s.secs), key)
    case None => false
    case Some(j) => j < |s.secs| && OverNoText(s.secs[j].tpl, val)
  }

  /** An empty text written over a field node is outside what the original handles. */
  predicate SetSectionAllowed(t: Tpl, key: string, val: string)
    requires HasPath(t, t.sel)
  {
    var s := Sub(t, t.sel);
    match Lookup(SecKeys(s.secs), key)
    case None => true
    case Some(j) => j < |s.secs| ==> var u := s.secs[j].tpl;
      val == "" && u.secs == [] && |u.nodes| == 1 ==> u.nodes[0].TextNode?
  }

  /** What is not allowed is exactly what would write through a null pointer. */
  lemma WritesThroughNullIff(t: Tpl, key: string, val: string)
    requires HasPath(t, t.sel)
    ensures WritesThroughNull(t, key, val) <==> !SetSectionAllowed(t, key, val)
  {
    hide Lookup, Sub;
    if Lookup(SecKeys(Sub(t, t.sel).secs), key).Some? && WritesThroughNull(t, key, val) { assert val == ""; }
  }

  function ClearedCells(cells: seq<Cell>): (r: seq<Cell>)
    ensures |r| == |cells| && forall i | 0 <= i < |r| :: r[i] == Cell(cells[i].key, "")
  {
    seq(|cells|, i requires 0 <= i < |cells| => Cell(cells[i].key, ""))
  }

  function Reset(t: Tpl): (r: Tpl)
    decreases t
    ensures |r.secs| == |t.secs|
  {
    t.(cells := ClearedCells(t.cells),
       secs := seq(|t.secs|, i requires 0 <= i < |t.secs| => t.secs[i].(tpl := Reset(t.secs[i].tpl).(added := []))))
  }

  /** Every level's selection path leads somewhere below it. */
  predicate AllSel(t: Tpl) {
    HasPath(t, t.sel) && forall i | 0 <= i < |t.secs| :: AllSel(t.secs[i].tpl)
  }

  function Height(t: Tpl): nat
    decreases t, |t.secs| + 1
  {
    1 + HeightTo(t, |t.secs|)
  }

  function HeightTo(t: Tpl, i: nat): nat
    requires i <= |t.secs|
    decreases t, i
  {
    if i == 0 then 0
    else
      var a, b := HeightTo(t, i - 1), Height(t.secs[i - 1].tpl);
      if a < b then b else a
  }

  lemma {:induction false} ChildLower(t: Tpl, j: nat, i: nat)
    requires j < i <= |t.secs|
    ensures Height(t.secs[j].tpl) <= HeightTo(t, i)
    decreases i
  {
    if j < i - 1 { ChildLower(t, j, i - 1); }
  }

  lemma {:induction false} HeightSame(t: Tpl, u: Tpl, i: nat)
    requires i <= |t.secs| && |t.secs| == |u.secs|
    requires forall j | 0 <= j < i :: Height(t.secs[j].tpl) == Height(u.secs[j].tpl)
    ensures HeightTo(t, i) == HeightTo(u, i)
    decreases i
  {
    if i > 0 { HeightSame(t, u, i - 1); }
  }

  lemma {:induction false} ReplaceCells(t: Tpl, path: seq<nat>, x: Tpl)
    requires HasPath(t, path) && AllSel(t)
    requires var s := Sub(t, path); x == s.(cells := x.cells)
    ensures Height(Replace(t, path, x)) == Height(t) && AllSel(Replace(t, path, x))
    ensures SameShape(t, Replace(t, path, x))
    decreases path
  {
    var u := Replace(t, path, x);
    if path == [] {
      HeightSame(t, u, |t.secs|);
      SameShapeAll(t);
      assert SameShape(t, u);
    } else {
      var c := t.secs[path[0]].tpl;
      ReplaceCells(c, path[1..], x);
      HeightSame(t, u, |t.secs|);
      forall i | 0 <= i < |t.secs| ensures SameShape(t.secs[i].tpl, u.secs[i].tpl) { SameShapeAll(t.secs[i].tpl); }
    }
    SameShapePath(t, u, t.sel);
  }

  /** The same sections everywhere, so the same paths. */
  predicate SameShape(t: Tpl, u: Tpl) {
    |t.secs| == |u.secs| && forall i | 0 <= i < |t.secs| :: SameShape(t.secs[i].tpl, u.secs[i].tpl)
  }

  lemma {:induction false} SameShapeAll(t: Tpl)
    ensures SameShape(t, t)
    decreases t
  {
    forall i | 0 <= i < |t.secs| ensures SameShape(t.secs[i].tpl, t.secs[i].tpl) { SameShapeAll(t.secs[i].tpl); }
  }

  lemma {:induction false} SameShapePath(t: Tpl, u: Tpl, path: seq<nat>)
    requires SameShape(t, u)
    ensures HasPath(t, path) <==> HasPath(u, path)
    decreases path
  {
    if path != [] && path[0] < |t.secs| { SameShapePath(t.secs[path[0]].tpl, u.secs[path[0]].tpl, path[1..]); }
  }

  /** Each level sets the field where its own selection pointer leads, then hands on to its sections. */
  function SetGlobal(t: Tpl, key: string, val: string): Tpl
    requires AllSel(t)
    decreases Height(t)
  {
    ReplaceCells(t, t.sel, SetCell(Sub(t, t.sel), key, val));
    var u := SetField(t, key, val);
    u.(secs := seq(|u.secs|, i requires 0 <= i < |u.secs| =>
      ChildLower(u, i, |u.secs|);
      u.secs[i].(tpl := SetGlobal(u.secs[i].tpl, key, val))))
  }
}
