/** What a reset leaves after a run that replaced sections. */
module Edits {
  import opened Search
  import opened Names
  import opened Tree
  import opened Render
  import opened Ops
  import opened RoundTrip
  import opened Runs
  import opened Appending
  import opened Resetting

  /** A successful replacement of the section at path by a text. */
  datatype Edit = Edit(path: seq<nat>, val: string)

  function EditOf(t: Tpl, op: Op): seq<Edit>
    requires AllSel(t)
  {
    match op
    case SetSectionOp(key, val) =>
      (match Lookup(SecKeys(Sub(t, t.sel).secs), key)
       case None => []
       case Some(j) => [Edit(t.sel + [j], val)])
    case _ => []
  }

  /** The replacements of a run, in order. */
  function EditsOf(t: Tpl, ops: seq<Op>): seq<Edit>
    requires AllowedRun(t, ops)
    decreases ops
  {
    if ops == [] then [] else EditOf(t, ops[0]) + EditsOf(Step(t, ops[0]).0, ops[1..])
  }

  /** The last replacement at the end of the path or above. */
  function LastEdit(edits: seq<Edit>, path: seq<nat>): Option<Edit> {
    if edits == [] then None
    else
      match LastEdit(edits[1..], path)
      case Some(e) => Some(e)
      case None => if edits[0].path <= path then Some(edits[0]) else None
  }

  // --- replacing levels of a bare tree

  function TextLevel(val: string): Tpl {
    Tpl([TextNode(val)], [], [], [], [])
  }

  predicate Fits(t: Tpl, edits: seq<Edit>)
    decreases edits
  {
    edits == []
    || (HasPath(t, edits[0].path) && Fits(Replace(t, edits[0].path, TextLevel(edits[0].val)), edits[1..]))
  }

  function Edited(t: Tpl, edits: seq<Edit>): Tpl
    requires Fits(t, edits)
    decreases edits
  {
    if edits == [] then t else Edited(Replace(t, edits[0].path, TextLevel(edits[0].val)), edits[1..])
  }

  predicate Addless(t: Tpl) {
    t.added == [] && forall i | 0 <= i < |t.secs| :: Addless(t.secs[i].tpl)
  }

  lemma {:induction false} BareAddless(t: Tpl)
    ensures Addless(Bare(t))
    decreases t
  {
    forall i | 0 <= i < |t.secs| ensures Addless(Bare(t).secs[i].tpl) { BareAddless(t.secs[i].tpl); }
  }

  lemma {:induction false} AddlessReplace(t: Tpl, path: seq<nat>, x: Tpl)
    requires Addless(t) && HasPath(t, path) && Addless(x)
    ensures Addless(Replace(t, path, x))
    decreases path
  {
    if path != [] { AddlessReplace(t.secs[path[0]].tpl, path[1..], x); }
  }

  /** Replacing a level changes the rendered text of no level around it or beside it. */
  lemma {:induction false} EditLeaves(t: Tpl, path: seq<nat>, x: Tpl, q: seq<nat>)
    requires Addless(t) && HasPath(t, path) && Addless(x) && !(path <= q)
    ensures var u := Replace(t, path, x);
      (HasPath(u, q) <==> HasPath(t, q)) && (HasPath(t, q) ==> Content(Sub(u, q)) == Content(Sub(t, q)))
    decreases q
  {
    var u := Replace(t, path, x);
    AddlessReplace(t, path, x);
    if q == [] {
      ContentAlike(u, t, |t.nodes|, |t.secs|);
    } else if q[0] == path[0] {
      assert path == [path[0]] + path[1..] && q == [q[0]] + q[1..];
      EditLeaves(t.secs[q[0]].tpl, path[1..], x, q[1..]);
    }
  }

  /** Replacing a level leaves no level below it. */
  lemma {:induction false} EditEnds(t: Tpl, path: seq<nat>, val: string, q: seq<nat>)
    requires HasPath(t, path) && path <= q
    ensures var u := Replace(t, path, TextLevel(val));
      (HasPath(u, q) <==> q == path) && (q == path ==> Content(Sub(u, q)) == val)
    decreases path
  {
    if path == [] {
      TextLevelContent(val);
    } else {
      assert path == [path[0]] + path[1..] && q == [q[0]] + q[1..];
      EditEnds(t.secs[path[0]].tpl, path[1..], val, q[1..]);
    }
  }

  lemma TextLevelContent(val: string)
    ensures Content(TextLevel(val)) == val
  {
    var t := TextLevel(val);
    assert ContentTo(t, 0, 0) == "" && ContentTo(t, 1, 0) == ContentTo(t, 0, 0) + val;
  }

  lemma {:induction false} EditedAt(t: Tpl, edits: seq<Edit>, path: seq<nat>)
    requires Addless(t) && Fits(t, edits)
    ensures var u := Edited(t, edits);
      match LastEdit(edits, path)
      case None =>
        ((HasPath(u, path) <==> HasPath(t, path))
         && (HasPath(t, path) ==> Content(Sub(u, path)) == Content(Sub(t, path))))
      case Some(e) => (HasPath(u, path) <==> path == e.path) && (path == e.path ==> Content(Sub(u, path)) == e.val)
    decreases edits
  {
    if edits != [] {
      var e := edits[0];
      AddlessReplace(t, e.path, TextLevel(e.val));
      EditedAt(Replace(t, e.path, TextLevel(e.val)), edits[1..], path);
      if e.path <= path { EditEnds(t, e.path, e.val, path); } else { EditLeaves(t, e.path, TextLevel(e.val), path); }
    }
  }

  // --- a run is its replacements, up to a reset

  lemma EditsOfOne(t: Tpl, op: Op)
    requires Allowed(t, op)
    ensures AllowedRun(t, [op]) && EditsOf(t, [op]) == EditOf(t, op)
  {
    RunOne(t, op);
    assert AllSel(t);
    hide EditOf, Step, Allowed, AllSel;
    assert [op][1..] == [];
    assert EditsOf(Step(t, op).0, []) == [];
  }

  lemma {:induction false} BareAt(t: Tpl, path: seq<nat>, x: Tpl)
    requires HasPath(t, path)
    ensures HasPath(Bare(t), path) && Bare(Replace(t, path, x)) == Replace(Bare(t), path, Bare(x))
    decreases path
  {
    if path != [] {
      BareAt(t.secs[path[0]].tpl, path[1..], x);
      assert Bare(Replace(t, path, x)).secs == Replace(Bare(t), path, Bare(x)).secs;
    }
  }

  lemma BareText(t: Tpl, val: string)
    requires WellFormed(t)
    requires val == "" && t.secs == [] && |t.nodes| == 1 ==> t.nodes[0].TextNode?
    ensures Bare(WithText(t, val)) == TextLevel(val)
  {
    if InPlace(t, |val|) {
      assert t.nodes[..0] == [] && CellsMet(t.nodes) == 0;
      assert t.cells == [];
    }
  }

  lemma BareEdit(t: Tpl, op: Op)
    requires Invariant(t) && Allowed(t, op)
    ensures Fits(Bare(t), EditOf(t, op)) && Bare(Step(t, op).0) == Edited(Bare(t), EditOf(t, op))
  {
    if op.SetSectionOp? {
      var s := Sub(t, t.sel);
      LookupSpec(SecKeys(s.secs), op.key);
      if Lookup(SecKeys(s.secs), op.key).Some? {
        var j := Lookup(SecKeys(s.secs), op.key).value;
        var x := WithText(s.secs[j].tpl, op.val);
        ReplaceWellFormed(t, t.sel, s);
        BareText(s.secs[j].tpl, op.val);
        PathStep(t, t.sel, j);
        ReplaceLast(t, t.sel, j, x);
        BareAt(t, t.sel + [j], x);
      }
    } else {
      BareStep(t, op);
    }
  }

  lemma {:induction false} BareEdits(t: Tpl, ops: seq<Op>)
    requires Invariant(t) && AllowedRun(t, ops)
    ensures Fits(Bare(t), EditsOf(t, ops)) && Bare(Run(t, ops)) == Edited(Bare(t), EditsOf(t, ops))
    decreases ops
  {
    hide Fits, Edited, EditOf, Invariant, Bare, Step;
    if ops != [] {
      StepKeeps(t, ops[0]);
      BareEdit(t, ops[0]);
      BareEdits(Step(t, ops[0]).0, ops[1..]);
      EditedTwice(Bare(t), EditOf(t, ops[0]), EditsOf(Step(t, ops[0]).0, ops[1..]));
    } else {
      NotEdited(Bare(t));
    }
  }

  lemma NotEdited(t: Tpl)
    ensures Fits(t, []) && Edited(t, []) == t
  {
  }

  lemma {:induction false} EditedTwice(t: Tpl, a: seq<Edit>, b: seq<Edit>)
    requires Fits(t, a) && Fits(Edited(t, a), b)
    ensures Fits(t, a + b) && Edited(t, a + b) == Edited(Edited(t, a), b)
    decreases a
  {
    if a == [] {
      assert a + b == b;
    } else {
      assert (a + b)[1..] == a[1..] + b;
      EditedTwice(Replace(t, a[0].path, TextLevel(a[0].val)), a[1..], b);
    }
  }

  /** After any run on a parsed template and a reset, a level with no replacement at it or above it renders
      as it did right after parsing, the last level replaced on the way as its text, and there is none below. */
  lemma {:induction false} ResetRestoresBut(r: string, ops: seq<Op>, path: seq<nat>)
    requires Parse(r).Some? && AllowedRun(Parse(r).value, ops)
    ensures var t := Parse(r).value; var u := Reset(Run(t, ops));
      match LastEdit(EditsOf(t, ops), path)
      case None =>
        ((HasPath(u, path) <==> HasPath(t, path))
         && (HasPath(t, path) ==> Content(Sub(u, path)) == Content(Sub(t, path))))
      case Some(e) => (HasPath(u, path) <==> path == e.path) && (path == e.path ==> Content(Sub(u, path)) == e.val)
  {
    var t := Parse(r).value;
    ParseReads(r);
    ParsedInvariant(r);
    RunKeeps(t, ops);
    PristineBare(t);
    BareAddless(t);
    BareEdits(t, ops);
    EditedAt(t, EditsOf(t, ops), path);
    ResetIsBare(Run(t, ops));
    UnselectedContent(Reset(Run(t, ops)), path);
  }
}
