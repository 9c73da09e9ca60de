/** Appending a section conserves its rendered content. */
module Appending {
  import opened Tree
  import opened Render
  import opened Ops
  import opened Runs

  // --- what content depends on

  /** Rendering looks at the same nodes, values and added content in the first i sections. */
  predicate Alike(t: Tpl, u: Tpl, i: nat) {
    && t.nodes == u.nodes && t.cells == u.cells && i <= |t.secs| && i <= |u.secs|
    && forall j | 0 <= j < i ::
         t.secs[j].pos == u.secs[j].pos && Concat(t.secs[j].tpl.added) == Concat(u.secs[j].tpl.added)
  }

  lemma {:induction false} ContentAlike(t: Tpl, u: Tpl, n: nat, i: nat)
    requires Alike(t, u, i) && n <= |t.nodes|
    ensures ContentTo(t, n, i) == ContentTo(u, n, i)
    decreases n + i
  {
    if i > 0 && t.secs[i - 1].pos >= n {
      ContentAlike(t, u, n, i - 1);
    } else if n > 0 {
      ContentAlike(t, u, n - 1, i);
    }
  }

  // --- the moved text is the rendered text

  /** After i sections the pieces hold the content up to the last section that had any added. */
  predicate PiecesDone(t: Tpl, i: nat, chain: seq<string>, n: nat)
    requires i <= |t.secs|
  {
    && n <= |t.nodes| && Concat(chain) == ContentTo(t, n, i)
    && (i < |t.secs| ==> n <= t.secs[i].pos)
    && forall j | 0 <= j < i && t.secs[j].pos > n :: t.secs[j].tpl.added == []
  }

  lemma {:induction false} PiecesAre(t: Tpl, i: nat)
    requires Placed(t) && i <= |t.secs|
    ensures PiecesDone(t, i, PiecesTo(t, i).0, PiecesTo(t, i).1)
    decreases i
  {
    if i == 0 {
      assert ContentTo(t, 0, 0) == "";
    } else {
      PiecesAre(t, i - 1);
      PiecesNext(t, i, PiecesTo(t, i - 1).0, PiecesTo(t, i - 1).1);
    }
  }

  lemma PiecesNext(t: Tpl, i: nat, chain: seq<string>, n: nat)
    requires Placed(t) && 0 < i <= |t.secs| && PiecesDone(t, i - 1, chain, n)
    ensures var s := t.secs[i - 1];
      if s.tpl.added == [] then PiecesDone(t, i, chain, n)
      else PiecesDone(t, i, chain + [NodesText(t.nodes, t.cells, n, s.pos)] + s.tpl.added, s.pos)
  {
    var s := t.secs[i - 1];
    if s.tpl.added == [] {
      assert Concat(s.tpl.added) == "";
      assert ContentTo(t, n, i) == ContentTo(t, n, i - 1) + "";
    } else {
      hide Concat, NodesText;
      NodesBetween(t, n, s.pos, i - 1);
      ConcatThree(chain, NodesText(t.nodes, t.cells, n, s.pos), s.tpl.added);
      assert var s := t.secs[i - 1]; ContentTo(t, s.pos, i) == ContentTo(t, s.pos, i - 1) + Concat(s.tpl.added);
      hide ContentTo;
    }
  }

  lemma ConcatThree(a: seq<string>, s: string, b: seq<string>)
    ensures Concat(a + [s] + b) == Concat(a) + s + Concat(b)
  {
    ConcatAppend(a + [s], b);
    ConcatAppend(a, [s]);
    ConcatOne(s);
  }

  lemma PiecesAreContent(t: Tpl)
    requires Placed(t)
    ensures Concat(Pieces(t)) == Content(t)
  {
    var (chain, n) := PiecesTo(t, |t.secs|);
    PiecesAre(t, |t.secs|);
    NodesBetween(t, n, |t.nodes|, |t.secs|);
    ConcatAppend(chain, [NodesText(t.nodes, t.cells, n, |t.nodes|)]);
    ConcatOne(NodesText(t.nodes, t.cells, n, |t.nodes|));
  }

  /** With nothing selected nothing is appended, and the error is returned. */
  lemma AppendRefused(t: Tpl)
    requires AllSel(t) && t.sel == []
    ensures Step(t, AppendOp) == (t, TPL_NO_SECTION_SELECTED_ERROR)
  {
  }

  /** The selected section's added content grows by exactly what the section rendered to,
      and each direct child's added content has moved out. */
  lemma {:induction false} AppendConserves(t: Tpl)
    requires Invariant(t) && AllSel(t) && t.sel != []
    ensures var (u, code) := Step(t, AppendOp); var s := Sub(t, t.sel);
      && code == TPL_OK && u.sel == t.sel && HasPath(u, t.sel)
      && var s' := Sub(u, t.sel);
      && s' == s.(added := s'.added, secs := s'.secs)
      && Concat(s'.added) == Concat(s.added) + Content(s)
      && |s'.secs| == |s.secs|
        && forall i | 0 <= i < |s.secs| :: s'.secs[i] == s.secs[i].(tpl := s.secs[i].tpl.(added := []))
  {
    var s := Sub(t, t.sel);
    SubReplace(t, t.sel, Appended(s));
    ReplaceWellFormed(t, t.sel, s);
    PiecesAreContent(s);
    ConcatAppend(s.added, Pieces(s));
  }

  // --- what the other levels render to

  function Inserted(s: string, k: nat, x: string): string {
    if k <= |s| then s[..k] + x + s[k..] else s
  }

  /** u is t with extra added content at the end of section j's chain. */
  predicate Grown(t: Tpl, u: Tpl, j: nat, extra: string) {
    && t.nodes == u.nodes && t.cells == u.cells && |t.secs| == |u.secs| && j < |t.secs|
    && (forall i | 0 <= i < |t.secs| :: t.secs[i].pos == u.secs[i].pos)
    && (forall i | 0 <= i < |t.secs| ::
          Concat(u.secs[i].tpl.added) == Concat(t.secs[i].tpl.added) + (if i == j then extra else ""))
  }

  /** Where the content of section j ends in the content of its level. */
  function EndOf(t: Tpl, j: nat): nat
    requires j < |t.secs| && t.secs[j].pos <= |t.nodes|
  {
    |ContentTo(t, t.secs[j].pos, j + 1)|
  }

  lemma {:induction false} GrownContent(t: Tpl, u: Tpl, j: nat, extra: string, n: nat, i: nat)
    requires Placed(t) && Grown(t, u, j, extra)
    requires n <= |t.nodes| && j < i <= |t.secs| && t.secs[j].pos <= n
    ensures |ContentTo(t, n, i)| >= EndOf(t, j)
    ensures ContentTo(u, n, i) == Inserted(ContentTo(t, n, i), EndOf(t, j), extra)
    decreases n + i
  {
    hide Inserted, Concat;
    if t.secs[i - 1].pos >= n {
      if i - 1 == j {
        GrownHere(t, u, j, extra);
      } else {
        GrownContent(t, u, j, extra, n, i - 1);
        InsertFront(ContentTo(t, n, i - 1), EndOf(t, j), extra, Concat(t.secs[i - 1].tpl.added));
      }
    } else {
      GrownContent(t, u, j, extra, n - 1, i);
      InsertFront(ContentTo(t, n - 1, i), EndOf(t, j), extra, NodeText(t.cells, t.nodes[n - 1]));
    }
  }

  lemma GrownHere(t: Tpl, u: Tpl, j: nat, extra: string)
    requires Grown(t, u, j, extra) && t.secs[j].pos <= |t.nodes|
    ensures ContentTo(u, t.secs[j].pos, j + 1) == Inserted(ContentTo(t, t.secs[j].pos, j + 1), EndOf(t, j), extra)
  {
    hide Inserted, Concat;
    ContentAlike(t, u, t.secs[j].pos, j);
    InsertEnd(ContentTo(t, t.secs[j].pos, j), Concat(t.secs[j].tpl.added), extra);
  }

  lemma InsertEnd(a: string, b: string, x: string)
    ensures a + (b + x) == Inserted(a + b, |a + b|, x)
  {
  }

  lemma InsertFront(a: string, k: nat, x: string, b: string)
    requires k <= |a|
    ensures Inserted(a, k, x) + b == Inserted(a + b, k, x)
  {
  }

  lemma AppendedGrown(p: Tpl, j: nat)
    requires Placed(p) && j < |p.secs| && Placed(p.secs[j].tpl)
    ensures Grown(p, SetChild(p, j, Appended(p.secs[j].tpl)), j, Content(p.secs[j].tpl))
  {
    var s := p.secs[j].tpl;
    PiecesAreContent(s);
    hide Pieces, Content;
    ConcatAppend(s.added, Pieces(s));
  }

  lemma AppendInParent(t: Tpl, up: seq<nat>, j: nat)
    requires HasPath(t, up + [j]) && WellFormed(t)
    ensures HasPath(t, up) && j < |Sub(t, up).secs| && Sub(t, up + [j]) == Sub(t, up).secs[j].tpl
    ensures WellFormed(Sub(t, up))
    ensures var p, u := Sub(t, up), Replace(t, up + [j], Appended(Sub(t, up + [j])));
      HasPath(u, up) && Sub(u, up) == SetChild(p, j, Appended(p.secs[j].tpl))
  {
    assert (up + [j])[..|up|] == up;
    PathPrefix(t, up + [j], |up|);
    PathStep(t, up, j);
    hide HasPath, Sub, Replace, WellFormed, Appended;
    var p := Sub(t, up);
    ReplaceWellFormed(t, up, p);
    ReplaceLast(t, up, j, Appended(p.secs[j].tpl));
    SubReplace(t, up, SetChild(p, j, Appended(p.secs[j].tpl)));
  }

  /** The enclosing level renders as before, with the appended content right after what the
      section had added before. */
  lemma {:induction false} AppendShows(t: Tpl, up: seq<nat>, j: nat)
    requires Invariant(t) && AllSel(t) && t.sel == up + [j]
    ensures var u := Step(t, AppendOp).0;
      && HasPath(t, up) && HasPath(u, up) && j < |Sub(t, up).secs| && Sub(t, up).secs[j].pos <= |Sub(t, up).nodes|
      && Content(Sub(u, up)) == Inserted(Content(Sub(t, up)), EndOf(Sub(t, up), j), Content(Sub(t, t.sel)))
  {
    AppendInParent(t, up, j);
    hide Replace, Inserted, HasPath, Sub, Appended, Children, ContentTo;
    var p := Sub(t, up);
    assert WellFormed(p.secs[j].tpl);
    AppendedGrown(p, j);
    GrownContent(p, SetChild(p, j, Appended(p.secs[j].tpl)), j, Content(p.secs[j].tpl), |p.nodes|, |p.secs|);
  }

  lemma {:induction false} ReplaceLast(t: Tpl, up: seq<nat>, j: nat, x: Tpl)
    requires HasPath(t, up + [j]) && HasPath(t, up) && j < |Sub(t, up).secs|
    ensures Replace(t, up + [j], x) == Replace(t, up, SetChild(Sub(t, up), j, x))
    decreases up
  {
    if up == [] {
      assert [] + [j] == [j];
    } else {
      assert (up + [j])[1..] == up[1..] + [j];
      ReplaceLast(t.secs[up[0]].tpl, up[1..], j, x);
    }
  }

  /** Every other level but the selected one renders exactly as before. */
  lemma {:induction false} AppendElsewhere(t: Tpl, q: seq<nat>)
    requires AllSel(t) && t.sel != [] && HasPath(t, q)
    requires q != t.sel && q != t.sel[..|t.sel| - 1]
    ensures var u := Step(t, AppendOp).0; HasPath(u, q) && Content(Sub(u, q)) == Content(Sub(t, q))
  {
    OtherLevels(t, t.sel, q);
  }

  lemma {:induction false} OtherLevels(t: Tpl, path: seq<nat>, q: seq<nat>)
    requires HasPath(t, path) && HasPath(t, q) && q != path && (path != [] ==> q != path[..|path| - 1])
    ensures var u := Replace(t, path, Appended(Sub(t, path)));
      HasPath(u, q) && Content(Sub(u, q)) == Content(Sub(t, q))
    decreases path
  {
    var u := Replace(t, path, Appended(Sub(t, path)));
    if path == [] {
      var c := t.secs[q[0]].tpl;
      assert u.secs[q[0]].tpl == c.(added := []);
      if |q| == 1 {
        assert q[1..] == [];
        ContentAlike(c.(added := []), c, |c.nodes|, |c.secs|);
      } else {
        assert Sub(c.(added := []), q[1..]) == Sub(c, q[1..]);
      }
    } else if q == [] {
      assert path[..0] == [] && |path| >= 2;
      assert Replace(t.secs[path[0]].tpl, path[1..], Appended(Sub(t, path))).added == t.secs[path[0]].tpl.added;
      ContentAlike(t, u, |t.nodes|, |t.secs|);
    } else if q[0] == path[0] {
      TailsDiffer(path, q);
      OtherLevels(t.secs[path[0]].tpl, path[1..], q[1..]);
    } else {
      assert u.secs[q[0]] == t.secs[q[0]];
    }
  }

  lemma TailsDiffer(path: seq<nat>, q: seq<nat>)
    requires path != [] && q != [] && q[0] == path[0] && q != path && q != path[..|path| - 1]
    ensures q[1..] != path[1..]
    ensures |path| > 1 ==> q[1..] != path[1..][..|path| - 2]
  {
    assert q == [q[0]] + q[1..] && path == [path[0]] + path[1..];
    if |path| > 1 {
      assert path[..|path| - 1] == [path[0]] + path[1..][..|path| - 2];
    }
  }
}
