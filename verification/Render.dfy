/** What a level renders to, and how long that is. */
module Render {
  import opened Tree

  function Concat(chain: seq<string>): string {
    if chain == [] then "" else Concat(chain[..|chain| - 1]) + chain[|chain| - 1]
  }

  lemma {:induction false} ConcatAppend(a: seq<string>, b: seq<string>)
    ensures Concat(a + b) == Concat(a) + Concat(b)
  {
    if b == [] {
      assert a + b == a;
    } else {
      assert (a + b)[..|a + b| - 1] == a + b[..|b| - 1];
      ConcatAppend(a, b[..|b| - 1]);
    }
  }

  lemma ConcatOne(s: string)
    ensures Concat([s]) == s
  {
    assert [s][..0] == [];
  }

  function NodeText(cells: seq<Cell>, node: Node): string {
    match node
    case TextNode(s) => s
    case FieldNode(c) => if c < |cells| then cells[c].val else ""
  }

  /** The first n nodes and the first i sections, each section's added content at its position. */
  function ContentTo(t: Tpl, n: nat, i: nat): string
    requires n <= |t.nodes| && i <= |t.secs|
    decreases n + i
  {
    if i > 0 && t.secs[i - 1].pos >= n then ContentTo(t, n, i - 1) + Concat(t.secs[i - 1].tpl.added)
    else if n > 0 then ContentTo(t, n - 1, i) + NodeText(t.cells, t.nodes[n - 1])
    else ""
  }

  function Content(t: Tpl): string {
    ContentTo(t, |t.nodes|, |t.secs|)
  }

  /** The text of the nodes from n up to m. */
  function NodesText(nodes: seq<Node>, cells: seq<Cell>, n: nat, m: nat): string
    requires m <= |nodes|
    decreases m
  {
    if m <= n then "" else NodesText(nodes, cells, n, m - 1) + NodeText(cells, nodes[m - 1])
  }

  // --- the length, summed separately

  function NodesLength(nodes: seq<Node>, cells: seq<Cell>, n: nat): nat
    requires n <= |nodes|
  {
    if n == 0 then 0 else NodesLength(nodes, cells, n - 1) + |NodeText(cells, nodes[n - 1])|
  }

  function ChainLength(chain: seq<string>): nat {
    if chain == [] then 0 else ChainLength(chain[..|chain| - 1]) + |chain[|chain| - 1]|
  }

  function AddedLength(t: Tpl, i: nat): nat
    requires i <= |t.secs|
  {
    if i == 0 then 0 else AddedLength(t, i - 1) + ChainLength(t.secs[i - 1].tpl.added)
  }

  lemma {:induction false} ChainLengthIs(chain: seq<string>)
    ensures ChainLength(chain) == |Concat(chain)|
  {
    if chain != [] { ChainLengthIs(chain[..|chain| - 1]); }
  }

  lemma {:induction false} LengthTo(t: Tpl, n: nat, i: nat)
    requires n <= |t.nodes| && i <= |t.secs|
    ensures |ContentTo(t, n, i)| == NodesLength(t.nodes, t.cells, n) + AddedLength(t, i)
    decreases n + i
  {
    if i > 0 && t.secs[i - 1].pos >= n {
      LengthTo(t, n, i - 1);
      ChainLengthIs(t.secs[i - 1].tpl.added);
    } else if n > 0 {
      LengthTo(t, n - 1, i);
    }
  }

  /** Summing node lengths and chain lengths apart gives the length of the interleaved content. */
  lemma {:induction false} LengthIsContent(t: Tpl)
    ensures NodesLength(t.nodes, t.cells, |t.nodes|) + AddedLength(t, |t.secs|) == |Content(t)|
  {
    LengthTo(t, |t.nodes|, |t.secs|);
  }

  lemma {:induction false} NodesLengthGrows(nodes: seq<Node>, cells: seq<Cell>, n: nat, m: nat)
    requires n <= m <= |nodes|
    ensures NodesLength(nodes, cells, n) <= NodesLength(nodes, cells, m)
    decreases m
  {
    if n < m { NodesLengthGrows(nodes, cells, n, m - 1); }
  }

  lemma {:induction false} AddedLengthGrows(t: Tpl, i: nat, j: nat)
    requires i <= j <= |t.secs|
    ensures AddedLength(t, i) <= AddedLength(t, j)
    decreases j
  {
    if i < j { AddedLengthGrows(t, i, j - 1); }
  }

  /** No part of the content is longer than the whole. */
  lemma ContentWithin(t: Tpl, n: nat, i: nat)
    requires n <= |t.nodes| && i <= |t.secs|
    ensures |ContentTo(t, n, i)| <= |Content(t)|
  {
    LengthTo(t, n, i);
    LengthTo(t, |t.nodes|, |t.secs|);
    NodesLengthGrows(t.nodes, t.cells, n, |t.nodes|);
    AddedLengthGrows(t, i, |t.secs|);
  }

  // --- content between two nodes

  lemma {:induction false} NodesBetween(t: Tpl, n: nat, m: nat, i: nat)
    requires n <= m <= |t.nodes| && i <= |t.secs|
    requires forall j | 0 <= j < i && t.secs[j].pos > n :: t.secs[j].tpl.added == []
    ensures ContentTo(t, m, i) == ContentTo(t, n, i) + NodesText(t.nodes, t.cells, n, m)
    decreases m + i
  {
    if m == n {
      assert ContentTo(t, m, i) == ContentTo(t, n, i) + "";
    } else if i > 0 && t.secs[i - 1].pos >= m {
      NodesBetween(t, n, m, i - 1);
      assert ContentTo(t, m, i) == ContentTo(t, m, i - 1) + "";
      assert ContentTo(t, n, i) == ContentTo(t, n, i - 1) + "";
    } else {
      NodesBetween(t, n, m - 1, i);
    }
  }

  // --- where the parts stand

  /** The level before section j: the nodes up to its position and the sections before it. */
  function Before(t: Tpl, j: nat): Tpl
    requires j < |t.secs| && t.secs[j].pos <= |t.nodes|
  {
    t.(nodes := t.nodes[..t.secs[j].pos], secs := t.secs[..j])
  }

  /** The level after section j: the nodes from its position on and the sections after it. */
  function After(t: Tpl, j: nat): Tpl
    requires j < |t.secs| && t.secs[j].pos <= |t.nodes|
    requires forall i | j < i < |t.secs| :: t.secs[j].pos <= t.secs[i].pos
  {
    var n := t.secs[j].pos;
    t.(nodes := t.nodes[n..],
       secs := seq(|t.secs| - j - 1, i requires 0 <= i < |t.secs| - j - 1 =>
         t.secs[i + j + 1].(pos := t.secs[i + j + 1].pos - n)))
  }

  lemma {:induction false} ContentBefore(t: Tpl, u: Tpl, n: nat, i: nat)
    requires n <= |u.nodes| && i <= |u.secs| && u.nodes <= t.nodes && u.secs <= t.secs && u.cells == t.cells
    ensures ContentTo(u, n, i) == ContentTo(t, n, i)
    decreases n + i
  {
    if i > 0 && t.secs[i - 1].pos >= n {
      ContentBefore(t, u, n, i - 1);
    } else if n > 0 {
      ContentBefore(t, u, n - 1, i);
    }
  }

  lemma {:induction false} ContentAfter(t: Tpl, j: nat, n: nat, i: nat)
    requires Placed(t) && j < i <= |t.secs| && t.secs[j].pos <= n <= |t.nodes|
    ensures ContentTo(t, n, i)
      == ContentTo(t, t.secs[j].pos, j + 1) + ContentTo(After(t, j), n - t.secs[j].pos, i - j - 1)
    decreases n + i
  {
    hide Concat, NodeText, ContentTo;
    AfterParts(t, j);
    var lo, u := t.secs[j].pos, After(t, j);
    hide After;
    if t.secs[i - 1].pos >= n {
      if i - 1 > j {
        ContentAfter(t, j, n, i - 1);
        assert u.secs[i - j - 2] == t.secs[i - 1].(pos := t.secs[i - 1].pos - lo);
        ContentSec(t, n, i);
        ContentSec(u, n - lo, i - j - 1);
      } else {
        ContentNone(u);
      }
    } else {
      ContentAfter(t, j, n - 1, i);
      assert u.nodes[n - 1 - lo] == t.nodes[n - 1];
      assert i - 1 > j ==> u.secs[i - j - 2].pos == t.secs[i - 1].pos - lo;
      ContentNode(t, n, i);
      ContentNode(u, n - lo, i - j - 1);
    }
  }

  lemma ContentNone(t: Tpl)
    ensures ContentTo(t, 0, 0) == ""
  {
  }

  lemma ContentSec(t: Tpl, n: nat, i: nat)
    requires n <= |t.nodes| && 0 < i <= |t.secs| && t.secs[i - 1].pos >= n
    ensures ContentTo(t, n, i) == ContentTo(t, n, i - 1) + Concat(t.secs[i - 1].tpl.added)
  {
  }

  lemma ContentNode(t: Tpl, n: nat, i: nat)
    requires 0 < n <= |t.nodes| && i <= |t.secs| && (i > 0 ==> t.secs[i - 1].pos < n)
    ensures ContentTo(t, n, i) == ContentTo(t, n - 1, i) + NodeText(t.cells, t.nodes[n - 1])
  {
  }

  lemma AfterParts(t: Tpl, j: nat)
    requires Placed(t) && j < |t.secs| && t.secs[j].pos <= |t.nodes|
    ensures var u, lo := After(t, j), t.secs[j].pos;
      && u.cells == t.cells && u.nodes == t.nodes[lo..] && |u.secs| == |t.secs| - j - 1
      && forall i | 0 <= i < |u.secs| :: u.secs[i] == t.secs[j + 1 + i].(pos := t.secs[j + 1 + i].pos - lo)
  {
  }

  /** A section's added content stands between what comes before and after its position. */
  lemma {:induction false} SectionPlace(t: Tpl, j: nat)
    requires Placed(t) && j < |t.secs|
    ensures Content(t) == Content(Before(t, j)) + Concat(t.secs[j].tpl.added) + Content(After(t, j))
  {
    hide ContentTo, Concat;
    var n := t.secs[j].pos;
    ContentAfter(t, j, |t.nodes|, |t.secs|);
    ContentBefore(t, Before(t, j), n, j);
    ContentSec(t, n, j + 1);
  }

  /** Without sections, a level renders to the texts of its nodes in order, a field to its cell's value. */
  lemma {:induction false} NodesContent(t: Tpl)
    requires t.secs == []
    ensures t.nodes == [] ==> Content(t) == ""
    ensures t.nodes != [] ==>
      var init, last := t.nodes[..|t.nodes| - 1], t.nodes[|t.nodes| - 1];
      && (last.TextNode? ==> Content(t) == Content(t.(nodes := init)) + last.s)
      && (last.FieldNode? && last.cell < |t.cells| ==>
            Content(t) == Content(t.(nodes := init)) + t.cells[last.cell].val)
  {
    if t.nodes != [] {
      var u := t.(nodes := t.nodes[..|t.nodes| - 1]);
      ContentBefore(t, u, |u.nodes|, 0);
    }
  }
}
