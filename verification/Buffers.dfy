/** Copying texts into character buffers. */
module Buffers {
  import opened Tree
  import opened Render

  method MemCpy(buffer: array<char>, at: nat, s: string)
    requires at + |s| <= buffer.Length
    modifies buffer
    ensures buffer[at..at + |s|] == s
    ensures buffer[..at] == old(buffer[..at]) && buffer[at + |s|..] == old(buffer[at + |s|..])
  {
    forall k | 0 <= k < |s| {
      buffer[at + k] := s[k];
    }
  }

  /** Extends what is already written from lo up to at. */
  method Write(buffer: array<char>, lo: nat, at: nat, s: string)
    requires lo <= at && at + |s| <= buffer.Length
    modifies buffer
    ensures buffer[lo..at + |s|] == old(buffer[lo..at]) + s
    ensures buffer[..lo] == old(buffer[..lo]) && buffer[at + |s|..] == old(buffer[at + |s|..])
  {
    ghost var before := buffer[..];
    MemCpy(buffer, at, s);
    assert buffer[lo..at] == buffer[..at][lo..] == before[..at][lo..];
    assert buffer[..lo] == buffer[..at][..lo] == before[..at][..lo];
    assert buffer[lo..at + |s|] == buffer[lo..at] + buffer[at..at + |s|];
  }

  /** The text of the nodes from n up to m: measured, allocated, copied. */
  method CopyNodes(nodes: seq<Node>, cells: seq<Cell>, n: nat, m: nat) returns (text: string)
    requires n <= m <= |nodes|
    ensures text == NodesText(nodes, cells, n, m)
  {
    var len, k := 0, n;
    while k < m
      invariant n <= k <= m && len == |NodesText(nodes, cells, n, k)|
    {
      len := len + |NodeText(cells, nodes[k])|;
      k := k + 1;
    }
    var buffer := new char[len + 1](_ => '\0');
    FillNodes(nodes, cells, n, m, buffer);
    text := buffer[..len];
  }

  method FillNodes(nodes: seq<Node>, cells: seq<Cell>, n: nat, m: nat, buffer: array<char>)
    requires n <= m <= |nodes| && buffer.Length == |NodesText(nodes, cells, n, m)| + 1
    modifies buffer
    ensures buffer[..buffer.Length - 1] == NodesText(nodes, cells, n, m) && buffer[buffer.Length - 1] == '\0'
  {
    hide NodesText, NodeText;
    var at, k := 0, n;
    NextText(nodes, cells, n, n);
    while k < m
      invariant n <= k <= m && at == |NodesText(nodes, cells, n, k)|
      invariant at < buffer.Length
      invariant buffer[0..at] == NodesText(nodes, cells, n, k)
    {
      var s := NodeText(cells, nodes[k]);
      TextGrows(nodes, cells, n, k + 1, m);
      NextText(nodes, cells, n, k);
      Write(buffer, 0, at, s);
      at := at + |s|;
      k := k + 1;
    }
    buffer[at] := '\0';
    assert buffer[..at] == NodesText(nodes, cells, n, m);
  }

  lemma NextText(nodes: seq<Node>, cells: seq<Cell>, n: nat, k: nat)
    requires n <= k <= |nodes|
    ensures NodesText(nodes, cells, n, n) == ""
    ensures k < |nodes| ==>
      NodesText(nodes, cells, n, k + 1) == NodesText(nodes, cells, n, k) + NodeText(cells, nodes[k])
  {
  }

  lemma {:induction false} TextGrows(nodes: seq<Node>, cells: seq<Cell>, n: nat, k: nat, m: nat)
    requires n <= k <= m <= |nodes|
    ensures |NodesText(nodes, cells, n, k)| <= |NodesText(nodes, cells, n, m)|
    decreases m
  {
    if k < m { TextGrows(nodes, cells, n, k, m - 1); }
  }
}
