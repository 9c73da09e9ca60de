/** Measuring and writing out what a template renders to. */
module Output {
  import opened Tree
  import opened Render
  import opened Buffers
  import opened Links
  import opened Templates

  /** link is the one at position k of the chain, or null at its end. */
  ghost predicate Walking(chain: seq<Link>, link: Link?, k: nat)
    reads chain
  {
    k <= |chain| && Linked(chain, null) && link == if k == |chain| then null else chain[k]
  }

  lemma WalkNext(chain: seq<Link>, link: Link?, k: nat)
    requires Walking(chain, link, k)
    ensures k <= |chain| && (link == null <==> k == |chain|)
    ensures link != null ==> Walking(chain, link.next, k + 1) && link.text == Texts(chain)[k] && k < |Texts(chain)|
  {
  }

  /** The length of the texts from this link on. */
  method ChainLen(head: Link?, ghost chain: seq<Link>) returns (len: nat)
    requires Walking(chain, head, 0)
    ensures len == ChainLength(Texts(chain))
  {
    hide Walking, Texts;
    len := 0;
    var link := head;
    WalkNext(chain, head, 0);
    ghost var texts, k := Texts(chain), 0;
    while link != null
      invariant Walking(chain, link, k) && k <= |texts| && (link == null ==> k == |texts|)
      invariant len == ChainLength(texts[..k])
      decreases |chain| - k
    {
      WalkNext(chain, link, k);
      assert texts[..k + 1][..k] == texts[..k];
      len := len + |link.text|;
      link := link.next;
      k := k + 1;
      WalkNext(chain, link, k);
    }
    assert texts[..k] == texts;
  }

  method NodesLen(nodes: seq<Node>, cells: seq<Cell>) returns (len: nat)
    ensures len == NodesLength(nodes, cells, |nodes|)
  {
    len := 0;
    var k := 0;
    while k < |nodes|
      invariant 0 <= k <= |nodes| && len == NodesLength(nodes, cells, k)
    {
      len := len + |NodeText(cells, nodes[k])|;
      k := k + 1;
    }
  }

  method AddedLen(t: Template, ghost a: Tpl) returns (len: nat)
    requires t.Describes(a) && Tidy(t.Family())
    ensures len == AddedLength(a, |a.secs|)
  {
    len := 0;
    var k := 0;
    while k < |t.first|
      invariant 0 <= k <= |t.first| && len == AddedLength(a, k)
    {
      KidWalked(t, k);
      var n := ChainLen(t.first[k].tpl.addedHead, t.first[k].tpl.links);
      len := len + n;
      k := k + 1;
    }
  }

  /** The chain of c can be walked from its head. */
  ghost predicate KidWalking(c: Template)
    reads c`links, c`addedHead, c`added, c.links
  {
    Walking(c.links, c.addedHead, 0) && Texts(c.links) == c.added
  }

  lemma KidWalked(t: Template, k: nat)
    requires k < |t.first| && Tidy(t.Family())
    ensures KidWalking(t.first[k].tpl)
  {
    hide Distinct, Linked;
    assert t.first[k].tpl in t.Family();
  }

  lemma FamilyTidy(t: Template)
    requires t.Valid() && Tidy(t.repr)
    ensures Tidy(t.Family())
  {
    FamilyInside(t);
    TidyPart(t.repr, t.Family());
  }

  /** The length of what GetContent writes, without the final NUL: node lengths and the sections'
      chain lengths, summed one after the other. */
  method Length(t: Template) returns (len: nat)
    requires t.Valid() && Tidy(t.repr)
    ensures len == |Content(t.Abs())|
  {
    hide Template.Valid, Template.Abs, Content, Tidy;
    FamilyTidy(t);
    t.DescribesAbs();
    LengthIsContent(t.Abs());
    var nodes := NodesLen(t.head, t.cells);
    var chains := AddedLen(t, t.Abs());
    len := nodes + chains;
  }

  /** Writes the content of the nodes from n up to m after what is already written from lo to at. */
  method WriteNodes(buffer: array<char>, lo: nat, at: nat, ghost t: Tpl, nodes: seq<Node>, cells: seq<Cell>,
      n: nat, m: nat, ghost i: nat)
    returns (at': nat)
    requires nodes == t.nodes && cells == t.cells && n <= m <= |nodes| && i <= |t.secs|
    requires i > 0 ==> t.secs[i - 1].pos <= n
    requires at == lo + |ContentTo(t, n, i)| && lo + |Content(t)| <= buffer.Length && at <= buffer.Length
    requires buffer[lo..at] == ContentTo(t, n, i)
    modifies buffer
    ensures at' == lo + |ContentTo(t, m, i)| && at' <= buffer.Length && buffer[lo..at'] == ContentTo(t, m, i)
    ensures buffer[..lo] == old(buffer[..lo])
      && forall k | lo + |Content(t)| <= k < buffer.Length :: buffer[k] == old(buffer[k])
  {
    var k := n;
    at' := at;
    while k < m
      invariant n <= k <= m && at' == lo + |ContentTo(t, k, i)| && at' <= buffer.Length
      invariant buffer[lo..at'] == ContentTo(t, k, i)
      invariant buffer[..lo] == old(buffer[..lo])
        && forall k | lo + |Content(t)| <= k < buffer.Length :: buffer[k] == old(buffer[k])
    {
      ContentWithin(t, k + 1, i);
      Write(buffer, lo, at', NodeText(cells, nodes[k]));
      at' := at' + |NodeText(cells, nodes[k])|;
      k := k + 1;
    }
  }

  /** Writes the texts from this link on. */
  method WriteChain(buffer: array<char>, lo: nat, at: nat, head: Link?, ghost chain: seq<Link>) returns (at': nat)
    requires Walking(chain, head, 0) && lo <= at && at + |Concat(Texts(chain))| <= buffer.Length
    modifies buffer
    ensures at' == at + |Concat(Texts(chain))|
    ensures buffer[lo..at'] == old(buffer[lo..at]) + Concat(Texts(chain))
    ensures buffer[..lo] == old(buffer[..lo]) && buffer[at'..] == old(buffer[at'..])
  {
    hide Walking, Texts, Concat;
    ghost var texts, k := Texts(chain), 0;
    var link := head;
    at' := at;
    WalkNext(chain, head, 0);
    NoTexts();
    while link != null
      invariant Walking(chain, link, k) && Texts(chain) == texts && k <= |texts| && (link == null ==> k == |texts|)
      invariant at' == at + |Concat(texts[..k])| && at' <= buffer.Length
      invariant buffer[lo..at'] == old(buffer[lo..at]) + Concat(texts[..k])
      invariant buffer[..lo] == old(buffer[..lo]) && buffer[at'..] == old(buffer[at'..])
      decreases |chain| - k
    {
      WalkNext(chain, link, k);
      NextInChain(texts, k);
      Write(buffer, lo, at', link.text);
      at' := at' + |link.text|;
      link := link.next;
      k := k + 1;
      WalkNext(chain, link, k);
    }
    assert texts[..k] == texts;
  }

  lemma NoTexts()
    ensures Concat([]) == ""
  {
  }

  lemma NextInChain(chain: seq<string>, k: nat)
    requires k < |chain|
    ensures Concat(chain[..k + 1]) == Concat(chain[..k]) + chain[k]
    ensures |Concat(chain[..k + 1])| <= |Concat(chain)|
  {
    assert chain[..k + 1][..k] == chain[..k];
    ConcatAppend(chain[..k + 1], chain[k + 1..]);
    assert chain[..k + 1] + chain[k + 1..] == chain;
  }

  lemma NoContent(t: Tpl)
    ensures ContentTo(t, 0, 0) == ""
  {
  }

  /** The added content of section i comes next at its position. */
  lemma NextContent(t: Tpl, i: nat)
    requires i < |t.secs| && t.secs[i].pos <= |t.nodes|
    ensures var n := t.secs[i].pos; ContentTo(t, n, i + 1) == ContentTo(t, n, i) + Concat(t.secs[i].tpl.added)
  {
  }

  method WriteSections(t: Template, buffer: array<char>, lo: nat, ghost a: Tpl) returns (at: nat, n: nat)
    requires t.Describes(a) && Placed(a) && Tidy(t.Family()) && lo + |Content(a)| < buffer.Length
    modifies buffer
    ensures n <= |t.head| && (|a.secs| > 0 ==> a.secs[|a.secs| - 1].pos <= n)
    ensures at == lo + |ContentTo(a, n, |a.secs|)| && at <= buffer.Length && buffer[lo..at] == ContentTo(a, n, |a.secs|)
    ensures buffer[..lo] == old(buffer[..lo])
      && forall k | lo + |Content(a)| <= k < buffer.Length :: buffer[k] == old(buffer[k])
  {
    hide Tidy, Walking, Texts, Concat, Content, ContentTo;
    NoContent(a);
    forall k | 0 <= k < |t.first| ensures KidWalking(t.first[k].tpl) { KidWalked(t, k); }
    at, n := lo, 0;
    var i := 0;
    while i < |t.first|
      invariant 0 <= i <= |t.first| && n <= |t.head| && (i > 0 ==> n == a.secs[i - 1].pos) && (i == 0 ==> n == 0)
      invariant forall k | 0 <= k < |t.first| :: KidWalking(t.first[k].tpl)
      invariant at == lo + |ContentTo(a, n, i)| && at <= buffer.Length && buffer[lo..at] == ContentTo(a, n, i)
      invariant buffer[..lo] == old(buffer[..lo])
        && forall k | lo + |Content(a)| <= k < buffer.Length :: buffer[k] == old(buffer[k])
    {
      NextContent(a, i);
      at := WriteNodes(buffer, lo, at, a, t.head, t.cells, n, t.first[i].preceding, i);
      n := t.first[i].preceding;
      ContentWithin(a, n, i + 1);
      assert KidWalking(t.first[i].tpl);
      at := WriteChain(buffer, lo, at, t.first[i].tpl.addedHead, t.first[i].tpl.links);
      i := i + 1;
    }
  }

  /** Writes the content and a final NUL at lo; nothing else in the buffer changes. */
  method GetContent(t: Template, buffer: array<char>, lo: nat)
    requires t.Valid() && Placed(t.Abs()) && Tidy(t.repr)
    requires lo + |Content(t.Abs())| < buffer.Length
    modifies buffer
    ensures buffer[lo..lo + |Content(t.Abs())|] == Content(t.Abs()) && buffer[lo + |Content(t.Abs())|] == '\0'
    ensures buffer[..lo] == old(buffer[..lo])
    ensures forall k | lo + |Content(t.Abs())| < k < buffer.Length :: buffer[k] == old(buffer[k])
  {
    hide Template.Valid, Template.Abs, Tidy;
    FamilyTidy(t);
    t.DescribesAbs();
    var at, n := WriteSections(t, buffer, lo, t.Abs());
    at := WriteNodes(buffer, lo, at, t.Abs(), t.head, t.cells, n, |t.head|, |t.first|);
    buffer[at] := '\0';
  }
}
