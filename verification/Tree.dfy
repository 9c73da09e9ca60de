/** A template as a value: nodes, field cells, sections, added content and selection. */
module Tree {
  import opened Search
  import opened Names
  import opened Items

  datatype Node = TextNode(s: string) | FieldNode(cell: nat)

  datatype Cell = Cell(key: string, val: string)

  /** pos counts the nodes of the enclosing level that precede the section. */
  datatype Sec = Sec(key: string, pos: nat, tpl: Tpl)

  /** One level. cells are in creation order; added is the chain of appended texts;
      sel leads from this level to the level its selection pointer points at. */
  datatype Tpl = Tpl(nodes: seq<Node>, cells: seq<Cell>, secs: seq<Sec>, added: seq<string>, sel: seq<nat>)

  const EMPTY := Tpl([], [], [], [], [])

  function CellKeys(cells: seq<Cell>): (r: seq<string>)
    ensures |r| == |cells| && forall i | 0 <= i < |r| :: r[i] == cells[i].key
  {
    seq(|cells|, i requires 0 <= i < |cells| => cells[i].key)
  }

  function SecKeys(secs: seq<Sec>): (r: seq<string>)
    ensures |r| == |secs| && forall i | 0 <= i < |r| :: r[i] == secs[i].key
  {
    seq(|secs|, i requires 0 <= i < |secs| => secs[i].key)
  }

  // --- building a level item by item

  function AddText(t: Tpl, s: string): Tpl {
    t.(nodes := t.nodes + [TextNode(s)])
  }

  function AddField(t: Tpl, name: string): Tpl {
    match Lookup(CellKeys(t.cells), name)
    case Some(c) => t.(nodes := t.nodes + [FieldNode(c)])
    case None => t.(nodes := t.nodes + [FieldNode(|t.cells|)], cells := t.cells + [Cell(name, "")])
  }

  function AddSection(t: Tpl, name: string, sub: Tpl): Tpl {
    t.(secs := t.secs + [Sec(name, |t.nodes|, sub)])
  }

  /** None when a section name is already answered at its level. */
  function Build(t: Tpl, items: seq<Item>): Option<Tpl>
    decreases items
  {
    if items == [] then Some(t)
    else
      match items[0]
      case Text(s) => Build(AddText(t, s), items[1..])
      case Field(name) => Build(AddField(t, name), items[1..])
      case Section(name, body) =>
        if Lookup(SecKeys(t.secs), name).Some? then None
        else
          match Build(EMPTY, body)
          case None => None
          case Some(sub) => Build(AddSection(t, name, sub), items[1..])
  }

  /** The template a text stands for; None is the syntax error. */
  function Parse(r: string): Option<Tpl> {
    match Scan(r)
    case None => None
    case Some(items) => Build(EMPTY, items)
  }

  lemma {:induction false} BuildConcat(t: Tpl, a: seq<Item>, b: seq<Item>)
    ensures Build(t, a + b) == match Build(t, a) case None => None case Some(u) => Build(u, b)
    decreases a
  {
    if a == [] {
      assert a + b == b;
    } else {
      assert (a + b)[0] == a[0] && (a + b)[1..] == a[1..] + b;
      match a[0] {
        case Text(s) => BuildConcat(AddText(t, s), a[1..], b);
        case Field(name) => BuildConcat(AddField(t, name), a[1..], b);
        case Section(name, body) =>
          if Lookup(SecKeys(t.secs), name).None? && Build(EMPTY, body).Some? {
            BuildConcat(AddSection(t, name, Build(EMPTY, body).value), a[1..], b);
          }
      }
    }
  }

  // --- reading a level back

  function NodeItem(t: Tpl, node: Node): Item {
    match node
    case TextNode(s) => Text(s)
    case FieldNode(c) => Field(if c < |t.cells| then t.cells[c].key else "")
  }

  /** The items of the first n nodes and the first i sections, each section at its position. */
  function OutlineTo(t: Tpl, n: nat, i: nat): seq<Item>
    requires n <= |t.nodes| && i <= |t.secs|
    decreases t, n + i
  {
    if i > 0 && t.secs[i - 1].pos >= n then
      OutlineTo(t, n, i - 1) + [Section(t.secs[i - 1].key, Outline(t.secs[i - 1].tpl))]
    else if n > 0 then OutlineTo(t, n - 1, i) + [NodeItem(t, t.nodes[n - 1])]
    else []
  }

  function Outline(t: Tpl): seq<Item>
    decreases t, |t.nodes| + |t.secs| + 1
  {
    OutlineTo(t, |t.nodes|, |t.secs|)
  }

  /** The template text of a template. */
  function Print(t: Tpl): string {
    Source(Outline(t))
  }

  // --- the shape every template keeps

  /** Section positions never decrease and stay within the node list. */
  predicate Placed(t: Tpl) {
    && (forall i | 0 <= i < |t.secs| :: t.secs[i].pos <= |t.nodes|)
    && (forall i, j | 0 <= i < j < |t.secs| :: t.secs[i].pos <= t.secs[j].pos)
  }

  /** How many cells the first nodes refer to when cells are numbered by first reference. */
  function CellsMet(nodes: seq<Node>): nat {
    if nodes == [] then 0
    else
      var met := CellsMet(nodes[..|nodes| - 1]);
      match nodes[|nodes| - 1]
      case TextNode(_) => met
      case FieldNode(c) => if c < met then met else c + 1
  }

  predicate Numbered(nodes: seq<Node>) {
    forall n | 0 <= n < |nodes| && nodes[n].FieldNode? :: nodes[n].cell <= CellsMet(nodes[..n])
  }

  /** Positions, cell numbers and name tables of every level are in order. */
  predicate WellFormed(t: Tpl) {
    && Placed(t)
    && Numbered(t.nodes) && CellsMet(t.nodes) == |t.cells|
    && Separate(CellKeys(t.cells)) && Separate(SecKeys(t.secs))
    && forall i | 0 <= i < |t.secs| :: WellFormed(t.secs[i].tpl)
  }

  /** Nothing set, nothing added, nothing selected, at any level. */
  predicate Pristine(t: Tpl) {
    && (forall c <- t.cells :: c.val == "")
    && t.added == [] && t.sel == []
    && forall i | 0 <= i < |t.secs| :: Pristine(t.secs[i].tpl)
  }
}
