/** The template structure of the library: a mutable tree of levels with selection pointers. */
module Templates {
  import opened Search
  import opened Names
  import opened Tree
  import opened Render
  import opened Ops
  import opened Runs
  import opened Buffers
  import opened Links

  /** preceding is the number of nodes of the enclosing level before the section. */
  datatype SectionCell = SectionCell(key: string, preceding: nat, tpl: Template)

  function CellNames(first: seq<SectionCell>): (r: seq<string>)
    ensures |r| == |first| && forall i | 0 <= i < |r| :: r[i] == first[i].key
  {
    seq(|first|, i requires 0 <= i < |first| => first[i].key)
  }

  lemma PiecesStep(t: Tpl, i: nat)
    requires i < |t.secs| ==> t.secs[i].pos <= |t.nodes|
    ensures PiecesTo(t, 0) == ([], 0)
    ensures i < |t.secs| ==> var (chain, n) := PiecesTo(t, i); var s := t.secs[i];
      PiecesTo(t, i + 1) ==
      if s.tpl.added == [] then (chain, n)
      else (chain + [NodesText(t.nodes, t.cells, n, s.pos)] + s.tpl.added, s.pos)
  {
    hide NodesText;
  }

  /** A field holds at least this many characters. */
  const INITIAL_FIELD_LEN := 31

  /** A block of this size takes a value of length len with its NUL, and any of the initial length. */
  predicate Holds(size: nat, len: nat) {
    size > INITIAL_FIELD_LEN && size > len
  }

  /** The node after a text was copied through its text pointer, which a field node does not have. */
  function Overwritten(node: Node, val: string): Node
    requires node.TextNode? && |node.s| == |val|
  {
    TextNode(val)
  }

  // --- what holds over all levels together

  ghost function LinksOf(s: set<Template>): (all: set<Link>)
    reads s`links
    ensures forall u, l | u in s && l in u.links :: l in all
  {
    set u, l | u in s && l in u.links :: l
  }

  /** Every level's tail pointer is at the end of its chain, no link is in two chains, and every value fits
      its block. */
  ghost predicate Tidy(s: set<Template>)
    reads s`cells, s`room, s`addedHead, s`addedTail, s`links, s`added, LinksOf(s)
  {
    && (forall u <- s :: u.ChainOk() && u.RoomOk())
    && (forall u, v | u in s && v in s && u != v :: Apart(u.links, v.links))
  }

  /** Every section's parent is the level it is a section of, but for the last section of t, which
      has none if it is an orphan. */
  ghost predicate ParentedBut(s: set<Template>, t: Template, orphan: bool)
    reads s`first, s`parent
  {
    forall u <- s :: forall i | 0 <= i < |u.first| ::
      var c := u.first[i].tpl;
      c in s && c.parent == if orphan && u == t && i == |t.first| - 1 then null else u
  }

  ghost predicate Parented(s: set<Template>)
    reads s`first, s`parent
  {
    forall u <- s :: forall i | 0 <= i < |u.first| :: u.first[i].tpl in s && u.first[i].tpl.parent == u
  }

  class Template {
    var head: seq<Node>            // text and field nodes, in order
    var cells: seq<Cell>           // field cells, in creation order
    var room: seq<nat>             // sizes of the blocks that hold the cells' values
    var fields: seq<seq<nat>>      // hash buckets over cells
    var first: seq<SectionCell>    // sections, in order
    var sections: seq<seq<nat>>    // hash buckets over first
    var addedHead: Link?           // chain of appended texts
    var addedTail: Link?           // link whose next field is the tail pointer's target; null: addedHead is
    var tpl: Template              // selected level
    var parent: Template?

    ghost var repr: set<Template>
    ghost var sel: seq<nat>        // path from here to tpl
    ghost var links: seq<Link>     // links of the chain
    ghost var added: seq<string>   // their texts

    constructor ()
      ensures Valid() && SelOk() && fresh(repr) && repr == {this} && parent == null && Abs() == EMPTY
      ensures first == [] && links == [] && tpl == this && ChainOk() && RoomOk()
    {
      head, cells, room, first, parent := [], [], [], [], null;
      fields, sections := Buckets([]), Buckets([]);
      addedHead, addedTail, links, added := null, null, [], [];
      tpl := this;
      repr, sel := {this}, [];
      new;
      assert CellKeys([]) == [] && CellNames([]) == [];
    }

    /** The footprint is a tree of levels, and the hash buckets index what they should. */
    ghost predicate Valid()
      reads this, repr
      decreases repr
      ensures Valid() ==> this in repr
    {
      && this in repr
      && fields == Buckets(CellKeys(cells)) && sections == Buckets(CellNames(first))
      && (forall i | 0 <= i < |first| ::
            var c := first[i].tpl;
            c in repr && c.repr <= repr && this !in c.repr && c.Valid())
      && (forall i, j | 0 <= i < j < |first| :: first[i].tpl.repr !! first[j].tpl.repr)
    }

    /** The tree this level stands for. */
    ghost function Abs(): Tpl
      requires Valid()
      reads this, repr
      decreases repr
    {
      Tpl(head, cells,
          seq(|first|, i requires 0 <= i < |first| && Valid() reads this, repr =>
            Sec(first[i].key, first[i].preceding, first[i].tpl.Abs())),
          added, sel)
    }

    /** The level at the end of a path. */
    ghost function At(path: seq<nat>): (r: Template)
      requires Valid() && HasPath(Abs(), path)
      reads this, repr
      ensures r.Valid() && r in repr && r.repr <= repr && (path != [] ==> this !in r.repr)
      ensures r.Abs() == Sub(Abs(), path)
      decreases path
    {
      if path == [] then this else first[path[0]].tpl.At(path[1..])
    }

    /** Every selection pointer leads where its path says. */
    ghost predicate SelOk()
      requires Valid()
      reads this, repr
      decreases repr
    {
      && HasPath(Abs(), sel) && tpl == At(sel)
      && forall i | 0 <= i < |first| :: first[i].tpl.SelOk()
    }

    // --- the blocks of the field values

    /** Every value, with its NUL, fits its block, and so would any of the initial length. */
    ghost predicate RoomOk()
      reads `cells, `room
    {
      |room| == |cells| && forall c | 0 <= c < |cells| :: Holds(room[c], |cells[c].val|)
    }

    /** Allocates the block of cell c anew if a value of this length is to be set and asks for it. */
    method Grow(c: nat, len: nat)
      requires RoomOk() && c < |cells|
      modifies this`room
      ensures |room| == |cells| && Holds(room[c], len)
      ensures forall k | 0 <= k < |cells| && k != c :: room[k] == old(room[k])
    {
      if len > INITIAL_FIELD_LEN && len > |cells[c].val| {
        room := room[c := len + 1];
      }
    }

    /** Copies a value and its NUL to the block of cell c. */
    method WriteValue(c: nat, val: string)
      requires c < |cells| == |room| && Holds(room[c], |val|)
      requires forall k | 0 <= k < |cells| && k != c :: Holds(room[k], |cells[k].val|)
      modifies this`cells
      ensures RoomOk() && cells == old(cells)[c := old(cells)[c].(val := val)]
    {
      cells := cells[c := cells[c].(val := val)];
    }

    // --- the chain of appended texts

    /** The links hang together in order, none twice, and the tail pointer is at the end of the chain. */
    ghost predicate ChainOk()
      reads `addedHead, `addedTail, `links, `added, links
    {
      && Distinct(links) && Linked(links, null) && added == Texts(links)
      && (if links == [] then addedHead == null && addedTail == null
          else addedHead == links[0] && addedTail == links[|links| - 1])
    }

    /** Lets what the tail pointer leads to be link. */
    method SetTail(link: Link?)
      requires ChainOk()
      modifies this`addedHead, links`next
      ensures Linked(links, link) && addedHead == (if links == [] then link else old(addedHead))
    {
      if addedTail == null {
        addedHead := link;
      } else {
        addedTail.next := link;
      }
    }

    /** Creates a link at the end. */
    method Push(text: string)
      requires ChainOk()
      modifies this`addedHead, this`addedTail, this`links, this`added, links`next
      ensures ChainOk() && added == old(added) + [text]
      ensures |links| == |old(links)| + 1 && links[..|old(links)|] == old(links) && fresh(links[|old(links)|])
    {
      hide Distinct, Linked, Texts;
      ghost var a := links;
      var link := new Link(text, null);
      assert Apart(a, [link]);
      hide Apart;
      SetTail(link);
      TextsKept(a);
      Single(link, null);
      LinkedJoin(a, [link], null);
      DistinctJoin(a, [link]);
      TextsJoin(a, [link]);
      addedTail := link;
      links, added := a + [link], added + [text];
    }

    /** Cuts the other level's chain off and hangs it to the end of this one. */
    method MoveChain(other: Template)
      requires ChainOk() && other.ChainOk() && other != this && other.links != [] && Apart(links, other.links)
      modifies this`addedHead, this`addedTail, this`links, this`added, links`next
      modifies other`addedHead, other`addedTail, other`links, other`added
      ensures ChainOk() && added == old(added) + old(other.added) && links == old(links) + old(other.links)
      ensures other.ChainOk() && other.added == [] && other.links == []
    {
      hide Distinct, Linked, Texts;
      ghost var a, b := links, other.links;
      SetTail(other.addedHead);
      forall l | l in b ensures l !in a { }
      assert Linked(b, null);
      hide Apart;
      TextsKept(a);
      TextsKept(b);
      LinkedJoin(a, b, null);
      DistinctJoin(a, b);
      TextsJoin(a, b);
      addedTail := other.addedTail;
      links, added := a + b, added + other.added;
      other.NoChain();
    }

    /** The tail pointer leads to the head field, which leads nowhere. */
    method NoChain()
      modifies this`addedHead, this`addedTail, this`links, this`added
      ensures ChainOk() && links == [] && added == []
    {
      addedHead, addedTail := null, null;
      links, added := [], [];
    }

    /** Frees the chain link by link. */
    method FreeChain()
      requires ChainOk()
      modifies this`addedHead, this`addedTail, this`links, this`added
      ensures ChainOk() && links == [] && added == []
    {
      while addedHead != null
        invariant Distinct(links) && Linked(links, null) && addedHead == if links == [] then null else links[0]
        decreases |links|
      {
        LinkedTail(links, null);
        addedHead := addedHead.next;
        links := links[1..];
      }
      NoChain();
    }

    /** Makes the chain a single link with this text, the first one if it has the right length. */
    method ReplaceChain(val: string)
      requires ChainOk()
      modifies this`addedHead, this`addedTail, this`links, this`added, links
      ensures ChainOk() && added == [val] && |links| == 1 && (links[0] in old(links) || fresh(links[0]))
    {
      if addedHead == null || |addedHead.text| != |val| { Prepend(); }
      addedHead.text := val;
      Shorten(links[1..]);
      added := [val];
    }

    /** Puts a link before the first one. */
    method Prepend()
      requires ChainOk()
      modifies this`addedHead, this`links
      ensures Distinct(links) && Linked(links, null) && fresh(addedHead) && links == [addedHead] + old(links)
    {
      ghost var rest := links;
      addedHead := new Link("", addedHead);
      if rest != [] { LinkedJoin([addedHead], rest, null); }
      links := [addedHead] + rest;
    }

    /** Frees all links but the first one. */
    method Shorten(ghost others: seq<Link>)
      requires addedHead != null && links == [addedHead] + others && Distinct(links) && Linked(links, null)
      modifies this`addedTail, this`links, addedHead`next
      ensures links == [addedHead] && addedHead.next == null && addedTail == addedHead
    {
      ghost var rest := others;
      LinkedTail(links, null);
      assert links[1..] == rest && addedHead !in rest;
      while addedHead.next != null
        invariant addedHead.next == (if rest == [] then null else rest[0]) && addedHead !in rest
        invariant Distinct(rest) && Linked(rest, null)
        decreases |rest|
      {
        LinkedTail(rest, null);
        var deleted := addedHead.next;
        addedHead.next := deleted.next;
        rest := rest[1..];
      }
      links := [addedHead];
      addedTail := addedHead;
    }

    // --- lookups

    method FindField(key: string) returns (r: Option<nat>)
      requires Valid() && key != ""
      ensures r == Lookup(CellKeys(cells), key)
    {
      var h := HashLoop(key);
      r := Walk(CellKeys(cells), fields[h], key);
    }

    method FindSection(key: string) returns (r: Option<nat>)
      requires Valid() && key != ""
      ensures r == Lookup(CellNames(first), key)
    {
      var h := HashLoop(key);
      r := Walk(CellNames(first), sections[h], key);
    }

    // --- selection

    /** Points this level at the level at the end of path. */
    method MoveSelection(target: Template, ghost path: seq<nat>)
      requires Valid() && HasPath(Abs(), path) && target == At(path)
      modifies this`tpl, this`sel
      ensures Valid() && Abs() == old(Abs()).(sel := path) && tpl == target && sel == path
      ensures HasPath(Abs(), sel) && tpl == At(sel)
      ensures (forall i | 0 <= i < |first| :: old(first[i].tpl.SelOk())) ==> SelOk()
    {
      tpl, sel := target, path;
      OwnChanged(this);
      OwnAt(this, path);
      hide Buckets, CellKeys, CellNames;
    }

    lemma AbsKeys()
      requires Valid()
      ensures SecKeys(Abs().secs) == CellNames(first) && Abs().cells == cells
    {
    }

    /** A template between two operations. */
    ghost predicate Ready()
      reads this, repr, LinksOf(repr)
      ensures Ready() ==> Valid()
    {
      Valid() && SelOk() && Invariant(Abs()) && Tidy(repr) && Parented(repr)
    }

    /** Moves the selection pointer of the level s at the end of path. */
    method MoveSelectionAt(s: Template, ghost path: seq<nat>, target: Template, ghost rel: seq<nat>)
      requires Valid() && SelOk() && HasPath(Abs(), path) && s == At(path)
      requires HasPath(s.Abs(), rel) && target == s.At(rel)
      modifies s`tpl, s`sel
      ensures Valid() && SelOk() && Abs() == Replace(old(Abs()), path, Sub(old(Abs()), path).(sel := rel))
      ensures s.tpl == target && s.sel == rel && HasPath(Abs(), path) && At(path) == s
    {
      hide Buckets, CellKeys, CellNames, Replace, Sub;
      s.MoveSelection(target, rel);
      Kept(this, path, s);
      AtKept(this, path);
      SelKept(this);
    }

    /** Selects section j of the selected level, which points at itself. */
    method EnterSection(j: nat)
      requires Valid() && SelOk() && j < |tpl.first| && tpl.first[j].tpl.tpl == tpl.first[j].tpl
      modifies this`tpl, this`sel, tpl`tpl, tpl`sel
      ensures Valid() && SelOk()
      ensures HasPath(old(Abs()), old(sel))
      ensures Abs() == Replace(old(Abs()), old(sel), Sub(old(Abs()), old(sel)).(sel := [j])).(sel := old(sel) + [j])
    {
      hide Buckets, CellKeys, CellNames, Replace;
      ghost var path := sel;
      AtStep(tpl, [], j);
      MoveSelectionAt(tpl, path, tpl.first[j].tpl, [j]);
      AtStep(this, path, j);
      MoveSelection(tpl.tpl, path + [j]);
    }

    lemma UnselectedChild(j: nat)
      requires Valid() && SelOk() && j < |tpl.first| && tpl.first[j].tpl.sel == []
      ensures tpl in repr && tpl.first[j].tpl.tpl == tpl.first[j].tpl
    {
      SelBelow(this, sel);
      assert tpl.first[j].tpl.SelOk();
    }

    /** The selected level of a template between two operations. */
    lemma ReadyFacts()
      requires Ready()
      ensures AllSel(Abs()) && HasPath(Abs(), sel) && tpl in repr && tpl.Valid() && this in repr
      ensures Abs().sel == sel && tpl.Abs() == Sub(Abs(), sel)
      ensures SecKeys(Sub(Abs(), sel).secs) == CellNames(tpl.first) && |Sub(Abs(), sel).secs| == |tpl.first|
      ensures forall j | 0 <= j < |tpl.first| :: tpl.first[j].tpl.sel == Sub(Abs(), sel).secs[j].tpl.sel
      ensures tpl == this <==> sel == []
    {
      InvariantPath(Abs());
      tpl.AbsKeys();
    }

    method SelectSection(key: string) returns (code: int)
      requires Ready() && key != ""
      modifies repr`tpl, repr`sel
      ensures Ready() && HasPath(old(Abs()), old(sel)) && (Abs(), code) == Select(old(Abs()), key)
    {
      hide Tidy, Parented, Buckets, CellKeys, CellNames, SecKeys, Replace, Sub, Invariant, Valid, SelOk, HasPath,
        At, Lookup, Abs;
      ReadyFacts();
      SelectReady(Abs(), key);
      var found := tpl.FindSection(key);
      code := TPL_SECTION_NOT_FOUND_ERROR;
      if found.Some? {
        UnselectedChild(found.value);
        EnterSection(found.value);
        code := TPL_OK;
      }
      TidyKept(repr);
    }

    /** Selects the level that contains the selected one. */
    method LeaveSection()
      requires Valid() && SelOk() && Parented(repr) && sel != []
      modifies repr`tpl, repr`sel
      ensures Valid() && SelOk() && HasPath(old(Abs()), old(sel)[..|old(sel)| - 1])
      ensures var up := old(sel)[..|old(sel)| - 1];
        Abs() == Replace(old(Abs()), up, Sub(old(Abs()), up).(sel := [])).(sel := up)
    {
      hide Buckets, CellKeys, CellNames, Replace, Sub, At, Valid, Abs, HasPath, Parented;
      ghost var up := sel[..|sel| - 1];
      OuterLevel(up, sel[|sel| - 1]);
      var outer := tpl.parent;
      MoveSelectionAt(outer, up, outer, []);
      MoveSelection(outer, up);
    }

    lemma OuterLevel(up: seq<nat>, j: nat)
      requires Valid() && SelOk() && Parented(repr) && sel == up + [j]
      ensures HasPath(Abs(), up) && tpl.parent == At(up) && At(up).Valid() && At(up) in repr && this in repr
      ensures HasPath(At(up).Abs(), []) && At(up).At([]) == At(up)
    {
      hide Buckets, CellKeys, CellNames;
      PathPrefix(Abs(), sel, |up|);
      assert sel[..|up|] == up;
      PathStep(Abs(), up, j);
      AtStep(this, up, j);
    }

    method DeselectSection() returns (code: int)
      requires Ready()
      modifies repr`tpl, repr`sel
      ensures Ready() && HasPath(old(Abs()), old(sel)) && (Abs(), code) == Deselect(old(Abs()))
    {
      hide Tidy, Parented, Replace, Sub, Invariant, Valid, SelOk, HasPath, At, Abs;
      ReadyFacts();
      DeselectKeeps(Abs());
      if tpl == this {
        return TPL_NO_SECTION_SELECTED_ERROR;
      }
      LeaveSection();
      TidyKept(repr);
      code := TPL_OK;
    }

    // --- fields

    method PutValue(key: string, val: string)
      requires Valid() && RoomOk() && key != ""
      modifies this`cells, this`room
      ensures Valid() && RoomOk() && Abs() == SetCell(old(Abs()), key, val)
    {
      var found := FindField(key);
      LookupSpec(CellKeys(cells), key);
      if found.Some? {
        var c := found.value;
        Grow(c, |val|);
        WriteValue(c, val);
        assert CellKeys(cells) == CellKeys(old(cells));
        OwnChanged(this);
      }
    }

    /** Sets a field of the selected level. */
    method PutSelected(key: string, val: string)
      requires Valid() && SelOk() && tpl.RoomOk() && key != ""
      modifies tpl`cells, tpl`room
      ensures Valid() && SelOk() && HasPath(old(Abs()), old(sel)) && Abs() == Ops.SetField(old(Abs()), key, val)
      ensures tpl.RoomOk()
    {
      hide Buckets, CellKeys, CellNames, SetCell, Replace, Sub, RoomOk;
      tpl.PutValue(key, val);
      Kept(this, sel, tpl);
      SelKept(this);
    }

    method SetField(key: string, val: string)
      requires Valid() && SelOk() && Tidy(repr) && key != ""
      modifies repr`cells, repr`room
      ensures Valid() && SelOk() && HasPath(old(Abs()), old(sel)) && Abs() == Ops.SetField(old(Abs()), key, val)
      ensures old(Invariant(Abs())) ==> Invariant(Abs())
      ensures Tidy(repr) && LinksOf(repr) == old(LinksOf(repr))
    {
      hide Valid, SelOk, Abs, At, Ops.SetField, Tidy, RoomOk, WellFormed, Children, HasPath;
      SelectedInside();
      SetFieldInvariant(Abs(), key, val);
      RoomWhenTidy(repr, tpl);
      PutSelected(key, val);
      CellsChanged(repr, tpl);
    }

    lemma SelectedInside()
      requires Valid() && SelOk()
      ensures tpl in repr && tpl.repr <= repr && tpl.Valid() && HasPath(Abs(), sel) && Abs().sel == sel
    {
    }

    method SetFieldReady(key: string, val: string)
      requires Ready() && key != ""
      modifies repr`cells, repr`room
      ensures Ready() && HasPath(old(Abs()), old(sel)) && old(Abs()).sel == old(sel)
      ensures Abs() == Ops.SetField(old(Abs()), key, val)
    {
      hide Tidy, Parented, Valid, SelOk, Abs, Invariant, Ops.SetField;
      ReadyFacts();
      SetField(key, val);
      ParentsKept(repr);
    }

    // --- appending

    ghost function Kids(): set<Template>
      reads this
    {
      set i | 0 <= i < |first| :: first[i].tpl
    }

    /** t describes this level and its sections' added content. */
    ghost predicate Describes(t: Tpl)
      reads this, Kids()
    {
      && t.nodes == head && t.cells == cells && t.added == added && |t.secs| == |first|
      && (forall i | 0 <= i < |first| ::
            t.secs[i].pos == first[i].preceding && t.secs[i].tpl.added == first[i].tpl.added)
      && (forall i | 0 <= i < |first| :: first[i].tpl != this)
      && (forall i, j | 0 <= i < j < |first| :: first[i].tpl != first[j].tpl)
    }

    lemma DescribesAbs()
      requires Valid()
      ensures Describes(Abs())
    {
      hide Buckets, CellKeys, CellNames;
      forall i, j | 0 <= i < j < |first| ensures first[i].tpl != first[j].tpl {
        assert first[i].tpl in first[i].tpl.repr;
      }
    }

    /** This level and its sections. */
    ghost function Family(): set<Template>
      reads this
    {
      {this} + Kids()
    }

    /** The text of the nodes from n goes to the end of this level's chain. */
    method AppendRest(n: nat, ghost family: set<Template>)
      requires n <= |head| && Tidy(family) && this in family
      modifies this`addedHead, this`addedTail, this`links, this`added, links`next
      ensures added == old(added) + [NodesText(head, cells, n, |head|)]
      ensures Tidy(family) && forall l | l in LinksOf(family) :: l in old(LinksOf(family)) || fresh(l)
    {
      hide Distinct, Linked, NodesText;
      var rest := CopyNodes(head, cells, n, |head|);
      Push(rest);
      SoloTidy(this);
      Regrouped(family, {this});
    }

    /** Moves the text of the nodes from n and the added chain of section i to this level's chain. */
    method MoveUp(i: nat, n: nat, ghost family: set<Template>)
      requires i < |first| && n <= first[i].preceding <= |head| && first[i].tpl != this && first[i].tpl.links != []
      requires Tidy(family) && this in family && first[i].tpl in family
      modifies this`addedHead, this`addedTail, this`links, this`added, links`next
      modifies first[i].tpl`addedHead, first[i].tpl`addedTail, first[i].tpl`links, first[i].tpl`added
      ensures added == old(added) + [NodesText(head, cells, n, first[i].preceding)] + old(first[i].tpl.added)
      ensures first[i].tpl.added == []
      ensures Tidy(family) && forall l | l in LinksOf(family) :: l in old(LinksOf(family)) || fresh(l)
    {
      hide NodesText;
      var c := first[i].tpl;
      var text := CopyNodes(head, cells, n, first[i].preceding);
      TidyPart(family, {this, c});
      hide Tidy;
      TakeOver(c, text);
      Regrouped(family, {this, c});
    }

    /** Adds a text and the other level's whole chain. */
    method TakeOver(c: Template, text: string)
      requires c != this && Tidy({this, c}) && c.links != []
      modifies this`addedHead, this`addedTail, this`links, this`added, links`next
      modifies c`addedHead, c`addedTail, c`links, c`added
      ensures added == old(added) + [text] + old(c.added) && c.added == []
      ensures Tidy({this, c}) && forall l | l in LinksOf({this, c}) :: l in old(LinksOf({this, c})) || fresh(l)
    {
      hide Distinct, Linked, Texts;
      ghost var a := links;
      assert Apart(a, c.links);
      Push(text);
      assert links == a + [links[|a|]];
      MoveChain(c);
      assert Tidy({this, c});
    }

    /** What the append loop does with section i: nothing unless something was added to it. */
    method AppendNext(i: nat, n: nat, ghost family: set<Template>) returns (m: nat)
      requires i < |first| && n <= first[i].preceding <= |head| && first[i].tpl != this
      requires Tidy(family) && this in family && first[i].tpl in family
      modifies this`addedHead, this`addedTail, this`links, this`added, links`next
      modifies first[i].tpl`addedHead, first[i].tpl`addedTail, first[i].tpl`links, first[i].tpl`added
      ensures (m, added) == if old(first[i].tpl.added) == [] then (n, old(added))
        else (first[i].preceding,
          old(added) + [NodesText(head, cells, n, first[i].preceding)] + old(first[i].tpl.added))
      ensures first[i].tpl.added == []
      ensures Tidy(family) && forall l | l in LinksOf(family) :: l in old(LinksOf(family)) || fresh(l)
    {
      hide NodesText, Tidy, LinksOf;
      HeadMeansAdded(first[i].tpl, family);
      m := n;
      if first[i].tpl.addedHead != null {
        MoveUp(i, n, family);
        m := first[i].preceding;
      }
    }

    method AppendLoop(ghost t: Tpl)
      requires Describes(t) && Placed(t) && Tidy(Family())
      modifies this`addedHead, this`addedTail, this`links, this`added
      modifies Kids()`addedHead, Kids()`addedTail, Kids()`links, Kids()`added, LinksOf(Family())`next
      ensures added == t.added + Pieces(t)
      ensures forall j | 0 <= j < |first| :: first[j].tpl.added == []
      ensures Tidy(Family()) && forall l | l in LinksOf(Family()) :: l in old(LinksOf(Family())) || fresh(l)
    {
      hide NodesText, PiecesTo, Tidy, LinksOf;
      ghost var family := Family();
      var i, n := 0, 0;
      PiecesStep(t, 0);
      while i < |first|
        invariant 0 <= i <= |first| && n == PiecesTo(t, i).1 && n <= |head|
        invariant forall j | i <= j < |first| :: n <= first[j].preceding
        invariant added == t.added + PiecesTo(t, i).0
        invariant forall j | 0 <= j < |first| :: first[j].tpl.added == if j < i then [] else t.secs[j].tpl.added
        invariant Tidy(family) && forall l | l in LinksOf(family) :: l in old(LinksOf(family)) || fresh(l)
      {
        PiecesStep(t, i);
        assert first[i].tpl in Kids();
        n := AppendNext(i, n, family);
        i := i + 1;
      }
      AppendRest(n, family);
    }

    /** Appends this level's content to its own added chain, moving its sections' chains along. */
    method AppendHere()
      requires Valid() && Placed(Abs()) && Tidy(Family())
      modifies this`addedHead, this`addedTail, this`links, this`added
      modifies Kids()`addedHead, Kids()`addedTail, Kids()`links, Kids()`added, LinksOf(Family())`next
      ensures Valid() && Abs() == Appended(old(Abs()))
      ensures Tidy(Family()) && forall l | l in LinksOf(Family()) :: l in old(LinksOf(Family())) || fresh(l)
    {
      hide Valid, Abs, Describes, Pieces, Tidy;
      DescribesAbs();
      AppendLoop(Abs());
      KidsMoved(this);
    }

    method AppendAtSelected()
      requires Valid() && SelOk() && Placed(tpl.Abs()) && Tidy(tpl.Family()) && tpl.Family() <= tpl.repr
      modifies tpl`addedHead, tpl`addedTail, tpl`links, tpl`added
      modifies tpl.Kids()`addedHead, tpl.Kids()`addedTail, tpl.Kids()`links, tpl.Kids()`added
      modifies LinksOf(tpl.Family())`next
      ensures Valid() && SelOk() && HasPath(old(Abs()), old(sel))
      ensures Abs() == Replace(old(Abs()), old(sel), Appended(Sub(old(Abs()), old(sel))))
      ensures Tidy(tpl.Family())
      ensures forall l | l in LinksOf(tpl.Family()) :: l in old(LinksOf(tpl.Family())) || fresh(l)
    {
      hide Buckets, CellKeys, CellNames, Appended, Tidy, LinksOf;
      tpl.AppendHere();
      Kept(this, sel, tpl);
      SelKept(this);
    }

    method AppendSelected()
      requires Valid() && SelOk() && Placed(tpl.Abs()) && Tidy(repr)
      modifies repr`addedHead, repr`addedTail, repr`links, repr`added, LinksOf(repr)`next
      ensures Valid() && SelOk()
      ensures HasPath(old(Abs()), old(sel))
      ensures Abs() == Replace(old(Abs()), old(sel), Appended(Sub(old(Abs()), old(sel))))
      ensures Tidy(repr) && forall l | l in LinksOf(repr) :: l in old(LinksOf(repr)) || fresh(l)
    {
      hide Appended, Replace, Sub, At, HasPath, Tidy, Valid, Abs, SelOk, Placed;
      SelectedInside();
      FamilyInside(tpl);
      TidyPart(repr, tpl.Family());
      AppendAtSelected();
      Regrouped(repr, tpl.Family());
    }

    method AppendSection() returns (code: int)
      requires Ready()
      modifies repr`addedHead, repr`addedTail, repr`links, repr`added, LinksOf(repr)`next
      ensures Ready() && HasPath(old(Abs()), old(sel)) && (Abs(), code) == Append(old(Abs()))
      ensures forall l | l in LinksOf(repr) :: l in old(LinksOf(repr)) || fresh(l)
    {
      hide Replace, Invariant, HasPath, Appended, Valid, SelOk, Placed, Abs, Tidy, Parented;
      ReadyFacts();
      AppendKeeps(Abs());
      hide At, Sub;
      if tpl == this {
        return TPL_NO_SECTION_SELECTED_ERROR;
      }
      AppendSelected();
      ParentsKept(repr);
      code := TPL_OK;
    }

    // --- replacing a section

    /** Releases everything below this level and initialises it again. */
    method Clear()
      requires Valid() && ChainOk()
      modifies this`head, this`cells, this`fields, this`first, this`sections, this`tpl, this`parent, this`sel, this`room
      modifies this`addedHead, this`addedTail, this`links, this`added
      ensures Valid() && Abs() == EMPTY && tpl == this && sel == [] && parent == null && first == []
      ensures ChainOk() && links == [] && RoomOk()
    {
      hide Distinct, Linked, Texts;
      assert this in repr;
      hide Valid, Abs;
      FreeChain();
      Init();
    }

    /** Everything but the chain as in a new level. */
    method Init()
      requires this in repr && added == []
      modifies this`head, this`cells, this`fields, this`first, this`sections, this`tpl, this`parent, this`sel, this`room
      ensures Valid() && Abs() == EMPTY && tpl == this && sel == [] && parent == null && first == [] && RoomOk()
    {
      hide Buckets, CellKeys, CellNames;
      assert CellKeys([]) == [] && CellNames([]) == [];
      head, cells, room, first, parent := [], [], [], [], null;
      fields, sections := Buckets([]), Buckets([]);
      tpl, sel := this, [];
    }

    /** Overwrites this level's nodes, in place if its only node has the right length. */
    method PutNode(owner: Template, val: string)
      requires Valid() && ChainOk() && parent == owner && !OverNoText(Abs(), val)
      modifies this`head, this`cells, this`fields, this`first, this`sections, this`tpl, this`parent, this`sel, this`room
      modifies this`addedHead, this`addedTail, this`links, this`added
      ensures Valid() && Abs() == WithText(old(Abs()), val).(added := added) && parent == owner
      ensures first == [] && ((tpl == this && sel == []) || (tpl == old(tpl) && sel == old(sel)))
      ensures ChainOk() && (links == old(links) || links == []) && (old(RoomOk()) ==> RoomOk())
    {
      hide Distinct, Linked, Texts;
      if first != [] || head == [] || |head| != 1 || NodeLen(head[0]) != |val| {
        Clear();
        parent := owner;
        head := [TextNode(val)];
      } else {
        assert Abs().secs == [];
        head := [Overwritten(head[0], val)];
      }
      hide Buckets, CellKeys, CellNames;
      assert Abs().secs == [];
    }

    /** Overwrites this level and its added content. */
    method PutText(owner: Template, val: string)
      requires Valid() && ChainOk() && parent == owner && !OverNoText(Abs(), val)
      modifies this`head, this`cells, this`fields, this`first, this`sections, this`tpl, this`parent, this`sel, this`room
      modifies this`addedHead, this`addedTail, this`links, this`added, links
      ensures Valid() && Abs() == WithText(old(Abs()), val) && parent == owner
      ensures first == [] && ((tpl == this && sel == []) || (tpl == old(tpl) && sel == old(sel)))
      ensures ChainOk() && (old(RoomOk()) ==> RoomOk()) && forall l | l in links :: l in old(links) || fresh(l)
    {
      hide Distinct, Linked, Texts, Buckets, CellKeys, CellNames;
      PutNode(owner, val);
      ReplaceChain(val);
      assert Abs().secs == [];
    }

    /** Overwrites c, a section of owner, which is some level in the footprint. */
    method PutSection(owner: Template, c: Template, val: string)
      requires c in repr && c.Valid() && c.parent == owner && Tidy(repr) && Parented(repr)
      requires !OverNoText(c.Abs(), val)
      modifies c`head, c`cells, c`fields, c`first, c`sections, c`tpl, c`parent, c`sel, c`room
      modifies c`addedHead, c`addedTail, c`links, c`added, c.links
      ensures c.Valid() && c.Abs() == WithText(old(c.Abs()), val)
      ensures c.first == [] && ((c.tpl == c && c.sel == []) || (c.tpl == old(c.tpl) && c.sel == old(c.sel)))
      ensures Tidy(repr) && Parented(repr) && forall l | l in LinksOf(repr) :: l in old(LinksOf(repr)) || fresh(l)
    {
      hide Valid, Abs, Distinct, Linked, Texts;
      c.PutText(owner, val);
      SoloTidy(c);
      ParentsCleared(repr, c);
      hide Parented;
      Regrouped(repr, {c});
    }

    /** Replaces what section j of the selected level holds. */
    method SetSectionSelected(j: nat, val: string)
      requires Valid() && SelOk() && SelAlong(Abs(), sel) && j < |tpl.first| && tpl.first[j].tpl.sel == []
      requires Tidy(repr) && Parented(repr)
      requires HasPath(Abs(), sel) && var s := Sub(Abs(), sel); j < |s.secs| && !OverNoText(s.secs[j].tpl, val)
      modifies repr, LinksOf(repr)
      ensures Valid() && SelOk() && repr == old(repr)
      ensures HasPath(old(Abs()), old(sel)) && j < |Sub(old(Abs()), old(sel)).secs|
      ensures var s := Sub(old(Abs()), old(sel));
        Abs() == Replace(old(Abs()), old(sel), SetChild(s, j, WithText(s.secs[j].tpl, val)))
      ensures Tidy(repr) && Parented(repr)
      ensures forall l | l in LinksOf(repr) :: l in old(LinksOf(repr)) || fresh(l)
    {
      hide Buckets, CellKeys, CellNames, WithText, Replace, Tidy;
      var s, c := tpl, tpl.first[j].tpl;
      SelBelow(this, sel);
      AlongEnd(Abs(), sel);
      assert c in repr && c.parent == s;
      hide Parented;
      PutSection(s, c, val);
      OneUp(s, j);
      SelBeside(s, j);
      Kept(this, sel, s);
      SelKeptAlong(this, sel, s);
    }

    method SetSection(key: string, val: string) returns (code: int)
      requires Ready() && key != "" && SetSectionAllowed(Abs(), key, val)
      modifies repr, LinksOf(repr)
      ensures Ready() && repr == old(repr)
      ensures HasPath(old(Abs()), old(sel)) && (Abs(), code) == Ops.SetSection(old(Abs()), key, val)
      ensures forall l | l in LinksOf(repr) :: l in old(LinksOf(repr)) || fresh(l)
    {
      hide Buckets, CellKeys, CellNames, SecKeys, WithText, Replace, Sub, Invariant, Valid, SelOk, HasPath, At,
        Lookup, SelAlong, Abs, Tidy, Parented;
      ReadyFacts();
      SetSectionReady(Abs(), key, val);
      var found := tpl.FindSection(key);
      if found == None {
        return TPL_SECTION_NOT_FOUND_ERROR;
      }
      SetSectionSelected(found.value, val);
      code := TPL_OK;
    }
  }

  // --- chains and blocks over all levels

  /** A level's field cells, their blocks and its chain fields are as before. */
  twostate predicate SameStore(new u: Template)
    requires old(allocated(u))
    reads u
  {
    SameChain(u) && u.cells == old(u.cells) && u.room == old(u.room)
  }

  /** A level's chain fields are as before. */
  twostate predicate SameChain(new u: Template)
    requires old(allocated(u))
    reads u
  {
    && u.links == old(u.links) && u.added == old(u.added)
    && u.addedHead == old(u.addedHead) && u.addedTail == old(u.addedTail)
  }

  lemma SectionCount(t: Template)
    requires t.Valid()
    ensures |t.first| == |t.Abs().secs| && t in t.repr
    ensures forall i | 0 <= i < |t.first| :: t.first[i].tpl.repr <= t.repr
  {
    hide Buckets, CellKeys, CellNames;
  }

  /** Links were allocated before anything that is allocated later. */
  lemma LinksExist(s: set<Template>)
    ensures forall l | l in LinksOf(s) :: allocated(l)
  {
  }

  lemma SoloTidy(u: Template)
    requires u.ChainOk() && u.RoomOk()
    ensures Tidy({u})
  {
  }

  lemma TidyPart(s: set<Template>, k: set<Template>)
    requires Tidy(s) && k <= s
    ensures Tidy(k) && forall l | l in LinksOf(k) :: l in LinksOf(s)
  {
  }

  lemma HeadMeansAdded(u: Template, s: set<Template>)
    requires u in s && Tidy(s)
    ensures u.ChainOk() && (u.addedHead != null <==> u.added != []) && (u.added == [] <==> u.links == [])
  {
  }

  lemma RoomWhenTidy(s: set<Template>, u: Template)
    requires u in s && Tidy(s)
    ensures u.RoomOk()
  {
  }

  lemma FamilyInside(t: Template)
    requires t.Valid()
    ensures t.Family() <= t.repr
  {
    hide Buckets, CellKeys, CellNames;
  }

  /** Chains stay tied when those of some levels are rearranged among themselves. */
  twostate lemma Regrouped(new s: set<Template>, new k: set<Template>)
    requires k <= s && (forall u <- s :: old(allocated(u))) && old(Tidy(s)) && Tidy(k)
    requires forall u <- s - k :: SameStore(u)
    requires forall l | l in old(LinksOf(s)) && l !in old(LinksOf(k)) :: unchanged(l)
    requires forall l | l in LinksOf(k) :: l in old(LinksOf(k)) || fresh(l)
    ensures Tidy(s) && forall l | l in LinksOf(s) :: l in old(LinksOf(s)) || fresh(l)
  {
    hide Distinct, Linked;
    forall u | u in s - k ensures u.RoomOk() { assert old(u.RoomOk()); }
    forall u | u in s - k ensures u.ChainOk() && forall l | l in u.links :: l in old(LinksOf(s)) {
      assert old(u.ChainOk()) && u.links == old(u.links);
      forall i | 0 <= i < |u.links| ensures unchanged(u.links[i]) { NotShared(s, k, u, u.links[i]); }
      ChainSame(u.links);
    }
    forall l | l in LinksOf(s) ensures l in old(LinksOf(s)) || fresh(l) {
      var u :| u in s && l in u.links;
      if u in k { assert l in LinksOf(k) && old(LinksOf(k)) <= old(LinksOf(s)); }
    }
    forall u, v | u in s && v in s && u != v ensures Apart(u.links, v.links) {
      forall i, j | 0 <= i < |u.links| && 0 <= j < |v.links| ensures u.links[i] != v.links[j] {
        if u in s - k && v in k { NotShared(s, k, u, u.links[i]); assert v.links[j] in LinksOf(k); }
        if v in s - k && u in k { NotShared(s, k, v, v.links[j]); assert u.links[i] in LinksOf(k); }
        if u in s - k && v in s - k { assert old(Apart(u.links, v.links)); }
        if u in k && v in k { assert Apart(u.links, v.links); }
      }
    }
  }

  twostate lemma NotShared(new s: set<Template>, new k: set<Template>, new u: Template, new l: Link)
    requires k <= s && (forall v <- s :: old(allocated(v))) && old(Tidy(s))
    requires u in s - k && l in old(u.links)
    ensures old(allocated(l)) && l in old(LinksOf(s)) && l !in old(LinksOf(k))
  {
    forall v | v in k ensures l !in old(v.links) {
      assert old(Apart(u.links, v.links));
    }
  }

  /** Nothing about the chains or the sections changed. */
  twostate lemma TidyKept(new s: set<Template>)
    requires (forall u <- s :: old(allocated(u))) && old(Tidy(s) && Parented(s))
    requires forall u <- s :: SameStore(u) && u.first == old(u.first) && u.parent == old(u.parent)
    requires forall l | l in old(LinksOf(s)) :: unchanged(l)
    ensures Tidy(s) && Parented(s) && LinksOf(s) == old(LinksOf(s))
  {
    Regrouped(s, {});
    ParentsKept(s);
  }

  /** One level's field cells changed, and their values still fit. */
  twostate lemma CellsChanged(new s: set<Template>, new c: Template)
    requires (forall u <- s :: old(allocated(u))) && old(Tidy(s)) && c in s && c.RoomOk() && SameChain(c)
    requires forall u <- s - {c} :: SameStore(u)
    requires forall l | l in old(LinksOf(s)) :: unchanged(l)
    ensures Tidy(s) && LinksOf(s) == old(LinksOf(s))
  {
    hide Distinct, Linked, Texts, Template.RoomOk;
    ChainKept(s, c);
    SoloTidy(c);
    Regrouped(s, {c});
    forall u | u in s ensures u.links == old(u.links) {
      if u != c { assert SameStore(u); }
    }
  }

  twostate lemma ChainKept(new s: set<Template>, new c: Template)
    requires (forall u <- s :: old(allocated(u))) && old(Tidy(s)) && c in s && SameChain(c)
    requires forall l | l in old(LinksOf(s)) :: unchanged(l)
    ensures c.ChainOk()
  {
    hide Distinct, Linked;
    assert old(c.ChainOk());
    forall i | 0 <= i < |c.links| ensures unchanged(c.links[i]) { assert c.links[i] in old(LinksOf(s)); }
    ChainSame(c.links);
  }

  twostate lemma ParentsKept(new s: set<Template>)
    requires (forall u <- s :: old(allocated(u))) && old(Parented(s))
    requires forall u <- s :: u.first == old(u.first) && u.parent == old(u.parent)
    ensures Parented(s)
  {
  }

  /** One level lost its sections. */
  twostate lemma ParentsCleared(new s: set<Template>, new c: Template)
    requires (forall u <- s :: old(allocated(u))) && old(Parented(s)) && c in s && c.first == []
    requires c.parent == old(c.parent)
    requires forall u <- s - {c} :: u.first == old(u.first) && u.parent == old(u.parent)
    ensures Parented(s)
  {
  }

  /** All but the chain of added content is as before. */
  twostate predicate OnlyAdded(new t: Template)
    requires old(allocated(t))
    reads t
  {
    && t.head == old(t.head) && t.cells == old(t.cells) && t.fields == old(t.fields) && t.first == old(t.first)
    && t.sections == old(t.sections) && t.repr == old(t.repr) && t.sel == old(t.sel) && t.tpl == old(t.tpl)
  }

  /** The level's own chain and its sections' chains changed, nothing else. */
  twostate predicate ChainsMoved(new t: Template)
    requires old(allocated(t)) && old(t.Valid())
    reads t, t.repr
  {
    && OnlyAdded(t)
    && (forall i | 0 <= i < |t.first| :: OnlyAdded(old(t.first)[i].tpl))
    && (forall u | u in old(t.repr) && u != t && u !in old(t.Kids()) :: unchanged(u))
  }

  twostate lemma KidMoved(new t: Template, i: nat)
    requires old(allocated(t)) && old(t.Valid()) && ChainsMoved(t) && i < |t.first|
    ensures var c := t.first[i].tpl;
      c.Valid() && c.Abs() == old(c.Abs()).(added := c.added) && (old(c.SelOk()) ==> c.SelOk())
  {
    hide Buckets, CellKeys, CellNames;
    var c := t.first[i].tpl;
    forall u | u in old(c.repr) && u != c ensures unchanged(u) {
      assert u in old(t.repr) && u != t;
    }
    assert c in old(t.repr);
    OwnChanged(c);
  }

  twostate lemma KidsMoved(new t: Template)
    requires old(allocated(t)) && old(t.Valid()) && ChainsMoved(t)
    requires forall i | 0 <= i < |t.first| :: t.first[i].tpl.added == []
    ensures t.Valid() && t.Abs() == old(t.Abs()).(added := t.added, secs := Emptied(old(t.Abs()).secs))
  {
    forall i | 0 <= i < |t.first|
      ensures t.first[i].tpl.Valid() && t.first[i].tpl.Abs() == old(t.first[i].tpl.Abs()).(added := [])
    {
      KidMoved(t, i);
    }
    assert t.Valid();
    assert t.Abs().secs == Emptied(old(t.Abs()).secs);
  }

  lemma {:induction false} AtStep(t: Template, path: seq<nat>, j: nat)
    requires t.Valid() && HasPath(t.Abs(), path) && j < |t.At(path).first|
    ensures HasPath(t.Abs(), path + [j]) && t.At(path + [j]) == t.At(path).first[j].tpl
    decreases path
  {
    hide Buckets, CellKeys, CellNames;
    if path == [] {
      assert [] + [j] == [j];
      assert HasPath(t.Abs(), [j]);
    } else {
      assert (path + [j])[1..] == path[1..] + [j];
      AtStep(t.first[path[0]].tpl, path[1..], j);
    }
  }

  /** Nothing below the level changed: section i is as it was. */
  twostate lemma OldKid(new t: Template, i: nat)
    requires old(allocated(t)) && old(t.Valid()) && i < |old(t.first)|
    requires forall u | u in old(t.repr) && u != t :: unchanged(u)
    ensures var c := old(t.first)[i].tpl;
      && c.Valid() && c.repr == old(c.repr) && c.repr <= old(t.repr) && c in old(t.repr) && t !in c.repr
      && c.Abs() == old(t.Abs()).secs[i].tpl && (old(c.SelOk()) ==> c.SelOk())
  {
    hide Buckets, CellKeys, CellNames;
    assert old(t.first)[i].tpl in old(t.repr);
  }

  /** Only the level's own fields changed, not its sections. */
  twostate lemma OwnChanged(new t: Template)
    requires old(allocated(t)) && old(t.Valid())
    requires t.fields == Buckets(CellKeys(t.cells))
    requires t.first == old(t.first) && t.sections == old(t.sections) && t.repr == old(t.repr)
    requires forall u | u in old(t.repr) && u != t :: unchanged(u)
    ensures t.Valid() && t.Abs() == Tpl(t.head, t.cells, old(t.Abs()).secs, t.added, t.sel)
    ensures (forall i | 0 <= i < |t.first| :: old(t.first[i].tpl.SelOk())) ==>
      (forall i | 0 <= i < |t.first| :: t.first[i].tpl.SelOk())
  {
    hide Buckets, CellKeys, CellNames;
    forall i | 0 <= i < |t.first|
      ensures var c := t.first[i].tpl;
        && c.Valid() && c.repr == old(c.repr) && c.repr <= old(t.repr) && c in old(t.repr) && t !in c.repr
        && c.Abs() == old(t.Abs()).secs[i].tpl && (old(c.SelOk()) ==> c.SelOk())
    {
      OldKid(t, i);
    }
    assert t.Valid();
    assert t.Abs().secs == old(t.Abs()).secs;
  }

  twostate lemma OwnAt(new t: Template, path: seq<nat>)
    requires old(allocated(t)) && old(t.Valid()) && t.Valid() && t.first == old(t.first)
    requires forall u | u in old(t.repr) && u != t :: unchanged(u)
    requires HasPath(old(t.Abs()), path)
    ensures HasPath(t.Abs(), path) && t.At(path) == old(t.At(path))
  {
    hide Buckets, CellKeys, CellNames;
    if path != [] {
      var c := old(t.first)[path[0]].tpl;
      assert c in old(t.repr) && old(c.Abs()) == old(t.Abs()).secs[path[0]].tpl;
      assert c.Abs() == old(c.Abs()) && c.At(path[1..]) == old(c.At(path[1..]));
    }
  }

  // --- framing: what a change inside one subtree leaves alone

  /** Only the subtree of child k changed, and it is still valid with the same footprint. */
  twostate lemma {:induction false} OneUp(new t: Template, k: nat)
    requires old(allocated(t)) && old(t.Valid()) && k < |old(t.first)|
    requires unchanged(t)
    requires var c := old(t.first)[k].tpl; c.Valid() && c.repr == old(c.repr)
    requires forall u | u in old(t.repr) && u !in old(t.first[k].tpl.repr) :: unchanged(u)
    ensures t.Valid()
    ensures t.Abs() == SetChild(old(t.Abs()), k, old(t.first)[k].tpl.Abs())
  {
    hide Buckets, CellKeys, CellNames;
    forall i | 0 <= i < |t.first| && i != k
      ensures t.first[i].tpl.Valid() && t.first[i].tpl.repr == old(t.first[i].tpl.repr)
      ensures t.first[i].tpl.Abs() == old(t.Abs()).secs[i].tpl
    {
      var c := t.first[i].tpl;
      assert c in old(t.repr) && c in old(c.repr);
      assert old(c.repr) !! old(t.first[k].tpl.repr);
      assert unchanged(c);
      assert c.Valid();
    }
    assert t.Valid();
    var a, b := old(t.Abs()), t.Abs();
    assert forall i | 0 <= i < |t.first| :: b.secs[i].tpl == t.first[i].tpl.Abs();
  }

  /** Only the subtree at the end of path changed. */
  twostate lemma {:induction false} Kept(new t: Template, path: seq<nat>, new target: Template)
    requires old(allocated(t)) && old(allocated(target)) && old(t.Valid())
    requires HasPath(old(t.Abs()), path) && target == old(t.At(path))
    requires forall u | u in old(t.repr) && u !in old(target.repr) :: unchanged(u)
    requires target.Valid() && target.repr == old(target.repr)
    ensures t.Valid() && t.repr == old(t.repr)
    ensures t.Abs() == Replace(old(t.Abs()), path, target.Abs())
    decreases path
  {
    hide Buckets, CellKeys, CellNames;
    if path != [] {
      var c := old(t.first)[path[0]].tpl;
      assert target == old(c.At(path[1..]));
      assert t !in old(target.repr);
      assert c in old(t.repr) && old(allocated(c));
      assert old(target.repr) <= old(c.repr) <= old(t.repr);
      Kept(c, path[1..], target);
      OneUp(t, path[0]);
    }
  }

  /** With the same sections in every level, paths lead to the same levels. */
  twostate lemma {:induction false} AtKept(new t: Template, path: seq<nat>)
    requires old(allocated(t)) && old(t.Valid()) && t.Valid() && HasPath(old(t.Abs()), path)
    requires forall u | u in old(t.repr) :: u.first == old(u.first) && u.repr == old(u.repr)
    ensures HasPath(t.Abs(), path) && t.At(path) == old(t.At(path))
    decreases path
  {
    hide Buckets, CellKeys, CellNames;
    assert t in old(t.repr);
    if path != [] {
      var c := old(t.first)[path[0]].tpl;
      assert old(allocated(c)) && old(c.repr) <= old(t.repr);
      assert old(c.Abs()) == old(t.Abs()).secs[path[0]].tpl;
      AtKept(c, path[1..]);
    }
  }

  /** With the same sections in every level, the selections are still right if every level that changed its own
      has it right. */
  twostate lemma {:induction false} SelKept(new t: Template)
    requires old(allocated(t)) && old(t.Valid() && t.SelOk()) && t.Valid()
    requires forall u | u in old(t.repr) :: u.first == old(u.first) && u.repr == old(u.repr)
    requires forall u | u in old(t.repr) ::
      (u.tpl == old(u.tpl) && u.sel == old(u.sel)) || (u.Valid() && HasPath(u.Abs(), u.sel) && u.tpl == u.At(u.sel))
    ensures t.SelOk()
    decreases old(t.repr)
  {
    hide Buckets, CellKeys, CellNames;
    assert t in old(t.repr);
    if t.tpl == old(t.tpl) && t.sel == old(t.sel) { AtKept(t, t.sel); }
    forall i | 0 <= i < |t.first| ensures t.first[i].tpl.SelOk() {
      var c := t.first[i].tpl;
      assert old(c.repr) <= old(t.repr);
      SelKept(c);
    }
  }

  /** The levels along a path have the right selections. */
  lemma {:induction false} SelBelow(t: Template, path: seq<nat>)
    requires t.Valid() && t.SelOk() && HasPath(t.Abs(), path)
    ensures t.At(path).SelOk()
    decreases path
  {
    hide Buckets, CellKeys, CellNames;
    if path != [] { SelBelow(t.first[path[0]].tpl, path[1..]); }
  }

  /** A path to or above the changed subtree leads to the same level. */
  twostate lemma {:induction false} AtAlong(new t: Template, new path: seq<nat>, new n: nat, new target: Template)
    requires old(allocated(t)) && old(allocated(target)) && old(t.Valid()) && t.Valid() && n <= |path|
    requires HasPath(old(t.Abs()), path) && HasPath(old(t.Abs()), path[..n]) && target == old(t.At(path))
    requires forall u | u in old(t.repr) && u !in old(target.repr) :: unchanged(u)
    ensures HasPath(t.Abs(), path[..n]) && t.At(path[..n]) == old(t.At(path[..n]))
    decreases path
  {
    hide Buckets, CellKeys, CellNames;
    if n != 0 {
      var c, rest := old(t.first)[path[0]].tpl, path[1..];
      assert t !in old(target.repr) && unchanged(t);
      assert c in old(t.repr) && old(allocated(c)) && target == old(c.At(rest));
      assert path[..n][1..] == rest[..n - 1];
      AtAlong(c, rest, n - 1, target);
    }
  }

  /** Selections stay right when those on the way to a changed subtree do not reach into it. */
  twostate lemma {:induction false} SelKeptAlong(new t: Template, path: seq<nat>, new target: Template)
    requires old(allocated(t)) && old(allocated(target)) && old(t.Valid() && t.SelOk()) && t.Valid()
    requires HasPath(old(t.Abs()), path) && target == old(t.At(path)) && SelAlong(old(t.Abs()), path)
    requires forall u | u in old(t.repr) && u !in old(target.repr) :: unchanged(u)
    requires target.Valid() && target.SelOk()
    ensures t.SelOk()
    decreases path
  {
    hide Buckets, CellKeys, CellNames;
    if path != [] {
      var c := old(t.first)[path[0]].tpl;
      assert t !in old(target.repr) && unchanged(t);
      assert c in old(t.repr) && old(allocated(c)) && target == old(c.At(path[1..]));
      assert old(target.repr) <= old(c.repr) <= old(t.repr);
      SelKeptAlong(c, path[1..], target);
      assert t.sel == path[..|t.sel|];
      AtAlong(t, path, |t.sel|, target);
      SelUp(t, path[0]);
    }
  }

  /** Section k's selections are right, the other sections and the level itself did not change. */
  twostate lemma SelUp(new t: Template, k: nat)
    requires old(allocated(t)) && old(t.Valid() && t.SelOk()) && t.Valid() && unchanged(t)
    requires k < |t.first| && t.first[k].tpl.SelOk() && HasPath(t.Abs(), t.sel) && t.tpl == t.At(t.sel)
    requires forall u | u in old(t.repr) && u !in old(t.first[k].tpl.repr) :: unchanged(u)
    ensures t.SelOk()
  {
    hide Buckets, CellKeys, CellNames;
    forall i | 0 <= i < |t.first| && i != k ensures t.first[i].tpl.SelOk() {
      SiblingKept(t, k, i, old(t.first)[k].tpl);
    }
  }

  twostate lemma SiblingKept(new t: Template, new k: nat, new i: nat, new target: Template)
    requires old(allocated(t)) && old(allocated(target)) && old(t.Valid() && t.SelOk()) && t.Valid() && unchanged(t)
    requires k < |t.first| && i < |t.first| && i != k && old(target.repr) <= old(t.first[k].tpl.repr)
    requires forall u | u in old(t.repr) && u !in old(target.repr) :: unchanged(u)
    ensures t.first[i].tpl.SelOk()
  {
    var c := t.first[i].tpl;
    assert old(c.repr) !! old(t.first[k].tpl.repr) && old(c.repr) <= old(t.repr);
    assert c in old(c.repr) && unchanged(c);
  }

  /** A section that points at itself changed; the others and the level's own pointer are as before. */
  twostate lemma SelBeside(new t: Template, k: nat)
    requires old(allocated(t)) && old(t.Valid() && t.SelOk()) && t.Valid() && unchanged(t) && t.sel == []
    requires k < |t.first| && var c := t.first[k].tpl; c.first == [] && c.sel == [] && c.tpl == c
    requires forall u | u in old(t.repr) && u !in old(t.first[k].tpl.repr) :: unchanged(u)
    ensures t.SelOk()
  {
    SelUp(t, k);
  }
}
