/** Setting a field everywhere in a freshly parsed template. */
module Filling {
  import opened Names
  import opened Items
  import opened Tree
  import opened Render
  import opened Ops
  import opened RoundTrip
  import opened Runs

  /** The items as a text with every field named key replaced by val, other fields empty and
      sections removed. */
  function Filled(items: seq<Item>, key: string, val: string): string {
    if items == [] then ""
    else Filled(items[..|items| - 1], key, val) + FilledItem(items[|items| - 1], key, val)
  }

  function FilledItem(item: Item, key: string, val: string): string {
    match item
    case Text(s) => s
    case Field(name) => if name == key then val else ""
    case Section(_, _) => ""
  }

  lemma FilledNext(items: seq<Item>, item: Item, key: string, val: string)
    ensures Filled(items + [item], key, val) == Filled(items, key, val) + FilledItem(item, key, val)
  {
    assert (items + [item])[..|items|] == items;
  }

  lemma FilledNone(key: string, val: string)
    ensures Filled([], key, val) == ""
  {
  }

  /** On clear names, a lookup of key is exact if and only if key is one of them or begins none of its bucket. */
  lemma ExactOnClear(names: seq<string>, key: string)
    requires NamesClear(names)
    ensures Exact(Stored(names), key) <==> key in names || forall n <- names :: !Hit(n, key)
  {
    var keys := Stored(names);
    ClearStored(names);
    StoredPrefix(names, |names|);
    assert names[..|names|] == names;
    LookupSpec(keys, key);
    hide Stored, Lookup, Hit, AllIn;
    if key in names {
      Belongs(names, keys, key);
      StoredSeparate(names);
      var j :| 0 <= j < |keys| && keys[j] == key;
      StoredFound(keys, j, |keys|);
      assert keys[..|keys|] == keys;
    } else if Lookup(keys, key).Some? {
      Belongs(keys, names, keys[Lookup(keys, key).value]);
    } else {
      forall n <- names ensures !Hit(n, key) {
        Belongs(names, keys, n);
        var j :| 0 <= j < |keys| && keys[j] == n;
      }
    }
  }

  lemma {:induction false} StoredSeparate(names: seq<string>)
    ensures Separate(Stored(names))
  {
    if names != [] {
      var init, n := names[..|names| - 1], names[|names| - 1];
      StoredSeparate(init);
      if Lookup(Stored(init), n).None? { SeparateExtended(Stored(init), n); }
    }
  }

  // --- with nothing selected, every level sets its own cell

  lemma PristineLevel(t: Tpl, key: string, val: string)
    requires Pristine(t)
    ensures AllSel(t) && SetField(t, key, val) == SetCell(t, key, val)
    ensures forall i | 0 <= i < |t.secs| :: AllSel(t.secs[i].tpl)
    ensures |SetGlobal(t, key, val).secs| == |t.secs|
    ensures forall i | 0 <= i < |t.secs| ::
      SetGlobal(t, key, val).secs[i] == t.secs[i].(tpl := SetGlobal(t.secs[i].tpl, key, val))
    ensures SetGlobal(t, key, val).nodes == t.nodes && SetGlobal(t, key, val).cells == SetCell(t, key, val).cells
  {
    PristineUnselected(t);
    ChildrenAllSel(t, []);
    ReplaceCells(t, t.sel, SetCell(t, key, val));
    hide SetCell, AllSel;
  }

  lemma {:induction false} GlobalAt(t: Tpl, key: string, val: string, path: seq<nat>)
    requires Pristine(t) && HasPath(t, path)
    ensures Pristine(Sub(t, path)) && AllSel(t) && AllSel(Sub(t, path))
    ensures HasPath(SetGlobal(t, key, val), path)
    ensures Sub(SetGlobal(t, key, val), path) == SetGlobal(Sub(t, path), key, val)
    decreases path
  {
    PristineLevel(t, key, val);
    hide SetGlobal, AllSel;
    if path != [] {
      GlobalAt(t.secs[path[0]].tpl, key, val, path[1..]);
    }
  }

  /** A cell holds the value if and only if it has the name. */
  lemma FilledCell(t: Tpl, key: string, val: string, c: nat)
    requires Separate(CellKeys(t.cells)) && Exact(CellKeys(t.cells), key) && c < |t.cells|
    requires t.cells[c].val == ""
    ensures |SetCell(t, key, val).cells| == |t.cells|
    ensures SetCell(t, key, val).cells[c].val == if t.cells[c].key == key then val else ""
  {
    var keys := CellKeys(t.cells);
    LookupSpec(keys, key);
    StoredFound(keys, c, |keys|);
    assert keys[c] == t.cells[c].key;
  }

  lemma {:induction false} FilledTo(t: Tpl, u: Tpl, key: string, val: string, n: nat, i: nat)
    requires n <= |t.nodes| && i <= |t.secs| && u.nodes == t.nodes && |u.secs| == |t.secs| && |u.cells| == |t.cells|
    requires forall j | 0 <= j < |t.secs| :: u.secs[j].pos == t.secs[j].pos && u.secs[j].tpl.added == []
    requires forall k | 0 <= k < |t.nodes| && t.nodes[k].FieldNode? :: t.nodes[k].cell < |t.cells|
    requires forall c | 0 <= c < |t.cells| :: u.cells[c].val == if t.cells[c].key == key then val else ""
    ensures ContentTo(u, n, i) == Filled(OutlineTo(t, n, i), key, val)
    decreases n + i
  {
    hide Filled, Outline;
    if n == 0 && i == 0 {
      FilledNone(key, val);
    } else if i > 0 && t.secs[i - 1].pos >= n {
      FilledTo(t, u, key, val, n, i - 1);
      FilledNext(OutlineTo(t, n, i - 1), Section(t.secs[i - 1].key, Outline(t.secs[i - 1].tpl)), key, val);
      assert Concat(u.secs[i - 1].tpl.added) == "";
    } else if n > 0 {
      FilledTo(t, u, key, val, n - 1, i);
      FilledNext(OutlineTo(t, n - 1, i), NodeItem(t, t.nodes[n - 1]), key, val);
    }
  }

  lemma GlobalFillsLevel(t: Tpl, key: string, val: string)
    requires WellFormed(t) && Pristine(t) && Exact(CellKeys(t.cells), key)
    ensures AllSel(t) && Content(SetGlobal(t, key, val)) == Filled(Outline(t), key, val)
  {
    PristineLevel(t, key, val);
    var u := SetGlobal(t, key, val);
    forall c | 0 <= c < |t.cells|
      ensures |u.cells| == |t.cells| && u.cells[c].val == if t.cells[c].key == key then val else ""
    {
      assert t.cells[c] in t.cells;
      FilledCell(t, key, val, c);
    }
    forall k | 0 <= k < |t.nodes| && t.nodes[k].FieldNode? ensures t.nodes[k].cell < |t.cells| {
      CellInRange(t, k);
    }
    forall j | 0 <= j < |t.secs| ensures u.secs[j].tpl.added == [] {
      PristineLevel(t.secs[j].tpl, key, val);
      GlobalKeeps(t.secs[j].tpl, key, val, []);
    }
    hide SetGlobal, AllSel, Exact, Separate, WellFormed, Pristine, SetCell;
    FilledTo(t, u, key, val, |t.nodes|, |t.secs|);
  }

  /** Setting key globally reaches the level at path of a freshly parsed template: it renders as
      its own items with key filled in, provided the lookup of key is exact there. */
  lemma {:induction false} GlobalFills(r: string, key: string, val: string, path: seq<nat>)
    requires Parse(r).Some? && HasPath(Parse(r).value, path)
    requires Exact(CellKeys(Sub(Parse(r).value, path).cells), key)
    ensures var t := Parse(r).value; AllSel(t) && var u := SetGlobal(t, key, val);
      HasPath(u, path) && Content(Sub(u, path)) == Filled(Outline(Sub(t, path)), key, val)
  {
    var t := Parse(r).value;
    ParseReads(r);
    GlobalAt(t, key, val, path);
    ReplaceWellFormed(t, path, Sub(t, path));
    GlobalFillsLevel(Sub(t, path), key, val);
  }

  /** When every name is answered exactly, items differ from what they are read as in section bodies only. */
  lemma {:induction false} RenamedAlike(keys: seq<string>, items: seq<Item>)
    requires AllExact(keys, FieldNames(items))
    ensures var r := Renamed(keys, items);
      |r| == |items| && forall k | 0 <= k < |items| :: if items[k].Section? then r[k].Section? else r[k] == items[k]
    decreases items
  {
    hide Lookup;
    FieldNamesOf(items);
    if items != [] {
      match items[0] {
        case Text(s) => RenamedAlike(keys, items[1..]);
        case Field(name) =>
          assert FieldNames(items)[1..] == FieldNames(items[1..]);
          RenamedAlike(Produced(keys, name), items[1..]);
        case Section(name, body) => RenamedAlike(keys, items[1..]);
      }
    }
  }

  lemma {:induction false} FilledAlike(a: seq<Item>, b: seq<Item>, key: string, val: string)
    requires |a| == |b| && forall k | 0 <= k < |a| :: if a[k].Section? then b[k].Section? else b[k] == a[k]
    ensures Filled(a, key, val) == Filled(b, key, val)
    decreases a
  {
    if a != [] { FilledAlike(a[..|a| - 1], b[..|b| - 1], key, val); }
  }

  /** With clear field names at the root, the whole template renders as its source text filled in. */
  lemma {:induction false} GlobalFillsText(r: string, key: string, val: string)
    requires Parse(r).Some? && NamesClear(FieldNames(Scan(r).value))
    requires var names := FieldNames(Scan(r).value); key in names || forall n <- names :: !Hit(n, key)
    ensures AllSel(Parse(r).value)
    ensures Content(SetGlobal(Parse(r).value, key, val)) == Filled(Scan(r).value, key, val)
  {
    hide NamesClear, AllExact, FieldNames, Stored, Hit, Exact, Filled, SetGlobal, AllSel, Content, Scan, WellFormed,
      Pristine, Build;
    var t, items := Parse(r).value, Scan(r).value;
    ParseReads(r);
    AllExactIff(FieldNames(items));
    ExactOnClear(FieldNames(items), key);
    ParsedKeys(r);
    GlobalFillsLevel(t, key, val);
    RenamedAlike([], items);
    FilledAlike(items, Renamed([], items), key, val);
  }

  /** The root's cells hold the names of the text's fields as the tables store them. */
  lemma ParsedKeys(r: string)
    requires Parse(r).Some?
    ensures CellKeys(Parse(r).value.cells) == Stored(FieldNames(Scan(r).value))
  {
    hide FieldNames;
    EmptyLevel();
    BuildKeys(EMPTY, Scan(r).value, []);
    assert [] + FieldNames(Scan(r).value) == FieldNames(Scan(r).value);
  }

  lemma {:induction false} BuildKeys(t: Tpl, items: seq<Item>, met: seq<string>)
    requires WellFormed(t) && Build(t, items).Some? && CellKeys(t.cells) == Stored(met)
    ensures CellKeys(Build(t, items).value.cells) == Stored(met + FieldNames(items))
    decreases items
  {
    hide Stored, WellFormed, Produced, Lookup, FieldNames;
    FieldNamesOf(items);
    if items == [] {
      assert met + [] == met;
    } else {
      var rest := items[1..];
      match items[0] {
        case Text(s) =>
          AddTextKeeps(t, s);
          BuildKeys(AddText(t, s), rest, met);
        case Field(name) =>
          AddFieldKeeps(t, name);
          StoredNext(met, name);
          BuildKeys(AddField(t, name), rest, met + [name]);
          assert met + [name] + FieldNames(rest) == met + FieldNames(items);
        case Section(name, body) =>
          EmptyLevel();
          ReadsBody(body);
          AddSectionKeeps(t, name, Build(EMPTY, body).value);
          BuildKeys(AddSection(t, name, Build(EMPTY, body).value), rest, met);
      }
    }
  }

  lemma StoredNext(met: seq<string>, name: string)
    ensures Stored(met + [name]) == Produced(Stored(met), name)
  {
    assert (met + [name])[..|met|] == met;
  }

  lemma FieldNamesOf(items: seq<Item>)
    ensures FieldNames(items) == if items == [] then []
      else if items[0].Field? then [items[0].name] + FieldNames(items[1..]) else FieldNames(items[1..])
  {
  }

  lemma ReadsBody(body: seq<Item>)
    requires Build(EMPTY, body).Some?
    ensures WellFormed(Build(EMPTY, body).value)
  {
    EmptyLevel();
    BuildReads(EMPTY, body);
  }
}
