/** Names the tables can hold, from the text to every later state of the template. */
module Naming {
  import opened Search
  import opened Names
  import opened Markup
  import opened Items
  import opened Tree
  import opened Ops
  import opened Runs
  import opened Cursor

  /** Every field and section of every level has a non-empty name free of NUL bytes. */
  predicate Named(t: Tpl) {
    && (forall c | 0 <= c < |t.cells| :: NameOk(t.cells[c].key))
    && forall i | 0 <= i < |t.secs| :: NameOk(t.secs[i].key) && Named(t.secs[i].tpl)
  }

  predicate ItemsNamed(items: seq<Item>)
    decreases items
  {
    items == [] || (ItemNamed(items[0]) && ItemsNamed(items[1..]))
  }

  predicate ItemNamed(item: Item) {
    match item
    case Text(_) => true
    case Field(name) => NameOk(name)
    case Section(name, body) => NameOk(name) && ItemsNamed(body)
  }

  // --- from the text

  lemma {:induction false} NamedConcat(a: seq<Item>, b: seq<Item>)
    requires ItemsNamed(a) && ItemsNamed(b)
    ensures ItemsNamed(a + b)
  {
    if a == [] {
      assert a + b == b;
    } else {
      assert (a + b)[1..] == a[1..] + b;
      NamedConcat(a[1..], b);
    }
  }

  lemma NamedFront(text: string, item: Item, rest: seq<Item>)
    requires ItemNamed(item) && ItemsNamed(rest)
    ensures ItemsNamed(TextIfAny(text) + [item] + rest)
  {
    assert ([item] + rest)[0] == item && ([item] + rest)[1..] == rest;
    assert ItemsNamed([item] + rest);
    assert ItemsNamed(TextIfAny(text)) by {
      if text != "" { assert [Text(text)][1..] == [] && ItemNamed(Text(text)); }
    }
    NamedConcat(TextIfAny(text), [item] + rest);
    assert TextIfAny(text) + [item] + rest == TextIfAny(text) + ([item] + rest);
  }

  lemma CutNamed(r: string)
    requires NamesOk(r)
    ensures match CutOf(r)
      case FieldCut(_, name, tail) => NameOk(name) && NamesOk(tail)
      case SectionCut(_, name, body, tail) => NameOk(name) && NamesOk(body) && NamesOk(tail)
      case _ => true
  {
    hide NameOk;
    if FirstAt(r, LEFT, 0).Some? && FirstAt(r, RIGHT, FirstAt(r, LEFT, 0).value + 2).Some? {
      var d := FirstAt(r, LEFT, 0).value;
      var e := FirstAt(r, RIGHT, d + 2).value;
      hide CutOf, FirstAt, IsSectionTag;
      if IsSectionTag(r, d, e) { CutIsSection(r, d, e); } else { CutIsField(r, d, e); }
    }
  }

  lemma {:induction false} ScanNamed(r: string)
    requires NamesOk(r) && Scan(r).Some?
    ensures ItemsNamed(Scan(r).value)
    decreases |r|
  {
    CutNamed(r);
    hide NamesOk, NameOk;
    match CutOf(r) {
      case Plain =>
      case Broken =>
      case FieldCut(text, name, tail) =>
        ScanNamed(tail);
        NamedFront(text, Field(name), Scan(tail).value);
      case SectionCut(text, name, body, tail) =>
        ScanNamed(tail);
        ScanNamed(body);
        NamedFront(text, Section(name, Scan(body).value), Scan(tail).value);
    }
  }

  lemma {:induction false} BuildNamed(t: Tpl, items: seq<Item>)
    requires Named(t) && ItemsNamed(items) && Build(t, items).Some?
    ensures Named(Build(t, items).value)
    decreases items
  {
    hide NameOk, Lookup;
    if items != [] {
      match items[0] {
        case Text(s) => BuildNamed(AddText(t, s), items[1..]);
        case Field(name) => BuildNamed(AddField(t, name), items[1..]);
        case Section(name, body) =>
          BuildNamed(EMPTY, body);
          BuildNamed(AddSection(t, name, Build(EMPTY, body).value), items[1..]);
      }
    }
  }

  lemma {:induction false} ParseNamed(r: string)
    requires NamesOk(r) && Parse(r).Some?
    ensures Named(Parse(r).value)
  {
    ScanNamed(r);
    BuildNamed(EMPTY, Scan(r).value);
  }

  // --- over runs

  lemma {:induction false} SubNamed(t: Tpl, path: seq<nat>)
    requires Named(t) && HasPath(t, path)
    ensures Named(Sub(t, path))
    decreases path
  {
    if path != [] { SubNamed(t.secs[path[0]].tpl, path[1..]); }
  }

  lemma {:induction false} ReplaceNamed(t: Tpl, path: seq<nat>, x: Tpl)
    requires Named(t) && HasPath(t, path) && Named(x)
    ensures Named(Replace(t, path, x))
    decreases path
  {
    hide NameOk;
    if path != [] { ReplaceNamed(t.secs[path[0]].tpl, path[1..], x); }
  }

  lemma {:induction false} ResetNamed(t: Tpl)
    requires Named(t)
    ensures Named(Reset(t))
    decreases t
  {
    hide NameOk;
    forall i | 0 <= i < |t.secs| ensures NameOk(Reset(t).secs[i].key) && Named(Reset(t).secs[i].tpl) {
      ResetNamed(t.secs[i].tpl);
    }
  }

  lemma SetFieldNamed(t: Tpl, key: string, val: string)
    requires Named(t) && HasPath(t, t.sel)
    ensures Named(SetField(t, key, val))
  {
    SubNamed(t, t.sel);
    assert Named(SetCell(Sub(t, t.sel), key, val));
    ReplaceNamed(t, t.sel, SetCell(Sub(t, t.sel), key, val));
  }

  lemma {:induction false} GlobalNamed(t: Tpl, key: string, val: string)
    requires Named(t) && AllSel(t)
    ensures Named(SetGlobal(t, key, val))
    decreases Height(t)
  {
    hide NameOk;
    SetFieldNamed(t, key, val);
    ReplaceCells(t, t.sel, SetCell(Sub(t, t.sel), key, val));
    var s, u := SetField(t, key, val), SetGlobal(t, key, val);
    hide SetCell, Replace, Sub;
    forall i | 0 <= i < |u.secs| ensures NameOk(u.secs[i].key) && Named(u.secs[i].tpl) {
      ChildLower(s, i, |s.secs|);
      GlobalNamed(s.secs[i].tpl, key, val);
    }
  }

  lemma AppendedNamed(t: Tpl)
    requires Named(t)
    ensures Named(Appended(t))
  {
    hide NameOk, Pieces;
  }

  lemma LevelNamed(t: Tpl, sel: seq<nat>)
    requires Named(t)
    ensures Named(t.(sel := sel))
  {
    hide NameOk;
  }

  lemma WithTextNamed(s: Tpl, j: nat, val: string)
    requires Named(s) && j < |s.secs|
    ensures Named(SetChild(s, j, WithText(s.secs[j].tpl, val)))
  {
    hide NameOk;
  }

  lemma SelectNamed(t: Tpl, key: string)
    requires Named(t) && HasPath(t, t.sel)
    ensures Named(Select(t, key).0)
  {
    hide NameOk, Named, Sub, Replace;
    SubNamed(t, t.sel);
    var s := Sub(t, t.sel);
    match Lookup(SecKeys(s.secs), key) {
      case None =>
      case Some(j) =>
        LevelNamed(s, [j]);
        ReplaceNamed(t, t.sel, s.(sel := [j]));
        LevelNamed(Replace(t, t.sel, s.(sel := [j])), t.sel + [j]);
    }
  }

  lemma DeselectNamed(t: Tpl)
    requires Named(t) && HasPath(t, t.sel)
    ensures Named(Deselect(t).0)
  {
    hide NameOk, Named, Sub, Replace;
    if t.sel != [] {
      var up := t.sel[..|t.sel| - 1];
      PathPrefix(t, t.sel, |t.sel| - 1);
      SubNamed(t, up);
      LevelNamed(Sub(t, up), []);
      ReplaceNamed(t, up, Sub(t, up).(sel := []));
      LevelNamed(Replace(t, up, Sub(t, up).(sel := [])), up);
    }
  }

  lemma {:induction false} StepNamed(t: Tpl, op: Op)
    requires Named(t) && Allowed(t, op)
    ensures Named(Step(t, op).0)
  {
    hide NameOk, Named, Replace, SetGlobal, Reset, WithText, Appended, SetChild;
    assert HasPath(t, t.sel);
    SubNamed(t, t.sel);
    var s := Sub(t, t.sel);
    match op {
      case SelectOp(key) => SelectNamed(t, key);
      case DeselectOp => DeselectNamed(t);
      case SetFieldOp(key, val) => SetFieldNamed(t, key, val);
      case SetGlobalOp(key, val) => GlobalNamed(t, key, val);
      case AppendOp =>
        AppendedNamed(s);
        ReplaceNamed(t, t.sel, Appended(s));
      case SetSectionOp(key, val) =>
        match Lookup(SecKeys(s.secs), key) {
          case None =>
          case Some(j) =>
            if j < |s.secs| {
              WithTextNamed(s, j, val);
              ReplaceNamed(t, t.sel, SetChild(s, j, WithText(s.secs[j].tpl, val)));
            }
        }
      case ResetOp => ResetNamed(t);
    }
  }

  /** Whatever is done to a template parsed from such a text, its names stay such names. */
  lemma {:induction false} RunNamed(t: Tpl, ops: seq<Op>)
    requires Named(t) && AllowedRun(t, ops)
    ensures Named(Run(t, ops))
    decreases ops
  {
    if ops != [] {
      StepNamed(t, ops[0]);
      RunNamed(Step(t, ops[0]).0, ops[1..]);
    }
  }
}
