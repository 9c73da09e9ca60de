/** A template text as a list of items, and the two directions between text and items. */
module Items {
  import opened Search
  import opened Markup

  datatype Item =
    | Text(s: string)
    | Field(name: string)
    | Section(name: string, body: seq<Item>)

  /** The template text that an item list stands for. */
  function Source(items: seq<Item>): string {
    if items == [] then "" else ItemSource(items[0]) + Source(items[1..])
  }

  function ItemSource(item: Item): string {
    match item
    case Text(s) => s
    case Field(name) => LEFT + name + RIGHT
    case Section(name, body) => Tag(name) + Source(body) + Tag(name)
  }

  function TextIfAny(s: string): seq<Item> {
    if s == "" then [] else [Text(s)]
  }

  /** Splits a text into items; None is the syntax error. */
  function Scan(r: string): Option<seq<Item>>
    decreases |r|
  {
    match CutOf(r)
    case Plain => Some(TextIfAny(r))
    case Broken => None
    case FieldCut(text, name, tail) =>
      Prepend(TextIfAny(text), Some(Field(name)), Scan(tail))
    case SectionCut(text, name, body, tail) =>
      var inner := Scan(body);
      Prepend(TextIfAny(text), if inner.None? then None else Some(Section(name, inner.value)), Scan(tail))
  }

  function Prepend(text: seq<Item>, item: Option<Item>, rest: Option<seq<Item>>): Option<seq<Item>> {
    if item.Some? && rest.Some? then Some(text + [item.value] + rest.value) else None
  }

  // --- text to items to text

  lemma SourceConcat(a: seq<Item>, b: seq<Item>)
    ensures Source(a + b) == Source(a) + Source(b)
  {
    if a == [] {
      assert a + b == b;
    } else {
      assert (a + b)[1..] == a[1..] + b;
      SourceConcat(a[1..], b);
    }
  }

  lemma SourceOne(item: Item)
    ensures Source([item]) == ItemSource(item)
  {
    assert Source([item][1..]) == "";
  }

  lemma TwoFieldsSource(items: seq<Item>)
    requires |items| == 2 && items[0].Field? && items[1].Field?
    ensures Source(items) == LEFT + items[0].name + RIGHT + LEFT + items[1].name + RIGHT
  {
    SourceOne(items[0]);
    SourceOne(items[1]);
    SourceConcat([items[0]], [items[1]]);
    assert items == [items[0]] + [items[1]];
  }

  lemma FrontSource(text: string, item: Item, rest: seq<Item>)
    ensures Source(TextIfAny(text) + [item] + rest) == text + ItemSource(item) + Source(rest)
  {
    SourceConcat(TextIfAny(text) + [item], rest);
    SourceConcat(TextIfAny(text), [item]);
    SourceOne(item);
    if text != "" { SourceOne(Text(text)); }
  }

  /** Nothing of the text is lost or invented: what is scanned writes back to the input. */
  lemma {:induction false} ScanSound(r: string)
    requires Scan(r).Some?
    ensures Source(Scan(r).value) == r
    decreases |r|
  {
    hide CutOf, Tag;
    match CutOf(r) {
      case Plain =>
        if r != "" { SourceOne(Text(r)); }
      case FieldCut(text, name, tail) =>
        ScanSound(tail);
        FrontSource(text, Field(name), Scan(tail).value);
        Regroup(text, LEFT, name, RIGHT, tail);
        FieldCutSource(r);
      case SectionCut(text, name, body, tail) =>
        ScanSound(body);
        ScanSound(tail);
        FrontSource(text, Section(name, Scan(body).value), Scan(tail).value);
        RegroupSection(text, Tag(name), body, tail);
        SectionCutSource(r);
    }
  }

  // --- items to text to items

  /** No accidental delimiters: every item is written so that it is read back as itself.
      A text is not empty, holds no "$<", and does not run into what follows it; names hold
      no '>'; a section body does not hold the section's own tag. */
  predicate Canonical(items: seq<Item>) {
    items != [] ==>
      && Canonical(items[1..])
      && match items[0]
       case Text(s) => s != "" && !Occurs(s, LEFT) && (|items| == 1 || KeepsApart(s, items[1], items[2..]))
       case Field(name) => '>' !in name
       case Section(name, body) => '>' !in name && !Occurs(Source(body), Tag(name)) && Canonical(body)
  }

  predicate KeepsApart(s: string, next: Item, rest: seq<Item>) {
    match next
    case Text(_) => false
    case Field(_) => !(EndsWith(s, TAG_OPEN) && StartsWith(Source(rest), TAG_CLOSE))
    case Section(_, _) => !EndsWith(s, "$")
  }

  lemma NoLeftPlain(s: string)
    requires !Occurs(s, LEFT)
    ensures CutOf(s) == Plain
  {
    FirstAtSpec(s, LEFT, 0);
  }

  lemma RegroupSection(a: string, t: string, b: string, c: string)
    ensures a + (t + b + t) + c == a + t + (b + t + c)
  {
  }

  lemma Associate<T>(a: seq<T>, b: seq<T>, c: seq<T>)
    ensures a + (b + c) == a + b + c
  {
  }

  lemma ScanFrontField(text: string, name: string, rest: seq<Item>)
    requires FieldClean(text, name, Source(rest)) && Scan(Source(rest)) == Some(rest)
    ensures Scan(text + ItemSource(Field(name)) + Source(rest)) == Some(TextIfAny(text) + [Field(name)] + rest)
  {
    hide CutOf, FieldClean;
    FieldBack(text, name, Source(rest));
    Regroup(text, LEFT, name, RIGHT, Source(rest));
    assert text + ItemSource(Field(name)) + Source(rest) == FieldSource(text, name, Source(rest));
  }

  lemma ScanFrontSection(text: string, name: string, body: seq<Item>, rest: seq<Item>)
    requires SectionClean(text, name, Source(body))
    requires Scan(Source(rest)) == Some(rest) && Scan(Source(body)) == Some(body)
    ensures Scan(text + ItemSource(Section(name, body)) + Source(rest))
         == Some(TextIfAny(text) + [Section(name, body)] + rest)
  {
    hide CutOf, Tag, SectionClean;
    SectionBack(text, name, Source(body), Source(rest));
    RegroupSection(text, Tag(name), Source(body), Source(rest));
    assert text + ItemSource(Section(name, body)) + Source(rest)
      == SectionSource(text, name, Source(body), Source(rest));
  }

  lemma {:induction false} ScanFront(text: string, items: seq<Item>)
    requires items != [] && !items[0].Text? && Canonical(items)
    requires text != "" ==> !Occurs(text, LEFT) && KeepsApart(text, items[0], items[1..])
    requires Scan(Source(items[1..])) == Some(items[1..])
    requires items[0].Section? ==> Scan(Source(items[0].body)) == Some(items[0].body)
    ensures Scan(text + Source(items)) == Some(TextIfAny(text) + items)
  {
    CleanFront(text, items);
    hide CutOf, Tag, Scan, FieldClean, SectionClean, Canonical, KeepsApart, ItemSource;
    match items[0] {
      case Field(name) => ScanFrontField(text, name, items[1..]);
      case Section(name, body) => ScanFrontSection(text, name, body, items[1..]);
    }
    Associate(text, ItemSource(items[0]), Source(items[1..]));
    Associate(TextIfAny(text), [items[0]], items[1..]);
    assert [items[0]] + items[1..] == items;
  }

  lemma CleanFront(text: string, items: seq<Item>)
    requires items != [] && !items[0].Text? && Canonical(items)
    requires text != "" ==> !Occurs(text, LEFT) && KeepsApart(text, items[0], items[1..])
    ensures items[0].Field? ==> FieldClean(text, items[0].name, Source(items[1..]))
    ensures items[0].Section? ==> SectionClean(text, items[0].name, Source(items[0].body))
  {
    hide Source, Tag;
    if text == "" { assert !Occurs("", LEFT); }
  }

  /** A canonical list is rebuilt from its own text. */
  lemma {:induction false} CanonicalScans(items: seq<Item>)
    requires Canonical(items)
    ensures Scan(Source(items)) == Some(items)
    decreases items
  {
    hide CutOf, Tag;
    if items == [] {
      assert !Occurs("", LEFT);
      NoLeftPlain("");
    } else if items[0].Text? {
      var s := items[0].s;
      if |items| == 1 {
        assert items == [Text(s)];
        SourceOne(items[0]);
        NoLeftPlain(s);
      } else {
        var rest := items[1..];
        assert rest[0] == items[1] && rest[1..] == items[2..];
        CanonicalScans(rest[1..]);
        if rest[0].Section? { CanonicalScans(rest[0].body); }
        ScanFront(s, rest);
        assert items == [items[0]] + rest;
      }
    } else {
      CanonicalScans(items[1..]);
      if items[0].Section? { CanonicalScans(items[0].body); }
      ScanFront("", items);
      assert "" + Source(items) == Source(items);
      assert [] + items == items;
    }
  }

  /** Every scanned list is canonical, so the conditions above leave out no readable list. */
  lemma {:induction false} ScanCanonical(r: string)
    requires Scan(r).Some?
    ensures Canonical(Scan(r).value)
    decreases |r|
  {
    match CutOf(r) {
      case Plain =>
        FirstAtSpec(r, LEFT, 0);
        assert !Occurs(r, LEFT);
      case FieldCut(text, name, tail) =>
        ScanCanonical(tail);
        ScanSound(tail);
        FieldCutClean(r);
        FrontCanonical(text, Field(name), Scan(tail).value);
      case SectionCut(text, name, body, tail) =>
        ScanCanonical(tail);
        ScanCanonical(body);
        ScanSound(body);
        SectionCutClean(r);
        FrontCanonical(text, Section(name, Scan(body).value), Scan(tail).value);
    }
  }

  lemma FrontCanonical(text: string, item: Item, rest: seq<Item>)
    requires Canonical(rest) && !item.Text?
    requires '>' !in item.name
    requires item.Section? ==> !Occurs(Source(item.body), Tag(item.name)) && Canonical(item.body)
    requires text != "" ==> !Occurs(text, LEFT) && KeepsApart(text, item, rest)
    ensures Canonical(TextIfAny(text) + [item] + rest)
  {
    var back := [item] + rest;
    assert back[0] == item && back[1..] == rest;
    assert Canonical(back);
    var all := TextIfAny(text) + [item] + rest;
    if text == "" {
      assert all == back;
    } else {
      assert all == [Text(text)] + back;
      assert all[1..] == back && all[2..] == rest;
    }
  }

  /** The lists that survive being written and read again are exactly the canonical ones. */
  lemma {:induction false} RoundTripIff(items: seq<Item>)
    ensures Scan(Source(items)) == Some(items) <==> Canonical(items)
  {
    if Canonical(items) {
      CanonicalScans(items);
    } else if Scan(Source(items)) == Some(items) {
      ScanCanonical(Source(items));
      assert false;
    }
  }
}
