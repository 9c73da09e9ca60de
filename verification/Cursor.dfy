/** Parsing from the middle of a text: what the parse loop has still to do. */
module Cursor {
  import opened Search
  import opened Names
  import opened Markup
  import opened Items
  import opened Tree
  import opened RoundTrip

  /** The rest of a text parsed onto a level that already holds what was read. */
  function ParseOn(t: Tpl, r: string): Option<Tpl> {
    match Scan(r)
    case None => None
    case Some(items) => Build(t, items)
  }

  function AddTextIfAny(t: Tpl, s: string): Tpl {
    if s == "" then t else AddText(t, s)
  }

  lemma BuildTextIfAny(t: Tpl, s: string)
    ensures Build(t, TextIfAny(s)) == Some(AddTextIfAny(t, s))
  {
    if s != "" { assert [Text(s)][1..] == []; }
  }

  lemma ParseOnEnd(t: Tpl, r: string)
    requires CutOf(r) == Plain
    ensures ParseOn(t, r) == Some(AddTextIfAny(t, r))
  {
    BuildTextIfAny(t, r);
  }

  lemma BuildFront(t: Tpl, text: string, item: Item, rest: seq<Item>)
    ensures Build(t, TextIfAny(text) + [item] + rest) == Build(AddTextIfAny(t, text), [item] + rest)
  {
    BuildTextIfAny(t, text);
    BuildConcat(t, TextIfAny(text), [item] + rest);
    assert TextIfAny(text) + [item] + rest == TextIfAny(text) + ([item] + rest);
  }

  lemma ParseOnField(t: Tpl, r: string, text: string, name: string, tail: string)
    requires CutOf(r) == FieldCut(text, name, tail)
    ensures ParseOn(t, r) == ParseOn(AddField(AddTextIfAny(t, text), name), tail)
  {
    hide CutOf, AddField;
    if Scan(tail).Some? {
      var rest := Scan(tail).value;
      BuildFront(t, text, Field(name), rest);
      assert ([Field(name)] + rest)[1..] == rest;
    }
  }

  lemma ParseOnSection(t: Tpl, r: string, text: string, name: string, body: string, tail: string)
    requires CutOf(r) == SectionCut(text, name, body, tail)
    ensures var u := AddTextIfAny(t, text);
      ParseOn(t, r) ==
      if Lookup(SecKeys(u.secs), name).Some? || Parse(body).None? then None
      else ParseOn(AddSection(u, name, Parse(body).value), tail)
  {
    hide CutOf, Lookup;
    if Scan(tail).Some? && Scan(body).Some? {
      var rest, inner := Scan(tail).value, Scan(body).value;
      BuildFront(t, text, Section(name, inner), rest);
      assert ([Section(name, inner)] + rest)[1..] == rest;
    }
  }

  // --- positions in the whole text

  lemma OccursShift(s: string, lo: nat, i: nat, pat: string)
    requires lo <= |s|
    ensures OccursAt(s[lo..], i, pat) <==> OccursAt(s, lo + i, pat)
  {
    if lo + i + |pat| <= |s| { assert s[lo..][i..i + |pat|] == s[lo + i..lo + i + |pat|]; }
  }

  lemma {:induction false} FirstAtShift(s: string, pat: string, lo: nat, k: nat)
    requires lo <= |s|
    ensures match FirstAt(s, pat, lo + k)
      case None => FirstAt(s[lo..], pat, k) == None
      case Some(x) => lo <= x && FirstAt(s[lo..], pat, k) == Some(x - lo)
    decreases |s| - lo - k
  {
    OccursShift(s, lo, k, pat);
    if lo + k + |pat| <= |s| && !OccursAt(s, lo + k, pat) {
      FirstAtShift(s, pat, lo, k + 1);
    }
  }

  /** No section head starts before a '>' and ends after it. */
  lemma HeadAfterRight(s: string, h: nat, at: nat)
    requires OccursAt(s, h, SECTION_HEAD) && at < |s| && s[at] == '>'
    ensures at < h || h + 7 <= at
  {
    if h <= at < h + 7 { CharsAt(s, h, SECTION_HEAD, at - h); }
  }

  // --- the first cut of what is left, in positions of the whole text

  lemma CutPlain(s: string, last: nat)
    requires last <= |s| && FirstAt(s, LEFT, last) == None
    ensures CutOf(s[last..]) == Plain
  {
    FirstAtShift(s, LEFT, last, 0);
  }

  lemma CutAt(s: string, last: nat, d: nat)
    requires last <= |s| && FirstAt(s, LEFT, last) == Some(d)
    ensures last <= d && d + 2 <= |s| && FirstAt(s[last..], LEFT, 0) == Some(d - last)
    ensures match FirstAt(s, RIGHT, d + 2)
      case None => FirstAt(s[last..], RIGHT, d - last + 2) == None
      case Some(e) => d + 2 <= e < |s| && FirstAt(s[last..], RIGHT, d - last + 2) == Some(e - last) && s[e] == '>'
  {
    hide FirstAt, OccursAt;
    FirstAtShift(s, LEFT, last, 0);
    FirstAtBounds(s, LEFT, last);
    FirstAtShift(s, RIGHT, last, d - last + 2);
    FirstAtBounds(s, RIGHT, d + 2);
    if FirstAt(s, RIGHT, d + 2).Some? {
      FirstAtSpec(s, RIGHT, d + 2);
      CharsAt(s, FirstAt(s, RIGHT, d + 2).value, RIGHT, 0);
    }
  }

  lemma FirstAtBounds(s: string, pat: string, from: nat)
    ensures FirstAt(s, pat, from).Some? ==>
      var k := FirstAt(s, pat, from).value; from <= k && k + |pat| <= |s|
  {
    hide FirstAt;
    FirstAtSpec(s, pat, from);
  }

  lemma CutBroken(s: string, last: nat, d: nat)
    requires last <= |s| && FirstAt(s, LEFT, last) == Some(d) && FirstAt(s, RIGHT, d + 2) == None
    ensures CutOf(s[last..]) == Broken
  {
    hide FirstAt, OccursAt;
    CutAt(s, last, d);
  }

  lemma CutField(s: string, last: nat, d: nat, e: nat)
    requires last <= |s| && FirstAt(s, LEFT, last) == Some(d) && FirstAt(s, RIGHT, d + 2) == Some(e)
    requires !(last + 5 <= d && OccursAt(s, d - 5, SECTION_HEAD) && OccursAt(s, e, SECTION_TAIL))
    ensures last <= d && d + 2 <= e < |s| && CutOf(s[last..]) == FieldCut(s[last..d], s[d + 2..e], s[e + 1..])
  {
    hide FirstAt, OccursAt, CutOf, IsSectionTag;
    CutAt(s, last, d);
    TagShift(s, last, d, e);
    CutIsField(s[last..], d - last, e - last);
    Slices(s, last, d, e);
  }

  lemma TagShift(s: string, last: nat, d: nat, e: nat)
    requires last <= d <= e && last <= |s|
    ensures IsSectionTag(s[last..], d - last, e - last) <==>
      last + 5 <= d && OccursAt(s, d - 5, SECTION_HEAD) && OccursAt(s, e, SECTION_TAIL)
  {
    hide OccursAt;
    if last + 5 <= d { OccursShift(s, last, d - last - 5, SECTION_HEAD); }
    OccursShift(s, last, e - last, SECTION_TAIL);
  }

  lemma Slices(s: string, last: nat, d: nat, e: nat)
    requires last <= d && d + 2 <= e < |s|
    ensures s[last..][..d - last] == s[last..d] && s[last..][d - last + 2..e - last] == s[d + 2..e]
    ensures s[last..][e - last + 1..] == s[e + 1..]
  {
  }

  /** The section that a tag opens, with its name between d + 2 and e, in what is left after last. */
  function TagCut(s: string, last: nat, d: nat, e: nat): Cut
    requires last + 5 <= d && d + 2 <= e && e + 5 <= |s|
  {
    CloseTag(s[last..d - 5], s[d + 2..e], s[d - 5..e + 5], s[e + 5..])
  }

  lemma CutIsTagCut(r: string, d: nat, e: nat)
    requires FirstAt(r, LEFT, 0) == Some(d) && FirstAt(r, RIGHT, d + 2) == Some(e) && IsSectionTag(r, d, e)
    ensures 5 <= d && d + 2 <= e && e + 5 <= |r| && CutOf(r) == TagCut(r, 0, d, e)
  {
    hide FirstAt, OccursAt, CutOf, CloseTag;
    CutIsSection(r, d, e);
    assert r[..d - 5] == r[0..d - 5];
  }

  lemma TagCutShift(s: string, last: nat, d: nat, e: nat)
    requires last + 5 <= d && d + 2 <= e && e + 5 <= |s|
    ensures TagCut(s[last..], 0, d - last, e - last) == TagCut(s, last, d, e)
  {
    hide CloseTag;
    SectionSlices(s, last, d, e);
  }

  lemma CutSection(s: string, last: nat, d: nat, e: nat)
    requires last <= |s| && FirstAt(s, LEFT, last) == Some(d) && FirstAt(s, RIGHT, d + 2) == Some(e)
    requires last + 5 <= d && OccursAt(s, d - 5, SECTION_HEAD) && OccursAt(s, e, SECTION_TAIL)
    ensures d + 2 <= e && e + 5 <= |s| && CutOf(s[last..]) == TagCut(s, last, d, e)
  {
    hide FirstAt, OccursAt, CutOf, CloseTag, IsSectionTag, TagCut;
    OccursBounds(s, e, SECTION_TAIL);
    CutAt(s, last, d);
    TagShift(s, last, d, e);
    CutIsTagCut(s[last..], d - last, e - last);
    TagCutShift(s, last, d, e);
  }

  lemma OccursBounds(s: string, i: nat, pat: string)
    requires OccursAt(s, i, pat)
    ensures i + |pat| <= |s|
  {
  }

  lemma CloseAt(s: string, text: string, name: string, tag: string, b: nat)
    requires b <= |s|
    ensures match FirstAt(s, tag, b)
      case None => CloseTag(text, name, tag, s[b..]) == Broken
      case Some(c) =>
        (b <= c && c + |tag| <= |s| && OccursAt(s, c, tag)
         && CloseTag(text, name, tag, s[b..]) == SectionCut(text, name, s[b..c], s[c + |tag|..]))
  {
    hide FirstAt;
    FirstAtShift(s, tag, b, 0);
    FirstAtSpec(s, tag, b);
    if FirstAt(s, tag, b).Some? { BodySlices(s, b, FirstAt(s, tag, b).value, |tag|); }
  }

  lemma SectionSlices(s: string, last: nat, d: nat, e: nat)
    requires last + 5 <= d && d + 2 <= e && e + 5 <= |s|
    ensures s[last..][0..d - last - 5] == s[last..d - 5] && s[last..][d - last + 2..e - last] == s[d + 2..e]
    ensures s[last..][d - last - 5..e - last + 5] == s[d - 5..e + 5] && s[last..][e - last + 5..] == s[e + 5..]
  {
  }

  lemma BodySlices(s: string, b: nat, c: nat, n: nat)
    requires b <= c && c + n <= |s|
    ensures s[b..][..c - b] == s[b..c] && s[b..][c - b + n..] == s[c + n..]
  {
  }

  /** The test for a section tag looks back to at most one byte before the range; what ends
      there is a '>', so it never takes a head that starts before what is left. */
  lemma TagTest(s: string, lo: nat, last: nat, d: nat)
    requires lo <= last <= d && d + 2 <= |s| && (last > 0 ==> s[last - 1] == '>')
    requires lo + 4 <= d && 5 <= d && OccursAt(s, d - 5, SECTION_HEAD)
    ensures last + 5 <= d
  {
    if last > 0 { HeadAfterRight(s, d - 5, last - 1); }
  }

  // --- names the tables can hold

  predicate NameOk(name: string) {
    name != "" && '\0' !in name
  }

  /** Every name the parser meets is non-empty and free of NUL bytes. */
  predicate NamesOk(r: string)
    decreases |r|
  {
    FirstAtSpec(r, LEFT, 0);
    match FirstAt(r, LEFT, 0)
    case None => true
    case Some(d) =>
      FirstAtSpec(r, RIGHT, d + 2);
      match FirstAt(r, RIGHT, d + 2)
      case None => true
      case Some(e) =>
        NameOk(r[d + 2..e]) &&
        match CutOf(r)
        case Plain => true
        case Broken => true
        case FieldCut(_, _, tail) => NamesOk(tail)
        case SectionCut(_, _, body, tail) => NamesOk(body) && NamesOk(tail)
  }

  lemma NamesOkNext(s: string, last: nat, d: nat, e: nat)
    requires last <= |s| && FirstAt(s, LEFT, last) == Some(d) && FirstAt(s, RIGHT, d + 2) == Some(e)
    requires NamesOk(s[last..])
    ensures last <= d && d + 2 <= e < |s| && NameOk(s[d + 2..e])
    ensures match CutOf(s[last..])
      case Plain => true
      case Broken => true
      case FieldCut(_, _, tail) => NamesOk(tail)
      case SectionCut(_, _, body, tail) => NamesOk(body) && NamesOk(tail)
  {
    hide FirstAt, OccursAt, CutOf, NameOk;
    CutAt(s, last, d);
    Slices(s, last, d, e);
  }

  // --- what is left of a level when its construction stops

  /** Why a construction stopped: it did not, a field delimiter without its end, a section name that is
      already answered at its level, or a new section that is not closed or whose body is no template. */
  datatype Cause = NoFault | MissingRight | Repeated | BadSection

  /** The level that reading r onto t leaves, and the cause. A bad section stays, empty, at the end. */
  function Left(t: Tpl, r: string): (Tpl, Cause)
    decreases |r|
  {
    match CutOf(r)
    case Plain => (AddTextIfAny(t, r), NoFault)
    case FieldCut(text, name, tail) => Left(AddField(AddTextIfAny(t, text), name), tail)
    case SectionCut(text, name, body, tail) =>
      var u := AddTextIfAny(t, text);
      if Lookup(SecKeys(u.secs), name).Some? then (u, Repeated)
      else if Parse(body).None? then (AddSection(u, name, EMPTY), BadSection)
      else Left(AddSection(u, name, Parse(body).value), tail)
    case Broken => LeftBroken(t, r)
  }

  /** The same when the first delimiter of r has no end, or belongs to the tag of an unclosed section. */
  function LeftBroken(t: Tpl, r: string): (Tpl, Cause) {
    FirstAtSpec(r, LEFT, 0);
    match FirstAt(r, LEFT, 0)
    case None => (t, MissingRight)
    case Some(d) =>
      FirstAtSpec(r, RIGHT, d + 2);
      match FirstAt(r, RIGHT, d + 2)
      case None => (t, MissingRight)
      case Some(e) => if d < 5 then (t, MissingRight) else LeftUnclosed(t, r[..d - 5], r[d + 2..e])
  }

  function LeftUnclosed(t: Tpl, text: string, name: string): (Tpl, Cause) {
    var u := AddTextIfAny(t, text);
    if Lookup(SecKeys(u.secs), name).Some? then (u, Repeated) else (AddSection(u, name, EMPTY), BadSection)
  }

  lemma ParseOnBroken(t: Tpl, r: string)
    requires CutOf(r) == Broken
    ensures ParseOn(t, r) == None
  {
  }

  /** There is no fault exactly when the text is a template, and then that is what is left. */
  lemma {:induction false} LeftParses(t: Tpl, r: string)
    ensures ParseOn(t, r) == if Left(t, r).1 == NoFault then Some(Left(t, r).0) else None
    decreases |r|
  {
    hide ParseOn, Parse, AddField, AddSection, AddTextIfAny, Lookup;
    match CutOf(r) {
      case Plain => ParseOnEnd(t, r);
      case Broken =>
        ParseOnBroken(t, r);
        assert LeftBroken(t, r).1 != NoFault;
      case FieldCut(text, name, tail) =>
        ParseOnField(t, r, text, name, tail);
        LeftParses(AddField(AddTextIfAny(t, text), name), tail);
      case SectionCut(text, name, body, tail) =>
        ParseOnSection(t, r, text, name, body, tail);
        if Parse(body).Some? { LeftParses(AddSection(AddTextIfAny(t, text), name, Parse(body).value), tail); }
    }
  }

  /** What a construction leaves, with or without a fault, is a well formed, untouched level. */
  lemma {:induction false} LeftKeeps(t: Tpl, r: string)
    requires WellFormed(t) && Pristine(t)
    ensures WellFormed(Left(t, r).0) && Pristine(Left(t, r).0)
    decreases |r|
  {
    hide WellFormed, Pristine, AddText, AddField, AddSection, Lookup, Parse;
    match CutOf(r) {
      case Plain => TextIfAnyKeeps(t, r);
      case Broken => BrokenKeeps(t, r);
      case FieldCut(text, name, tail) =>
        TextIfAnyKeeps(t, text);
        FieldKeeps(AddTextIfAny(t, text), name);
        LeftKeeps(AddField(AddTextIfAny(t, text), name), tail);
      case SectionCut(text, name, body, tail) =>
        var u := AddTextIfAny(t, text);
        TextIfAnyKeeps(t, text);
        if Lookup(SecKeys(u.secs), name).None? {
          EmptyLevel();
          SectionKeeps(u, name, EMPTY);
          if Parse(body).Some? {
            ParseReads(body);
            SectionKeeps(u, name, Parse(body).value);
            LeftKeeps(AddSection(u, name, Parse(body).value), tail);
          }
        }
    }
  }

  lemma TextIfAnyKeeps(t: Tpl, s: string)
    requires WellFormed(t) && Pristine(t)
    ensures WellFormed(AddTextIfAny(t, s)) && Pristine(AddTextIfAny(t, s))
  {
    AddTextKeeps(t, s);
    KeepsPristine(t, Text(s), EMPTY);
  }

  lemma FieldKeeps(t: Tpl, name: string)
    requires WellFormed(t) && Pristine(t)
    ensures WellFormed(AddField(t, name)) && Pristine(AddField(t, name))
  {
    AddFieldKeeps(t, name);
    KeepsPristine(t, Field(name), EMPTY);
  }

  lemma SectionKeeps(t: Tpl, name: string, sub: Tpl)
    requires WellFormed(t) && Pristine(t) && WellFormed(sub) && Pristine(sub) && Lookup(SecKeys(t.secs), name).None?
    ensures WellFormed(AddSection(t, name, sub)) && Pristine(AddSection(t, name, sub))
  {
    AddSectionKeeps(t, name, sub);
    KeepsPristine(t, Section(name, []), sub);
  }

  lemma BrokenKeeps(t: Tpl, r: string)
    requires WellFormed(t) && Pristine(t)
    ensures WellFormed(LeftBroken(t, r).0) && Pristine(LeftBroken(t, r).0)
  {
    hide WellFormed, Pristine, AddSection, AddText, Lookup;
    EmptyLevel();
    FirstAtSpec(r, LEFT, 0);
    if FirstAt(r, LEFT, 0).Some? && FirstAt(r, LEFT, 0).value >= 5 {
      var d := FirstAt(r, LEFT, 0).value;
      FirstAtSpec(r, RIGHT, d + 2);
      if FirstAt(r, RIGHT, d + 2).Some? {
        var text, name := r[..d - 5], r[d + 2..FirstAt(r, RIGHT, d + 2).value];
        TextIfAnyKeeps(t, text);
        var u := AddTextIfAny(t, text);
        if Lookup(SecKeys(u.secs), name).None? { SectionKeeps(u, name, EMPTY); }
      }
    }
  }

  // --- one step of the loop

  lemma {:induction false} FieldStep(t: Tpl, s: string, last: nat, d: nat, e: nat)
    requires last <= |s| && FirstAt(s, LEFT, last) == Some(d) && FirstAt(s, RIGHT, d + 2) == Some(e)
    requires !(last + 5 <= d && OccursAt(s, d - 5, SECTION_HEAD) && OccursAt(s, e, SECTION_TAIL))
    requires NamesOk(s[last..])
    ensures last <= d && d + 2 <= e < |s| && NameOk(s[d + 2..e]) && NamesOk(s[e + 1..])
    ensures Left(t, s[last..]) == Left(AddField(AddTextIfAny(t, s[last..d]), s[d + 2..e]), s[e + 1..])
  {
    hide FirstAt, OccursAt, CutOf, NameOk, NamesOk, AddField, AddTextIfAny;
    CutField(s, last, d, e);
    NamesOkNext(s, last, d, e);
    assert Left(t, s[last..]) == Left(AddField(AddTextIfAny(t, s[last..d]), s[d + 2..e]), s[e + 1..]);
  }

  lemma LeftSection(t: Tpl, r: string, text: string, name: string, body: string, tail: string)
    requires CutOf(r) == SectionCut(text, name, body, tail)
    ensures var u := AddTextIfAny(t, text);
      Left(t, r) ==
      if Lookup(SecKeys(u.secs), name).Some? then (u, Repeated)
      else if Parse(body).None? then (AddSection(u, name, EMPTY), BadSection)
      else Left(AddSection(u, name, Parse(body).value), tail)
  {
    hide CutOf;
  }

  lemma LeftOpen(t: Tpl, r: string, d: nat, e: nat)
    requires CutOf(r) == Broken && 5 <= d && d + 2 <= e <= |r|
    requires FirstAt(r, LEFT, 0) == Some(d) && FirstAt(r, RIGHT, d + 2) == Some(e)
    ensures Left(t, r) == LeftUnclosed(t, r[0..d - 5], r[d + 2..e])
  {
    hide CutOf, FirstAt, LeftUnclosed;
    assert r[0..d - 5] == r[..d - 5];
  }

  lemma {:induction false} SectionStep(t: Tpl, s: string, last: nat, d: nat, e: nat)
    requires last <= |s| && FirstAt(s, LEFT, last) == Some(d) && FirstAt(s, RIGHT, d + 2) == Some(e)
    requires last + 5 <= d && OccursAt(s, d - 5, SECTION_HEAD) && OccursAt(s, e, SECTION_TAIL)
    requires NamesOk(s[last..])
    ensures d + 2 <= e && e + 5 <= |s| && NameOk(s[d + 2..e])
    ensures var name, tag, b, u := s[d + 2..e], s[d - 5..e + 5], e + 5, AddTextIfAny(t, s[last..d - 5]);
      match FirstAt(s, tag, b)
      case None => Left(t, s[last..]) == LeftUnclosed(t, s[last..d - 5], name)
      case Some(c) =>
        (b <= c && c + |tag| <= |s| && OccursAt(s, c, tag) && NamesOk(s[b..c]) && NamesOk(s[c + |tag|..])
         && Left(t, s[last..])
            == if Lookup(SecKeys(u.secs), name).Some? then (u, Repeated)
               else if Parse(s[b..c]).None? then (AddSection(u, name, EMPTY), BadSection)
               else Left(AddSection(u, name, Parse(s[b..c]).value), s[c + |tag|..]))
  {
    hide FirstAt, OccursAt, CutOf, NameOk, NamesOk, Left, LeftUnclosed, Parse, AddSection, AddTextIfAny, Lookup,
      CloseTag;
    CutSection(s, last, d, e);
    NamesOkNext(s, last, d, e);
    var name, tag, b := s[d + 2..e], s[d - 5..e + 5], e + 5;
    CloseAt(s, s[last..d - 5], name, tag, b);
    if FirstAt(s, tag, b).Some? {
      var c := FirstAt(s, tag, b).value;
      LeftSection(t, s[last..], s[last..d - 5], name, s[b..c], s[c + |tag|..]);
    } else {
      CutAt(s, last, d);
      LeftOpen(t, s[last..], d - last, e - last);
      SectionSlices(s, last, d, e);
    }
  }

  lemma BrokenStep(t: Tpl, s: string, last: nat, d: nat)
    requires last <= |s| && FirstAt(s, LEFT, last) == Some(d) && FirstAt(s, RIGHT, d + 2) == None
    ensures Left(t, s[last..]) == (t, MissingRight)
  {
    CutBroken(s, last, d);
    CutAt(s, last, d);
    hide FirstAt, OccursAt, CutOf;
  }

  lemma LastStep(t: Tpl, s: string, last: nat)
    requires last <= |s| && FirstAt(s, LEFT, last) == None
    ensures Left(t, s[last..]) == (AddTextIfAny(t, s[last..]), NoFault)
  {
    hide FirstAt, OccursAt, CutOf, AddTextIfAny;
    CutPlain(s, last);
  }

  // --- the unclosed section

  /** A text that opens a section and ends: the empty section stays behind. */
  lemma {:induction false} UnclosedLeaves(name: string)
    requires NameOk(name) && '>' !in name
    ensures NamesOk(Tag(name)) && Parse(Tag(name)) == None
    ensures Left(EMPTY, Tag(name)) == (AddSection(EMPTY, name, EMPTY), BadSection)
  {
    UnclosedCut(name);
    ParseOnBroken(EMPTY, Tag(name));
    hide CutOf, FirstAt, Tag, NameOk;
    LeftOpen(EMPTY, Tag(name), 5, 7 + |name|);
  }

  lemma UnclosedCut(name: string)
    requires NameOk(name) && '>' !in name
    ensures var r, e := Tag(name), 7 + |name|;
      && |r| == e + 5 && FirstAt(r, LEFT, 0) == Some(5) && FirstAt(r, RIGHT, 7) == Some(e)
      && r[0..0] == "" && r[7..e] == name && CutOf(r) == Broken
  {
    hide FirstAt, OccursAt, Occurs, EndsWith, CutOf, CloseTag, IsSectionTag;
    var r, e := Tag(name), 7 + |name|;
    assert |r| == e + 5;
    hide Tag;
    EmptyText("", name, r);
    OpeningTag("", name, "");
    TagParts("", name, "");
    assert "" + r + "" == r;
    CutIsSection(r, 5, e);
  }

  /** Nothing is found in an empty text, a closing tag neither. */
  lemma EmptyText(text: string, name: string, tag: string)
    requires tag != ""
    ensures !Occurs("", LEFT) && !EndsWith("", "$") && CloseTag(text, name, tag, "") == Broken
  {
    FirstAtNone("", tag, 0);
  }
}
