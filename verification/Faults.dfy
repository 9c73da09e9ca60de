/** What a construction that stops at a fault has kept: everything before the fault. */
module Faults {
  import opened Search
  import opened Names
  import opened Markup
  import opened Items
  import opened Tree
  import opened RoundTrip
  import opened Cursor

  /** After the tag no further one follows, or what stands between them is no template. */
  predicate Unbuildable(after: string, tag: string) {
    FirstAtSpec(after, tag, 0);
    match FirstAt(after, tag, 0)
    case None => true
    case Some(c) => Parse(after[..c]).None?
  }

  /** The rest r of a text, read onto v, starts with the fault that gives the cause, and u is left.
      The text before a delimiter without its end is not stored; a bad section stays, empty. */
  predicate FaultAt(v: Tpl, r: string, u: Tpl, cause: Cause, name: string) {
    match cause
    case NoFault => r == "" && u == v
    case MissingRight =>
      (match FirstAt(r, LEFT, 0)
       case None => false
       case Some(d) => FirstAt(r, RIGHT, d + 2) == None && u == v)
    case Repeated => StartsWith(r, Tag(name)) && '>' !in name && Lookup(SecKeys(v.secs), name).Some? && u == v
    case BadSection =>
      StartsWith(r, Tag(name)) && '>' !in name && Lookup(SecKeys(v.secs), name).None?
      && Unbuildable(r[|Tag(name)|..], Tag(name)) && u == AddSection(v, name, EMPTY)
  }

  // --- a shorter text is cut in the same way

  lemma FieldTruncated(t: Tpl, r: string, text: string, name: string, tail: string, k: nat)
    requires CutOf(r) == FieldCut(text, name, tail) && k <= |tail|
    ensures var m := |r| - |tail| + k;
      && m <= |r| && r[m..] == tail[k..] && (k == 0 ==> 0 < m && r[m - 1] == '>')
      && (k > 0 ==> r[m - 1] == tail[k - 1])
      && ParseOn(t, r[..m]) == ParseOn(AddField(AddTextIfAny(t, text), name), tail[..k])
  {
    hide CutOf, ParseOn, AddField, AddTextIfAny, Occurs, EndsWith;
    FieldCutSource(r);
    FieldCutClean(r);
    Truncated(text + LEFT + name + RIGHT, tail, k);
    if StartsWith(tail[..k], TAG_CLOSE) { assert tail[..|TAG_CLOSE|] == tail[..k][..|TAG_CLOSE|]; }
    FieldBack(text, name, tail[..k]);
    ParseOnField(t, FieldSource(text, name, tail[..k]), text, name, tail[..k]);
  }

  lemma Truncated(front: string, tail: string, k: nat)
    requires k <= |tail|
    ensures var r, m := front + tail, |front| + k;
      && r[..m] == front + tail[..k] && r[m..] == tail[k..]
      && (k == 0 && front != "" ==> 0 < m && r[m - 1] == front[|front| - 1]) && (k > 0 ==> r[m - 1] == tail[k - 1])
  {
  }

  lemma SectionTruncated(t: Tpl, r: string, text: string, name: string, body: string, tail: string, k: nat)
    requires CutOf(r) == SectionCut(text, name, body, tail) && k <= |tail|
    requires Parse(body).Some? && Lookup(SecKeys(AddTextIfAny(t, text).secs), name).None?
    ensures var m := |r| - |tail| + k;
      && m <= |r| && r[m..] == tail[k..] && (k == 0 ==> 0 < m && r[m - 1] == '>')
      && (k > 0 ==> r[m - 1] == tail[k - 1])
      && ParseOn(t, r[..m]) == ParseOn(AddSection(AddTextIfAny(t, text), name, Parse(body).value), tail[..k])
  {
    hide CutOf, ParseOn, Parse, AddSection, AddTextIfAny, Occurs, EndsWith, Lookup;
    SectionCutSource(r);
    SectionCutClean(r);
    TagEnds(name);
    hide Tag;
    var front := text + Tag(name) + body + Tag(name);
    SectionRegroup(text, Tag(name), body, tail);
    SectionRegroup(text, Tag(name), body, tail[..k]);
    Truncated(front, tail, k);
    SectionBack(text, name, body, tail[..k]);
    ParseOnSection(t, SectionSource(text, name, body, tail[..k]), text, name, body, tail[..k]);
  }

  lemma TagEnds(name: string)
    ensures Tag(name) != "" && Tag(name)[|Tag(name)| - 1] == '>'
  {
  }

  lemma SectionRegroup(a: string, t: string, b: string, c: string)
    ensures a + t + (b + t + c) == a + t + b + t + c
  {
  }

  // --- where the text begins with the fault

  /** The text before the first tag is read as it stands. */
  lemma TextBefore(t: Tpl, text: string)
    requires !Occurs(text, LEFT)
    ensures ParseOn(t, text) == Some(AddTextIfAny(t, text))
  {
    NoLeftPlain(text);
    ParseOnEnd(t, text);
  }

  /** A cut section whose name is known or whose body is no template. */
  lemma FaultySection(t: Tpl, r: string, text: string, name: string, body: string, tail: string)
    requires CutOf(r) == SectionCut(text, name, body, tail)
    requires Lookup(SecKeys(AddTextIfAny(t, text).secs), name).Some? || Parse(body).None?
    ensures |text| <= |r| && r[..|text|] == text && ParseOn(t, text) == Some(AddTextIfAny(t, text))
    ensures FaultAt(AddTextIfAny(t, text), r[|text|..], Left(t, r).0, Left(t, r).1, name)
  {
    hide CutOf, ParseOn, Parse, AddSection, AddTextIfAny, EndsWith, Occurs, Lookup, FirstAt;
    SectionCutSource(r);
    SectionCutClean(r);
    LeftSection(t, r, text, name, body, tail);
    hide Left, Tag;
    TextBefore(t, text);
    NoTagIn(name, body, tail);
    AfterBody(body, Tag(name), tail);
    FirstAtUnique(body + Tag(name) + tail, Tag(name), 0, |body|);
    AfterTag(text, Tag(name), body + Tag(name) + tail);
  }

  lemma AfterTag(text: string, tag: string, after: string)
    ensures var r := text + tag + after;
      r[..|text|] == text && StartsWith(r[|text|..], tag) && r[|text|..][|tag|..] == after
  {
  }

  /** A section tag that no other one closes. */
  lemma OpenSection(t: Tpl, r: string, d: nat, e: nat)
    requires CutOf(r) == Broken && FirstAt(r, LEFT, 0) == Some(d) && FirstAt(r, RIGHT, d + 2) == Some(e)
    ensures 5 <= d <= |r| && d + 2 <= e <= |r|
    ensures ParseOn(t, r[..d - 5]) == Some(AddTextIfAny(t, r[..d - 5]))
    ensures FaultAt(AddTextIfAny(t, r[..d - 5]), r[d - 5..], Left(t, r).0, Left(t, r).1, r[d + 2..e])
  {
    hide ParseOn, Parse, AddSection, AddTextIfAny, Lookup;
    OpenTag(r, d, e);
    LeftOpen(t, r, d, e);
    assert r[0..d - 5] == r[..d - 5];
    hide CutOf, FirstAt, Occurs, Tag, Left;
    TextBefore(t, r[..d - 5]);
    AfterTag(r[..d - 5], Tag(r[d + 2..e]), r[e + 5..]);
  }

  lemma OpenTag(r: string, d: nat, e: nat)
    requires CutOf(r) == Broken && FirstAt(r, LEFT, 0) == Some(d) && FirstAt(r, RIGHT, d + 2) == Some(e)
    ensures 5 <= d && d + 2 <= e && e + 5 <= |r| && !Occurs(r[..d - 5], LEFT) && '>' !in r[d + 2..e]
    ensures r == r[..d - 5] + Tag(r[d + 2..e]) + r[e + 5..] && FirstAt(r[e + 5..], Tag(r[d + 2..e]), 0) == None
  {
    hide FirstAt, OccursAt, Tag, Occurs, Free;
    FirstAtSpec(r, LEFT, 0);
    FirstAtSpec(r, RIGHT, d + 2);
    if !IsSectionTag(r, d, e) {
      CutIsField(r, d, e);
      assert false;
    }
    CutIsSection(r, d, e);
    TagSlice(r, d, e);
    FreePrefix(r, LEFT, d, d - 5);
    FreeOfRight(r, d + 2, e);
  }

  // --- the main result

  /** A construction loses nothing before its fault: r is cut at k into a text that is read without one
      and what the fault begins. When a delimiter has no end, k is the end of the last field or section. */
  lemma {:induction false} LeftBefore(t: Tpl, r: string) returns (k: nat, v: Tpl, name: string)
    ensures k <= |r| && ParseOn(t, r[..k]) == Some(v)
    ensures FaultAt(v, r[k..], Left(t, r).0, Left(t, r).1, name)
    ensures Left(t, r).1 == MissingRight && k > 0 ==> r[k - 1] == '>'
    decreases |r|
  {
    hide CutOf, LeftBroken, ParseOn, Parse, AddField, AddSection, AddTextIfAny, Lookup, FaultAt;
    name := "";
    match CutOf(r) {
      case Plain =>
        ParseOnEnd(t, r);
        k, v := |r|, AddTextIfAny(t, r);
        assert r[..k] == r;
        NoRest(v, r[k..], name);
      case Broken =>
        k, v, name := BrokenBefore(t, r);
      case FieldCut(text, _, tail) =>
        var u := AddField(AddTextIfAny(t, text), CutOf(r).name);
        k, v, name := LeftBefore(u, tail);
        FieldTruncated(t, r, text, CutOf(r).name, tail, k);
        k := |r| - |tail| + k;
      case SectionCut(text, key, body, tail) =>
        if Lookup(SecKeys(AddTextIfAny(t, text).secs), key).None? && Parse(body).Some? {
          k, v, name := LeftBefore(AddSection(AddTextIfAny(t, text), key, Parse(body).value), tail);
          SectionTruncated(t, r, text, key, body, tail, k);
          k := |r| - |tail| + k;
        } else {
          FaultySection(t, r, text, key, body, tail);
          k, v, name := |text|, AddTextIfAny(t, text), key;
          assert Left(t, r).1 in {Repeated, BadSection};
        }
    }
  }

  lemma NoRest(v: Tpl, r: string, name: string)
    requires r == ""
    ensures FaultAt(v, r, v, NoFault, name)
  {
  }

  lemma BrokenBefore(t: Tpl, r: string) returns (k: nat, v: Tpl, name: string)
    requires CutOf(r) == Broken
    ensures k <= |r| && ParseOn(t, r[..k]) == Some(v)
    ensures FaultAt(v, r[k..], Left(t, r).0, Left(t, r).1, name)
    ensures Left(t, r).1 == MissingRight ==> k == 0
  {
    hide OccursAt, ParseOn, Parse, AddSection, AddText, Lookup, Tag, Unbuildable, CloseTag;
    var d := FirstAt(r, LEFT, 0).value;
    FirstAtSpec(r, LEFT, 0);
    if FirstAt(r, RIGHT, d + 2).None? {
      k, v, name := 0, t, "";
      ParseOnEnd(t, "");
      assert r[..0] == "" && r[0..] == r;
    } else {
      var e := FirstAt(r, RIGHT, d + 2).value;
      OpenSection(t, r, d, e);
      k, v, name := d - 5, AddTextIfAny(t, r[..d - 5]), r[d + 2..e];
    }
  }

  /** What construction from a text leaves, without the bad section, prints back as the text before the
      fault if and only if the field names there are clear. */
  lemma {:induction false} FaultKeepsText(r: string) returns (k: nat, v: Tpl, name: string)
    ensures k <= |r| && Parse(r[..k]) == Some(v)
    ensures FaultAt(v, r[k..], Left(EMPTY, r).0, Left(EMPTY, r).1, name)
    ensures Left(EMPTY, r).1 == MissingRight && k > 0 ==> r[k - 1] == '>'
    ensures Print(v) == r[..k] <==> FieldsClear(Scan(r[..k]).value)
  {
    k, v, name := LeftBefore(EMPTY, r);
    TextRoundTripIff(r[..k]);
  }

  /** The text before a delimiter without its end is lost: "Hi $<N" leaves nothing of "Hi ". */
  lemma {:induction false} TextDropped(t: Tpl, text: string, rest: string)
    requires !Occurs(text, LEFT) && '>' !in rest
    ensures Left(t, text + LEFT + rest) == (t, MissingRight)
  {
    hide FirstAt, OccursAt, Occurs, EndsWith;
    var r, d := text + LEFT + rest, |text|;
    assert r == text + (LEFT + rest);
    NoLeftIn(text, LEFT + rest);
    OccursByIndex(r, d, LEFT);
    FirstAtUnique(r, LEFT, 0, d);
    assert r[d + 2..] == rest;
    FreeOfRight(r, d + 2, |r|);
    assert !OccursAt(r, |r|, RIGHT) by { OccursOutside(r, RIGHT); }
    FirstAtNone(r, RIGHT, d + 2);
    assert r[0..] == r;
    BrokenStep(t, r, 0, d);
  }

  lemma OccursOutside(r: string, pat: string)
    requires pat != ""
    ensures !OccursAt(r, |r|, pat)
  {
  }
}
