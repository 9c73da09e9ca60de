/** The template language: fields, section tags, and the first cut of a text at one of them. */
module Markup {
  import opened Search

  const LEFT := "$<"
  const RIGHT := ">"
  const TAG_OPEN := "<!-- "
  const TAG_CLOSE := " -->"
  const SECTION_HEAD := "<!-- $<"
  const SECTION_TAIL := "> -->"

  function Tag(name: string): string {
    SECTION_HEAD + name + SECTION_TAIL
  }

  /** What the text begins with, up to and including its first field or section. */
  datatype Cut =
    | Plain
    | Broken
    | FieldCut(text: string, name: string, tail: string)
    | SectionCut(text: string, name: string, body: string, tail: string)

  /** A field delimiter at d whose name ends at e is a section tag. */
  predicate IsSectionTag(r: string, d: nat, e: nat) {
    d >= 5 && OccursAt(r, d - 5, SECTION_HEAD) && OccursAt(r, e, SECTION_TAIL)
  }

  function CutOf(r: string): (cut: Cut)
    ensures cut.FieldCut? || cut.SectionCut? ==> |cut.tail| < |r|
    ensures cut.SectionCut? ==> |cut.body| < |r|
  {
    FirstAtSpec(r, LEFT, 0);
    match FirstAt(r, LEFT, 0)
    case None => Plain
    case Some(d) =>
      FirstAtSpec(r, RIGHT, d + 2);
      match FirstAt(r, RIGHT, d + 2)
      case None => Broken
      case Some(e) =>
        if IsSectionTag(r, d, e) then
          CloseTag(r[..d - 5], r[d + 2..e], r[d - 5..e + 5], r[e + 5..])
        else FieldCut(r[..d], r[d + 2..e], r[e + 1..])
  }

  /** The body runs to the next occurrence of the very same tag. */
  function CloseTag(text: string, name: string, tag: string, after: string): (cut: Cut)
    ensures cut.SectionCut? ==> |cut.tail| <= |after| && |cut.body| <= |after|
    ensures !cut.FieldCut?
  {
    FirstAtSpec(after, tag, 0);
    match FirstAt(after, tag, 0)
    case None => Broken
    case Some(c) => SectionCut(text, name, after[..c], after[c + |tag|..])
  }

  function FieldSource(text: string, name: string, tail: string): string {
    text + LEFT + name + RIGHT + tail
  }

  function SectionSource(text: string, name: string, body: string, tail: string): string {
    text + Tag(name) + (body + Tag(name) + tail)
  }

  /** text and name are read back as written, and the field is not framed like a section tag. */
  predicate FieldClean(text: string, name: string, tail: string) {
    && !Occurs(text, LEFT)
    && '>' !in name
    && !(EndsWith(text, TAG_OPEN) && StartsWith(tail, TAG_CLOSE))
  }

  /** text, name and body are read back as written. */
  predicate SectionClean(text: string, name: string, body: string) {
    && !Occurs(text, LEFT)
    && !EndsWith(text, "$")
    && '>' !in name
    && !Occurs(body, Tag(name))
  }

  // --- facts about strings alone

  /** Where the parts of a + b + c + d + e lie. */
  lemma Parts(a: string, b: string, c: string, d: string, e: string)
    ensures var r := a + b + c + d + e; var w, x, y, z := |a|, |a| + |b|, |a| + |b| + |c|, |a| + |b| + |c| + |d|;
      && |r| == z + |e| && r[..w] == a && r[w..x] == b && r[x..y] == c && r[y..z] == d && r[z..] == e
      && r[w..z] == b + c + d
  {
  }

  lemma SplitTwice(r: string, d: nat, p: string, e: nat, q: string)
    requires OccursAt(r, d, p) && d + |p| <= e && OccursAt(r, e, q)
    ensures r == r[..d] + p + r[d + |p|..e] + q + r[e + |q|..]
    ensures r[d..e + |q|] == p + r[d + |p|..e] + q
  {
  }

  lemma SplitOnce(r: string, d: nat, p: string)
    requires OccursAt(r, d, p)
    ensures r == r[..d] + p + r[d + |p|..]
  {
  }

  lemma Regroup(a: string, b: string, c: string, d: string, e: string)
    ensures a + (b + c + d) + e == a + b + c + d + e
  {
  }

  /** A prefix before the first occurrence does not hold the pattern. */
  lemma FreePrefix(r: string, pat: string, d: nat, m: nat)
    requires pat != "" && m <= d && m <= |r| && Free(r, pat, 0, d)
    ensures !Occurs(r[..m], pat)
  {
    forall i: nat | i <= m
      ensures !OccursAt(r[..m], i, pat)
    {
      if i + |pat| <= m {
        assert r[..m][i..i + |pat|] == r[i..i + |pat|];
        assert !OccursAt(r, i, pat);
      }
    }
  }

  /** A text that does not hold the pattern has none inside itself when something follows, either. */
  lemma FreeInside(s: string, after: string, pat: string, i: nat)
    requires !Occurs(s, pat) && i + |pat| <= |s|
    ensures !OccursAt(s + after, i, pat)
  {
    assert (s + after)[i..i + |pat|] == s[i..i + |pat|];
    assert !OccursAt(s, i, pat);
  }

  lemma FreeOfRight(r: string, from: nat, e: nat)
    requires from <= e <= |r|
    ensures Free(r, RIGHT, from, e) <==> '>' !in r[from..e]
  {
    var name := r[from..e];
    forall i: nat | from <= i < e
      ensures OccursAt(r, i, RIGHT) <==> name[i - from] == '>'
    {
      assert r[i..i + 1] == [r[i]];
    }
    if '>' in name {
      var k :| 0 <= k < |name| && name[k] == '>';
      assert OccursAt(r, from + k, RIGHT);
    }
  }

  // --- from the text to its cut

  lemma {:induction false} FieldCutSource(r: string)
    requires CutOf(r).FieldCut?
    ensures var c := CutOf(r); r == FieldSource(c.text, c.name, c.tail)
  {
    var d := FirstAt(r, LEFT, 0).value;
    var e := FirstAt(r, RIGHT, d + 2).value;
    FirstAtSpec(r, LEFT, 0);
    FirstAtSpec(r, RIGHT, d + 2);
    SplitTwice(r, d, LEFT, e, RIGHT);
  }

  lemma {:induction false} FieldCutClean(r: string)
    requires CutOf(r).FieldCut?
    ensures var c := CutOf(r); FieldClean(c.text, c.name, c.tail)
  {
    var d := FirstAt(r, LEFT, 0).value;
    var e := FirstAt(r, RIGHT, d + 2).value;
    FirstAtSpec(r, LEFT, 0);
    FirstAtSpec(r, RIGHT, d + 2);
    FreePrefix(r, LEFT, d, d);
    FreeOfRight(r, d + 2, e);
    FieldNotFramed(r, d, e);
  }

  lemma FieldNotFramed(r: string, d: nat, e: nat)
    requires OccursAt(r, d, LEFT) && OccursAt(r, e, RIGHT) && !IsSectionTag(r, d, e)
    ensures !(EndsWith(r[..d], TAG_OPEN) && StartsWith(r[e + 1..], TAG_CLOSE))
  {
    if EndsWith(r[..d], TAG_OPEN) && StartsWith(r[e + 1..], TAG_CLOSE) {
      FramedIsTag(r, d, e);
      assert false;
    }
  }

  /** A field framed by the outer parts of a tag is taken for a section tag. */
  lemma FramedIsTag(r: string, d: nat, e: nat)
    requires OccursAt(r, d, LEFT) && OccursAt(r, e, RIGHT)
    requires EndsWith(r[..d], TAG_OPEN) && StartsWith(r[e + 1..], TAG_CLOSE)
    ensures IsSectionTag(r, d, e)
  {
    Adjacent(r, d - 5, d, d + 2);
    Adjacent(r, e, e + 1, e + 5);
    assert r[d - 5..d] == r[..d][d - 5..];
    assert r[e + 1..e + 5] == r[e + 1..][..4];
  }

  lemma Adjacent(r: string, i: nat, j: nat, k: nat)
    requires i <= j <= k <= |r|
    ensures r[i..k] == r[i..j] + r[j..k]
  {
  }

  /** Only a field framed like that is taken for a section tag. */
  lemma TagIsFramed(text: string, name: string, tail: string)
    requires IsSectionTag(FieldSource(text, name, tail), |text|, |text| + 2 + |name|)
    ensures EndsWith(text, TAG_OPEN) && StartsWith(tail, TAG_CLOSE)
  {
    var r, d, e := FieldSource(text, name, tail), |text|, |text| + 2 + |name|;
    forall k | 0 <= k < 5
      ensures text[d - 5..][k] == TAG_OPEN[k]
    {
      CharsAt(r, d - 5, SECTION_HEAD, k);
    }
    forall k | 0 <= k < 4
      ensures tail[..4][k] == TAG_CLOSE[k]
    {
      CharsAt(r, e, SECTION_TAIL, k + 1);
    }
  }

  lemma {:induction false} SectionCutSource(r: string)
    requires CutOf(r).SectionCut?
    ensures var c := CutOf(r); r == SectionSource(c.text, c.name, c.body, c.tail)
  {
    var d := FirstAt(r, LEFT, 0).value;
    var e := FirstAt(r, RIGHT, d + 2).value;
    TagSlice(r, d, e);
    BodySlice(Tag(r[d + 2..e]), r[e + 5..]);
    hide FirstAt, OccursAt, Tag, IsSectionTag;
  }

  lemma BodySlice(tag: string, after: string)
    requires FirstAt(after, tag, 0).Some?
    ensures var c := FirstAt(after, tag, 0).value;
      c + |tag| <= |after| && after == after[..c] + tag + after[c + |tag|..]
  {
    FirstAtSpec(after, tag, 0);
    SplitOnce(after, FirstAt(after, tag, 0).value, tag);
  }

  lemma TagSlice(r: string, d: nat, e: nat)
    requires FirstAt(r, LEFT, 0) == Some(d) && FirstAt(r, RIGHT, d + 2) == Some(e) && IsSectionTag(r, d, e)
    ensures d + 2 <= e && e + 5 <= |r|
    ensures r[d - 5..e + 5] == Tag(r[d + 2..e])
    ensures r == r[..d - 5] + Tag(r[d + 2..e]) + r[e + 5..]
  {
    FirstAtSpec(r, RIGHT, d + 2);
    SplitTwice(r, d - 5, SECTION_HEAD, e, SECTION_TAIL);
    Regroup(r[..d - 5], SECTION_HEAD, r[d + 2..e], SECTION_TAIL, r[e + 5..]);
  }

  lemma {:induction false} SectionCutClean(r: string)
    requires CutOf(r).SectionCut?
    ensures var c := CutOf(r); SectionClean(c.text, c.name, c.body)
  {
    hide FirstAt, OccursAt, Tag, Free, Occurs, EndsWith;
    var d := FirstAt(r, LEFT, 0).value;
    var e := FirstAt(r, RIGHT, d + 2).value;
    TagSlice(r, d, e);
    FirstAtSpec(r, LEFT, 0);
    FirstAtSpec(r, RIGHT, d + 2);
    FreePrefix(r, LEFT, d, d - 5);
    FreeOfRight(r, d + 2, e);
    NoDollarBefore(r, d);
    BodyClean(Tag(r[d + 2..e]), r[e + 5..]);
    hide IsSectionTag;
  }

  lemma BodyClean(tag: string, after: string)
    requires tag != "" && FirstAt(after, tag, 0).Some?
    ensures FirstAt(after, tag, 0).value <= |after| && !Occurs(after[..FirstAt(after, tag, 0).value], tag)
  {
    FirstAtSpec(after, tag, 0);
    FreePrefix(after, tag, FirstAt(after, tag, 0).value, FirstAt(after, tag, 0).value);
  }

  /** A '$' right before the '<' of a section head would be a delimiter found earlier. */
  lemma NoDollarBefore(r: string, d: nat)
    requires 5 <= d && OccursAt(r, d - 5, SECTION_HEAD) && Free(r, LEFT, 0, d)
    ensures !EndsWith(r[..d - 5], "$")
  {
    CharsAt(r, d - 5, SECTION_HEAD, 0);
    hide OccursAt;
    if d >= 6 && r[d - 6] == '$' {
      DollarJoins(r, d - 6);
      assert false;
    }
    LastChar(r[..d - 5], '$');
  }

  lemma LastChar(s: string, c: char)
    ensures EndsWith(s, [c]) <==> s != "" && s[|s| - 1] == c
  {
    if s != "" { assert s[|s| - 1..] == [s[|s| - 1]]; }
  }

  lemma DollarJoins(r: string, i: nat)
    requires i + 1 < |r| && r[i] == '$' && r[i + 1] == '<'
    ensures OccursAt(r, i, LEFT)
  {
    OccursByIndex(r, i, LEFT);
  }

  // --- from the cut to the text

  /** No delimiter starts inside a clean text, whatever follows it. */
  lemma NoLeftIn(text: string, after: string)
    requires !Occurs(text, LEFT)
    requires EndsWith(text, "$") && after != "" ==> after[0] != '<'
    ensures Free(text + after, LEFT, 0, |text|)
  {
    forall i: nat | i < |text|
      ensures !OccursAt(text + after, i, LEFT)
    {
      if i + 2 <= |text| {
        FreeInside(text, after, LEFT, i);
      } else if after != "" {
        assert text[|text| - 1..] == [text[i]];
        if text[i] != '$' { CharsAt(text + after, i, LEFT, 0); } else { CharsAt(text + after, i, LEFT, 1); }
      }
    }
  }

  lemma {:induction false} FieldBack(text: string, name: string, tail: string)
    requires FieldClean(text, name, tail)
    ensures CutOf(FieldSource(text, name, tail)) == FieldCut(text, name, tail)
  {
    hide FirstAt, Free, Occurs, EndsWith, StartsWith, IsSectionTag;
    var r := FieldSource(text, name, tail);
    var d, e := |text|, |text| + 2 + |name|;
    Parts(text, LEFT, name, RIGHT, tail);
    FieldLeftFirst(text, name, tail);
    FreeOfRight(r, d + 2, e);
    FirstAtUnique(r, RIGHT, d + 2, e);
    if IsSectionTag(r, d, e) {
      TagIsFramed(text, name, tail);
      assert false;
    }
  }

  lemma FieldLeftFirst(text: string, name: string, tail: string)
    requires !Occurs(text, LEFT)
    ensures FirstAt(FieldSource(text, name, tail), LEFT, 0) == Some(|text|)
  {
    var after := LEFT + name + RIGHT + tail;
    assert FieldSource(text, name, tail) == text + after;
    NoLeftIn(text, after);
    OccursByIndex(text + after, |text|, LEFT);
    FirstAtUnique(text + after, LEFT, 0, |text|);
  }

  /** A section tag has no proper border: no proper prefix of it is also a suffix. A border
      would end in '>', which the tag has only four from its end and at its end. */
  lemma {:induction false} TagHasNoBorder(name: string, m: nat)
    requires '>' !in name && 0 < m < |Tag(name)|
    ensures Tag(name)[|Tag(name)| - m..] != Tag(name)[..m]
  {
    var tag := Tag(name);
    var n := |tag|;
    forall k | 7 <= k < n - 5
      ensures tag[k] != '>'
    {
      assert tag[k] == name[k - 7];
    }
    assert tag[n - m..][m - 1] == tag[n - 1];
    if m >= 5 {
      assert tag[n - m..][m - 5] == tag[n - 5];
    }
  }

  /** The search for a closing tag cannot match across its left edge, as the tag has no proper border. */
  lemma {:induction false} NoTagIn(name: string, body: string, tail: string)
    requires '>' !in name && !Occurs(body, Tag(name))
    ensures Free(body + Tag(name) + tail, Tag(name), 0, |body|)
  {
    var tag := Tag(name);
    forall i: nat | i < |body|
      ensures !OccursAt(body + tag + tail, i, tag)
    {
      if i + |tag| <= |body| {
        FreeInside(body, tag + tail, tag, i);
        assert body + (tag + tail) == body + tag + tail;
      } else {
        TagHasNoBorder(name, i + |tag| - |body|);
        NoOverlap(body, tag, tail, i);
      }
    }
  }

  lemma NoOverlap(body: string, tag: string, tail: string, i: nat)
    requires i < |body| < i + |tag|
    requires var m := i + |tag| - |body|; tag[|tag| - m..] != tag[..m]
    ensures !OccursAt(body + tag + tail, i, tag)
  {
    var m := i + |tag| - |body|;
    var k :| 0 <= k < m && tag[|tag| - m..][k] != tag[..m][k];
    assert (body + tag + tail)[|body| + k] == tag[k];
    CharsAt(body + tag + tail, i, tag, |tag| - m + k);
  }

  lemma CutIsField(r: string, d: nat, e: nat)
    requires FirstAt(r, LEFT, 0) == Some(d) && FirstAt(r, RIGHT, d + 2) == Some(e) && !IsSectionTag(r, d, e)
    ensures d + 2 <= e && e < |r| && CutOf(r) == FieldCut(r[..d], r[d + 2..e], r[e + 1..])
  {
    FirstAtSpec(r, RIGHT, d + 2);
    hide FirstAt;
  }

  lemma CutIsSection(r: string, d: nat, e: nat)
    requires FirstAt(r, LEFT, 0) == Some(d) && FirstAt(r, RIGHT, d + 2) == Some(e) && IsSectionTag(r, d, e)
    ensures d + 2 <= e && e + 5 <= |r|
    ensures CutOf(r) == CloseTag(r[..d - 5], r[d + 2..e], r[d - 5..e + 5], r[e + 5..])
  {
    hide FirstAt, CloseTag;
    FirstAtSpec(r, RIGHT, d + 2);
    assert d + 2 <= e && e + 5 <= |r|;
  }

  lemma {:induction false} SectionBack(text: string, name: string, body: string, tail: string)
    requires SectionClean(text, name, body)
    ensures CutOf(SectionSource(text, name, body, tail)) == SectionCut(text, name, body, tail)
  {
    hide CutOf, FirstAt, OccursAt, Occurs, EndsWith, IsSectionTag, CloseTag, Tag;
    var after := body + Tag(name) + tail;
    var r := text + Tag(name) + after;
    OpeningTag(text, name, after);
    ClosingTag(text, name, body, tail);
    TagParts(text, name, after);
    CutIsSection(r, |text| + 5, |text| + 7 + |name|);
  }

  lemma TagParts(text: string, name: string, after: string)
    ensures var r, d, e := text + Tag(name) + after, |text| + 5, |text| + 7 + |name|;
      e + 5 <= |r| && r[..d - 5] == text && r[d + 2..e] == name && r[d - 5..e + 5] == Tag(name) && r[e + 5..] == after
  {
    Regroup(text, SECTION_HEAD, name, SECTION_TAIL, after);
    Parts(text, SECTION_HEAD, name, SECTION_TAIL, after);
  }

  lemma ClosingTag(text: string, name: string, body: string, tail: string)
    requires '>' !in name && !Occurs(body, Tag(name))
    ensures CloseTag(text, name, Tag(name), body + Tag(name) + tail) == SectionCut(text, name, body, tail)
  {
    var tag := Tag(name);
    NoTagIn(name, body, tail);
    hide Tag;
    AfterBody(body, tag, tail);
    FirstAtUnique(body + tag + tail, tag, 0, |body|);
  }

  lemma AfterBody(body: string, tag: string, tail: string)
    ensures var after := body + tag + tail;
      OccursAt(after, |body|, tag) && after[..|body|] == body && after[|body| + |tag|..] == tail
  {
  }

  lemma OpeningTag(text: string, name: string, after: string)
    requires !Occurs(text, LEFT) && !EndsWith(text, "$") && '>' !in name
    ensures var r, d := text + Tag(name) + after, |text| + 5;
      && FirstAt(r, LEFT, 0) == Some(d) && FirstAt(r, RIGHT, d + 2) == Some(d + 2 + |name|)
      && IsSectionTag(r, d, d + 2 + |name|)
  {
    Regroup(text, SECTION_HEAD, name, SECTION_TAIL, after);
    OpeningLeft(text, name + SECTION_TAIL + after);
    assert text + SECTION_HEAD + (name + SECTION_TAIL + after) == text + SECTION_HEAD + name + SECTION_TAIL + after;
    OpeningRight(text, SECTION_HEAD, name, SECTION_TAIL, after);
  }

  lemma OpeningLeft(text: string, after: string)
    requires !Occurs(text, LEFT) && !EndsWith(text, "$")
    ensures FirstAt(text + SECTION_HEAD + after, LEFT, 0) == Some(|text| + 5)
    ensures OccursAt(text + SECTION_HEAD + after, |text|, SECTION_HEAD)
  {
    var r, d := text + SECTION_HEAD + after, |text|;
    assert r == text + (SECTION_HEAD + after);
    NoLeftIn(text, SECTION_HEAD + after);
    OccursByIndex(r, d, SECTION_HEAD);
    forall i: nat | d <= i < d + 5
      ensures !OccursAt(r, i, LEFT)
    {
      CharsAt(r, i, LEFT, 0);
    }
    OccursByIndex(r, d + 5, LEFT);
    FirstAtUnique(r, LEFT, 0, d + 5);
  }

  lemma OpeningRight(a: string, h: string, n: string, t: string, b: string)
    requires '>' !in n && t != "" && t[0] == '>'
    ensures FirstAt(a + h + n + t + b, RIGHT, |a| + |h|) == Some(|a| + |h| + |n|)
    ensures OccursAt(a + h + n + t + b, |a| + |h| + |n|, t)
  {
    var r, from := a + h + n + t + b, |a| + |h|;
    Parts(a, h, n, t, b);
    var e := from + |n|;
    assert r[e] == r[e..e + |t|][0];
    FreeOfRight(r, from, e);
    OccursByIndex(r, e, RIGHT);
    FirstAtUnique(r, RIGHT, from, e);
  }
}
