/** The links that chains of appended texts are made of. */
module Links {

  class Link {
    var text: string
    var next: Link?

    constructor (text: string, next: Link?)
      ensures this.text == text && this.next == next
    {
      this.text, this.next := text, next;
    }
  }

  /** The two chains share no link. */
  ghost predicate Apart(a: seq<Link>, b: seq<Link>) {
    forall i, j | 0 <= i < |a| && 0 <= j < |b| :: a[i] != b[j]
  }

  predicate Distinct(a: seq<Link>) {
    forall i, j | 0 <= i < j < |a| :: a[i] != a[j]
  }

  /** Each link leads to the next one, the last one to end. */
  predicate Linked(a: seq<Link>, end: Link?)
    reads a
  {
    && (forall i | 0 <= i < |a| - 1 :: a[i].next == a[i + 1])
    && (a != [] ==> a[|a| - 1].next == end)
  }

  ghost function Texts(a: seq<Link>): (r: seq<string>)
    reads a
    ensures |r| == |a|
  {
    seq(|a|, i requires 0 <= i < |a| reads a => a[i].text)
  }

  lemma LinkedJoin(a: seq<Link>, b: seq<Link>, end: Link?)
    requires b != [] && Linked(a, b[0]) && Linked(b, end)
    ensures Linked(a + b, end)
  {
    var c := a + b;
    forall i | 0 <= i < |c| - 1 ensures c[i].next == c[i + 1] {
      if i + 1 < |a| {
        assert c[i] == a[i] && c[i + 1] == a[i + 1];
      } else if i < |a| {
        assert c[i] == a[|a| - 1] && c[i + 1] == b[0];
      } else {
        assert c[i] == b[i - |a|] && c[i + 1] == b[i - |a| + 1];
      }
    }
  }

  lemma DistinctJoin(a: seq<Link>, b: seq<Link>)
    requires Distinct(a) && Distinct(b) && Apart(a, b)
    ensures Distinct(a + b)
  {
    forall i, j | 0 <= i < j < |a| + |b| ensures (a + b)[i] != (a + b)[j] {
      if i < |a| <= j { assert a[i] != b[j - |a|]; }
    }
  }

  lemma TextsJoin(a: seq<Link>, b: seq<Link>)
    ensures Texts(a + b) == Texts(a) + Texts(b)
  {
    assert forall i | 0 <= i < |a| :: (a + b)[i] == a[i];
  }

  /** The chain without its first link. */
  lemma LinkedTail(a: seq<Link>, end: Link?)
    requires a != [] && Distinct(a) && Linked(a, end)
    ensures Distinct(a[1..]) && Linked(a[1..], end) && a[0].next == if |a| == 1 then end else a[1]
  {
  }

  lemma Single(l: Link, end: Link?)
    requires l.next == end
    ensures Distinct([l]) && Linked([l], end) && Texts([l]) == [l.text]
  {
  }

  twostate lemma TextsKept(new a: seq<Link>)
    requires old(allocated(a)) && forall i | 0 <= i < |a| :: a[i].text == old(a[i].text)
    ensures Texts(a) == old(Texts(a))
  {
  }

  twostate lemma ChainSame(new a: seq<Link>)
    requires old(allocated(a)) && forall i | 0 <= i < |a| :: unchanged(a[i])
    ensures Texts(a) == old(Texts(a)) && (old(Linked(a, null)) ==> Linked(a, null))
  {
  }
}
