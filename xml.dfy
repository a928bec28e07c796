/**
  An abstract XML element tree and the part of lxml's ElementTree API that the
  proxy's transformers use: `find` with `.//T`, `.//A/B` and bare child tags,
  and in-place edits of a found node. A found node is named by its path, the
  child indices that lead to it, and an in-place edit becomes `Replace`.
 */
module Xml {
  import opened Wrappers

  /** An element: its tag in Clark notation ("{namespace}local"), its
      attributes, its text (None when lxml's `.text` is None) and its
      children in document order. */
  datatype Element = Element(tag: string, attrs: map<string, string>, text: Option<string>, children: seq<Element>)

  /** The child indices leading from an element to a node below it; [] is the element itself. */
  type Path = seq<nat>

  /** The step a find pattern takes: `.//T` is Tag(T); `.//A/B` looks for an A that has a B child. */
  datatype Selector = Tag(tag: string) | TagWithChild(tag: string, child: string)

  /** The part of an element that is not its children. */
  function Label(e: Element): (string, map<string, string>, Option<string>)
  {
    (e.tag, e.attrs, e.text)
  }

  predicate IsPath(e: Element, p: Path)
    decreases |p|
  {
    |p| == 0 || (p[0] < |e.children| && IsPath(e.children[p[0]], p[1..]))
  }

  function At(e: Element, p: Path): Element
    requires IsPath(e, p)
    decreases |p|
  {
    if |p| == 0 then e else At(e.children[p[0]], p[1..])
  }

  /** The tree e with the node at p replaced by v: an in-place edit of that node. */
  function Replace(e: Element, p: Path, v: Element): Element
    requires IsPath(e, p)
    decreases |p|
  {
    if |p| == 0 then v
    else e.(children := e.children[p[0] := Replace(e.children[p[0]], p[1..], v)])
  }

  predicate Prefix(q: Path, p: Path)
  {
    |q| <= |p| && p[..|q|] == q
  }

  /** q comes strictly before p in document order, the order in which lxml
      iterates a tree: q is an ancestor of p or branches off to its left. */
  predicate Before(q: Path, p: Path)
    decreases |p|
  {
    |p| > 0 && (|q| == 0 || q[0] < p[0] || (q[0] == p[0] && Before(q[1..], p[1..])))
  }

  function FirstChildFrom(cs: seq<Element>, tag: string, i: nat): (r: Option<nat>)
    requires i <= |cs|
    ensures r.Some? ==> i <= r.value < |cs| && cs[r.value].tag == tag
    ensures r.Some? ==> forall j :: i <= j < r.value ==> cs[j].tag != tag
    ensures r.None? ==> forall j :: i <= j < |cs| ==> cs[j].tag != tag
    decreases |cs| - i
  {
    if i == |cs| then None
    else if cs[i].tag == tag then Some(i)
    else FirstChildFrom(cs, tag, i + 1)
  }

  /** `elem.find(tag)` for a bare tag: the index of the first child with that tag. */
  function FirstChild(cs: seq<Element>, tag: string): (r: Option<nat>)
    ensures r.Some? ==> r.value < |cs| && cs[r.value].tag == tag
    ensures r.Some? ==> forall j :: 0 <= j < r.value ==> cs[j].tag != tag
    ensures r.None? ==> forall j :: 0 <= j < |cs| ==> cs[j].tag != tag
  {
    FirstChildFrom(cs, tag, 0)
  }

  predicate Matches(e: Element, sel: Selector)
  {
    match sel
    case Tag(t) => e.tag == t
    case TagWithChild(t, c) => e.tag == t && FirstChild(e.children, c).Some?
  }

  /** The first node at or after child i of e, in document order, that sel matches. */
  function FindFrom(e: Element, i: nat, sel: Selector): (r: Option<Path>)
    requires i <= |e.children|
    ensures r.Some? ==> |r.value| > 0 && r.value[0] >= i && IsPath(e, r.value) && Matches(At(e, r.value), sel)
    decreases e, |e.children| - i
  {
    if i == |e.children| then None
    else if Matches(e.children[i], sel) then Some([i])
    else match FindFrom(e.children[i], 0, sel)
      case Some(q) =>
        assert ([i] + q)[1..] == q;
        Some([i] + q)
      case None => FindFrom(e, i + 1, sel)
  }

  /** `elem.find('.//T')`: the first strict descendant of e that sel matches. */
  function Find(e: Element, sel: Selector): (r: Option<Path>)
    ensures r.Some? ==> |r.value| > 0 && IsPath(e, r.value) && Matches(At(e, r.value), sel)
  {
    FindFrom(e, 0, sel)
  }

  /** `elem.find('.//A/B')`: the first B child of the first A below e that has one. */
  function FindPair(e: Element, parent: string, child: string): (r: Option<Path>)
    ensures r.Some? ==> |r.value| >= 2 && IsPath(e, r.value) && At(e, r.value).tag == child
    ensures r.Some? ==> var up := r.value[..|r.value| - 1]; IsPath(e, up) && At(e, up).tag == parent
    ensures r.None? <==> Find(e, TagWithChild(parent, child)).None?
  {
    match Find(e, TagWithChild(parent, child))
    case None => None
    case Some(p) =>
      var k := FirstChild(At(e, p).children, child).value;
      AtConcat(e, p, [k]);
      assert (p + [k])[..|p + [k]| - 1] == p;
      Some(p + [k])
  }

  lemma {:induction false} AtConcat(e: Element, p: Path, q: Path)
    requires IsPath(e, p) && IsPath(At(e, p), q)
    ensures IsPath(e, p + q) && At(e, p + q) == At(At(e, p), q)
    decreases |p|
  {
    if |p| > 0 {
      assert (p + q)[0] == p[0] && (p + q)[1..] == p[1..] + q;
      AtConcat(e.children[p[0]], p[1..], q);
    } else {
      assert p + q == q;
    }
  }

  lemma {:induction false} ReplaceAt(e: Element, p: Path, v: Element)
    requires IsPath(e, p)
    ensures IsPath(Replace(e, p, v), p) && At(Replace(e, p, v), p) == v
    decreases |p|
  {
    if |p| > 0 {
      ReplaceAt(e.children[p[0]], p[1..], v);
    }
  }

  /** Editing the node at p + q of e is editing the node at q of the subtree at p. */
  lemma {:induction false} ReplaceConcat(e: Element, p: Path, q: Path, v: Element)
    requires IsPath(e, p) && IsPath(At(e, p), q)
    ensures IsPath(e, p + q) && Replace(e, p, Replace(At(e, p), q, v)) == Replace(e, p + q, v)
    decreases |p|
  {
    AtConcat(e, p, q);
    if |p| > 0 {
      assert (p + q)[0] == p[0] && (p + q)[1..] == p[1..] + q;
      ReplaceConcat(e.children[p[0]], p[1..], q, v);
    } else {
      assert p + q == q;
    }
  }

  /** A second edit of the same node overrides the first. */
  lemma {:induction false} ReplaceTwice(e: Element, p: Path, v: Element, w: Element)
    requires IsPath(e, p)
    ensures IsPath(Replace(e, p, v), p) && Replace(Replace(e, p, v), p, w) == Replace(e, p, w)
    decreases |p|
  {
    ReplaceAt(e, p, v);
    if |p| > 0 {
      ReplaceTwice(e.children[p[0]], p[1..], v, w);
    }
  }

  /** Editing the node at p leaves the tree outside p's subtree as it was:
      the same paths, the same labels, and the same subtrees wherever a node
      is not an ancestor of p. */
  lemma {:induction false} ReplaceOutside(e: Element, p: Path, v: Element, q: Path)
    requires IsPath(e, p) && !Prefix(p, q)
    ensures IsPath(Replace(e, p, v), q) == IsPath(e, q)
    ensures IsPath(e, q) ==> Label(At(Replace(e, p, v), q)) == Label(At(e, q))
    ensures IsPath(e, q) && !Prefix(q, p) ==> At(Replace(e, p, v), q) == At(e, q)
    decreases |p|
  {
    if |q| == 0 {
      assert |p| > 0;
    } else if q[0] != p[0] {
    } else {
      assert !Prefix(p[1..], q[1..]);
      assert Prefix(q, p) ==> Prefix(q[1..], p[1..]);
      ReplaceOutside(e.children[p[0]], p[1..], v, q[1..]);
      if Prefix(q[1..], p[1..]) {
        assert p[..|q|] == [p[0]] + p[1..][..|q| - 1];
      }
    }
  }

  /** Editing only the label of the node at p (its children stay) leaves every
      path in place and every node below p as it was. */
  lemma {:induction false} ReplaceLabelInside(e: Element, p: Path, v: Element, q: Path)
    requires IsPath(e, p) && v.children == At(e, p).children
    requires Prefix(p, q) && q != p
    ensures IsPath(Replace(e, p, v), q) == IsPath(e, q)
    ensures IsPath(e, q) ==> At(Replace(e, p, v), q) == At(e, q)
    decreases |p|
  {
    if |p| == 0 {
      assert |q| > 0;
    } else {
      assert q[0] == p[0];
      assert Prefix(p[1..], q[1..]) && q[1..] != p[1..] by {
        assert q == [q[0]] + q[1..] && p == [p[0]] + p[1..];
      }
      ReplaceLabelInside(e.children[p[0]], p[1..], v, q[1..]);
    }
  }

  /** b is a with at most the label of the node at p changed. */
  ghost predicate SameExceptLabelAt(a: Element, b: Element, p: Path)
  {
    && (forall q :: IsPath(a, q) <==> IsPath(b, q))
    && (forall q :: IsPath(a, q) && q != p ==> Label(At(a, q)) == Label(At(b, q)))
    && (forall q :: IsPath(a, q) && !Prefix(q, p) ==> At(a, q) == At(b, q))
  }

  lemma EditLabel(e: Element, p: Path, v: Element)
    requires IsPath(e, p) && v.children == At(e, p).children
    ensures SameExceptLabelAt(e, Replace(e, p, v), p)
    ensures IsPath(Replace(e, p, v), p) && At(Replace(e, p, v), p) == v
  {
    var e' := Replace(e, p, v);
    ReplaceAt(e, p, v);
    forall q
      ensures IsPath(e, q) <==> IsPath(e', q)
      ensures IsPath(e, q) && q != p ==> Label(At(e, q)) == Label(At(e', q))
      ensures IsPath(e, q) && !Prefix(q, p) ==> At(e, q) == At(e', q)
    {
      if Prefix(p, q) {
        if q != p {
          ReplaceLabelInside(e, p, v, q);
        }
      } else {
        ReplaceOutside(e, p, v, q);
      }
    }
  }

  /** Editing a node below c to one with the same tag keeps c's tag and its children's tags. */
  lemma KeepsChildTags(c: Element, q: Path, v: Element)
    requires IsPath(c, q) && |q| > 0 && v.tag == At(c, q).tag
    ensures Replace(c, q, v).tag == c.tag
    ensures |Replace(c, q, v).children| == |c.children|
    ensures forall j :: 0 <= j < |c.children| ==> Replace(c, q, v).children[j].tag == c.children[j].tag
  {
    var d := c.children[q[0]];
    assert Replace(d, q[1..], v).tag == d.tag;
  }

  lemma {:induction false} FirstChildFromByTags(a: seq<Element>, b: seq<Element>, tag: string, i: nat)
    requires |a| == |b| && i <= |a|
    requires forall j :: 0 <= j < |a| ==> a[j].tag == b[j].tag
    ensures FirstChildFrom(a, tag, i) == FirstChildFrom(b, tag, i)
    decreases |a| - i
  {
    if i < |a| {
      FirstChildFromByTags(a, b, tag, i + 1);
    }
  }

  /** Whether a selector matches depends only on the tags of an element and of its children. */
  lemma MatchesByTags(a: Element, b: Element, sel: Selector)
    requires a.tag == b.tag && |a.children| == |b.children|
    requires forall j :: 0 <= j < |a.children| ==> a.children[j].tag == b.children[j].tag
    ensures Matches(a, sel) == Matches(b, sel)
  {
    if sel.TagWithChild? {
      FirstChildFromByTags(a.children, b.children, sel.child, 0);
    }
  }

  /** A find returns the FIRST match in document order, and finds nothing
      only when there is nothing to find. */
  lemma {:induction false} FindFromIsFirst(e: Element, i: nat, sel: Selector)
    requires i <= |e.children|
    ensures FindFrom(e, i, sel).Some? ==> forall q :: IsPath(e, q) && |q| > 0 && q[0] >= i && Before(q, FindFrom(e, i, sel).value) ==> !Matches(At(e, q), sel)
    ensures FindFrom(e, i, sel).None? ==> forall q :: IsPath(e, q) && |q| > 0 && q[0] >= i ==> !Matches(At(e, q), sel)
    decreases e, |e.children| - i
  {
    if i < |e.children| && !Matches(e.children[i], sel) {
      var c := e.children[i];
      FindFromIsFirst(c, 0, sel);
      FindFromIsFirst(e, i + 1, sel);
      var r := FindFrom(e, i, sel);
      forall q | IsPath(e, q) && |q| > 0 && q[0] >= i && (r.Some? ==> Before(q, r.value))
        ensures !Matches(At(e, q), sel)
      {
        if q[0] == i && |q| > 1 {
          assert At(e, q) == At(c, q[1..]);
          match FindFrom(c, 0, sel)
          case Some(q') =>
            assert r.value == [i] + q' && ([i] + q')[1..] == q';
          case None =>
        }
      }
    }
  }

  lemma FindIsFirst(e: Element, sel: Selector)
    ensures Find(e, sel).Some? ==> forall q :: IsPath(e, q) && |q| > 0 && Before(q, Find(e, sel).value) ==> !Matches(At(e, q), sel)
    ensures Find(e, sel).None? ==> forall q :: IsPath(e, q) && |q| > 0 ==> !Matches(At(e, q), sel)
  {
    FindFromIsFirst(e, 0, sel);
  }

  /** `.//A/B` in document order: the A is the first A below e with a B child,
      and the B is its first B child. None means no A below e has a B child. */
  lemma FindPairIsFirst(e: Element, parent: string, child: string)
    ensures FindPair(e, parent, child).None? ==>
      forall q :: IsPath(e, q) && |q| > 0 ==> !Matches(At(e, q), TagWithChild(parent, child))
    ensures FindPair(e, parent, child).Some? ==>
      var r := FindPair(e, parent, child).value;
      var up := r[..|r| - 1];
      && (forall q :: IsPath(e, q) && |q| > 0 && Before(q, up) ==> !Matches(At(e, q), TagWithChild(parent, child)))
      && FirstChild(At(e, up).children, child) == Some(r[|r| - 1])
  {
    FindIsFirst(e, TagWithChild(parent, child));
    if FindPair(e, parent, child).Some? {
      var p := Find(e, TagWithChild(parent, child)).value;
      var k := FirstChild(At(e, p).children, child).value;
      assert FindPair(e, parent, child).value == p + [k];
      assert (p + [k])[..|p + [k]| - 1] == p;
    }
  }

  /** Replacing the node a find returned by one the selector still matches does
      not move the find's answer. */
  lemma {:induction false} FindAfterReplace(e: Element, i: nat, sel: Selector, p: Path, v: Element)
    requires i <= |e.children| && FindFrom(e, i, sel) == Some(p)
    requires v.tag == At(e, p).tag && Matches(v, sel)
    ensures FindFrom(Replace(e, p, v), i, sel) == Some(p)
    decreases e, |e.children| - i
  {
    var e' := Replace(e, p, v);
    var c := e.children[i];
    if Matches(c, sel) {
      assert p == [i] && p[1..] == [];
      assert Replace(c, p[1..], v) == v;
      assert e'.children[i] == v;
    } else {
      match FindFrom(c, 0, sel)
      case Some(q) =>
        assert p == [i] + q && p[1..] == q;
        FindAfterReplace(c, 0, sel, q, v);
        KeepsChildTags(c, q, v);
        MatchesByTags(c, Replace(c, q, v), sel);
        assert e'.children[i] == Replace(c, q, v);
      case None =>
        FindAfterReplace(e, i + 1, sel, p, v);
        assert e'.children[i] == c;
    }
  }

  /** a and b have the same shape and the same tags everywhere: what every search depends on. */
  ghost predicate SameTags(a: Element, b: Element)
    decreases a
  {
    && a.tag == b.tag
    && |a.children| == |b.children|
    && forall j :: 0 <= j < |a.children| ==> SameTags(a.children[j], b.children[j])
  }

  lemma {:induction false} SameTagsRefl(e: Element)
    ensures SameTags(e, e)
    decreases e
  {
    forall j | 0 <= j < |e.children|
      ensures SameTags(e.children[j], e.children[j])
    {
      SameTagsRefl(e.children[j]);
    }
  }

  /** Replacing a node by one of the same shape and tags keeps the whole tree's. */
  lemma {:induction false} ReplaceSameTags(e: Element, p: Path, v: Element)
    requires IsPath(e, p) && SameTags(At(e, p), v)
    ensures SameTags(e, Replace(e, p, v))
    decreases |p|
  {
    if |p| > 0 {
      var e' := Replace(e, p, v);
      ReplaceSameTags(e.children[p[0]], p[1..], v);
      forall j | 0 <= j < |e.children|
        ensures SameTags(e.children[j], e'.children[j])
      {
        if j != p[0] {
          SameTagsRefl(e.children[j]);
        }
      }
    }
  }

  lemma {:induction false} AtSameTags(a: Element, b: Element, q: Path)
    requires SameTags(a, b) && IsPath(a, q)
    ensures IsPath(b, q) && SameTags(At(a, q), At(b, q))
    decreases |q|
  {
    if |q| > 0 {
      AtSameTags(a.children[q[0]], b.children[q[0]], q[1..]);
    }
  }

  lemma MatchesSameTags(a: Element, b: Element, sel: Selector)
    requires SameTags(a, b)
    ensures Matches(a, sel) == Matches(b, sel)
  {
    FirstChildFromByTags(a.children, b.children, sel.tag, 0);
    if sel.TagWithChild? {
      FirstChildFromByTags(a.children, b.children, sel.child, 0);
    }
  }

  lemma {:induction false} FindFromSameTags(a: Element, b: Element, i: nat, sel: Selector)
    requires SameTags(a, b) && i <= |a.children|
    ensures FindFrom(a, i, sel) == FindFrom(b, i, sel)
    decreases a, |a.children| - i
  {
    if i < |a.children| {
      MatchesSameTags(a.children[i], b.children[i], sel);
      FindFromSameTags(a.children[i], b.children[i], 0, sel);
      FindFromSameTags(a, b, i + 1, sel);
    }
  }

  /** `.//A/B` finds the same path in trees with the same shape and tags. */
  lemma FindPairSameTags(a: Element, b: Element, parent: string, child: string)
    requires SameTags(a, b)
    ensures FindPair(a, parent, child) == FindPair(b, parent, child)
  {
    FindFromSameTags(a, b, 0, TagWithChild(parent, child));
    var r := Find(a, TagWithChild(parent, child));
    if r.Some? {
      AtSameTags(a, b, r.value);
      FirstChildFromByTags(At(a, r.value).children, At(b, r.value).children, child, 0);
    }
  }

  /** `parent + [k]` is a path exactly when k indexes a child of the node at `parent`. */
  lemma {:induction false} ChildPath(e: Element, parent: Path, k: nat)
    requires IsPath(e, parent + [k])
    ensures IsPath(e, parent) && k < |At(e, parent).children| && At(e, parent + [k]) == At(e, parent).children[k]
    decreases |parent|
  {
    if |parent| == 0 {
      assert parent + [k] == [k];
      assert [k][1..] == [];
    } else {
      assert (parent + [k])[1..] == parent[1..] + [k];
      ChildPath(e.children[parent[0]], parent[1..], k);
    }
  }
}
