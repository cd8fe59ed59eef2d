/**
  An immutable model of the parsed markup tree that BeautifulSoup builds.

  A document is the forest of top-level nodes under the soup object. A node is
  either an element (tag name, attributes in insertion order, children) or a
  piece of text; comments, doctypes and other string subclasses are all text
  here. A node is addressed by a non-empty path of child indices from the
  top-level forest.

  `soup.head`, `soup.title` and `soup.html` are searches for the first element
  with that name in document order; `Find` models that search, and `FirstAt`
  states independently what "first in document order" means in terms of paths.
 */
module Dom {

  datatype Option<T> = None | Some(value: T)

  /** One attribute of an element. */
  datatype Attr = Attr(key: string, value: string)

  datatype Node =
    | Element(name: string, attrs: seq<Attr>, children: seq<Node>)
    | Text(text: string)

  /** Child indices leading from the top-level forest to one node. */
  type Path = seq<nat>

  predicate Named(n: Node, name: string)
  {
    n.Element? && n.name == name
  }

  /** Two elements with the same name and attributes (children may differ). */
  predicate SameTag(a: Node, b: Node)
  {
    a.Element? && b.Element? && a.name == b.name && a.attrs == b.attrs
  }

  /** `p` addresses a node of the forest `f`. */
  predicate ValidPath(f: seq<Node>, p: Path)
    decreases |p|
  {
    && |p| > 0
    && p[0] < |f|
    && (|p| == 1 || (f[p[0]].Element? && ValidPath(f[p[0]].children, p[1..])))
  }

  function NodeAt(f: seq<Node>, p: Path): Node
    requires ValidPath(f, p)
    decreases |p|
  {
    if |p| == 1 then f[p[0]] else NodeAt(f[p[0]].children, p[1..])
  }

  /**
    Strict document order (pre-order) on paths: an ancestor comes before its
    descendants, and an earlier sibling's whole subtree comes before a later
    sibling.
   */
  predicate Before(a: Path, b: Path)
    decreases |a|
  {
    if |a| == 0 then |b| > 0
    else |b| > 0 && (a[0] < b[0] || (a[0] == b[0] && Before(a[1..], b[1..])))
  }

  /** `p` is the first element named `name` in document order. */
  ghost predicate FirstAt(f: seq<Node>, p: Path, name: string)
  {
    && ValidPath(f, p)
    && Named(NodeAt(f, p), name)
    && forall q :: ValidPath(f, q) && Before(q, p) ==> !Named(NodeAt(f, q), name)
  }

  /** No element of the forest is named `name`. */
  ghost predicate NoneNamed(f: seq<Node>, name: string)
  {
    forall q :: ValidPath(f, q) ==> !Named(NodeAt(f, q), name)
  }

  /**
    `g` keeps every node of `f` at its path, unchanged, except that the element
    at `p` and its ancestors may have different children.
   */
  ghost predicate Keeps(f: seq<Node>, g: seq<Node>, p: Path)
  {
    forall q :: ValidPath(f, q) ==>
      && ValidPath(g, q)
      && (if q <= p then SameTag(NodeAt(g, q), NodeAt(f, q)) else NodeAt(g, q) == NodeAt(f, q))
  }

  /**
    Outside the subtree at `p`, `g` keeps every node of `f` unchanged, except
    that the ancestors of `p` may have different children (as many as before).
   */
  ghost predicate KeepsOutside(f: seq<Node>, g: seq<Node>, p: Path)
  {
    forall q :: ValidPath(f, q) && !(p <= q) ==>
      && ValidPath(g, q)
      && (if q < p then SameTag(NodeAt(g, q), NodeAt(f, q)) && |NodeAt(g, q).children| == |NodeAt(f, q).children|
          else NodeAt(g, q) == NodeAt(f, q))
  }

  /** Every path of `g` that `f` lacks lies below a child of `p` with index `k` or more. */
  ghost predicate NewOnlyBelow(f: seq<Node>, g: seq<Node>, p: Path, k: nat)
  {
    forall q :: ValidPath(g, q) && !ValidPath(f, q) ==> p < q && q[|p|] >= k
  }

  // ---------------------------------------------------------------------------
  // Paths and document order

  lemma PathConcat(f: seq<Node>, p: Path, r: Path)
    requires ValidPath(f, p) && |r| > 0
    ensures ValidPath(f, p + r) <==> (NodeAt(f, p).Element? && ValidPath(NodeAt(f, p).children, r))
    ensures ValidPath(f, p + r) ==> NodeAt(f, p + r) == NodeAt(NodeAt(f, p).children, r)
    decreases |p|
  {
    assert (p + r)[0] == p[0];
    if |p| == 1 {
      assert (p + r)[1..] == r;
    } else {
      assert (p + r)[1..] == p[1..] + r;
      PathConcat(f[p[0]].children, p[1..], r);
    }
  }

  // Facts about `Before`. Together they show it is a strict total order that
  // puts every node after its ancestors, which is document (pre-)order. Some
  // are used by the proofs below; the others are kept as sanity facts.

  lemma BeforeIrreflexive(a: Path)
    ensures !Before(a, a)
    decreases |a|
  {
  }

  lemma {:induction false} BeforeAsymmetric(a: Path, b: Path)
    requires Before(a, b)
    ensures !Before(b, a)
    decreases |a|
  {
    if |a| > 0 && a[0] == b[0] {
      BeforeAsymmetric(a[1..], b[1..]);
    }
  }

  lemma {:induction false} BeforeTransitive(a: Path, b: Path, c: Path)
    requires Before(a, b) && Before(b, c)
    ensures Before(a, c)
    decreases |a|
  {
    if |a| > 0 && a[0] == b[0] && b[0] == c[0] {
      BeforeTransitive(a[1..], b[1..], c[1..]);
    }
  }

  lemma {:induction false} BeforeTotal(a: Path, b: Path)
    requires a != b
    ensures Before(a, b) || Before(b, a)
    decreases |a|
  {
    if |a| > 0 && |b| > 0 && a[0] == b[0] {
      assert a == [a[0]] + a[1..] && b == [b[0]] + b[1..];
      BeforeTotal(a[1..], b[1..]);
    }
  }

  /** A node never comes before one of its ancestors. */
  lemma {:induction false} BeforeNotBelow(a: Path, b: Path)
    requires Before(a, b)
    ensures !(b <= a)
    decreases |a|
  {
    if |a| > 0 && a[0] == b[0] {
      BeforeNotBelow(a[1..], b[1..]);
    }
  }

  /** An ancestor comes before its descendants. */
  lemma {:induction false} AncestorBefore(a: Path, b: Path)
    requires a < b
    ensures Before(a, b)
    decreases |a|
  {
    if |a| > 0 {
      AncestorBefore(a[1..], b[1..]);
    }
  }

  /** If a node precedes `b`, so does each of its ancestors that is not an ancestor of `b`. */
  lemma {:induction false} DescendantBefore(a: Path, q: Path, b: Path)
    requires a <= q && Before(q, b) && !(a <= b)
    ensures Before(a, b)
    decreases |a|
  {
    if a[0] == b[0] {
      DescendantBefore(a[1..], q[1..], b[1..]);
    }
  }

  /** If `a` precedes `b` and is not its ancestor, all of `a`'s subtree precedes `b`. */
  lemma {:induction false} BeforeSubtree(a: Path, b: Path, r: Path)
    requires Before(a, b) && !(a <= b)
    ensures Before(a + r, b)
    decreases |a|
  {
    assert |a| > 0;
    assert (a + r)[0] == a[0];
    if a[0] == b[0] {
      assert (a + r)[1..] == a[1..] + r;
      BeforeSubtree(a[1..], b[1..], r);
    }
  }

  // ---------------------------------------------------------------------------
  // First match in document order

  function FindFrom(f: seq<Node>, i: nat, name: string): (r: Option<Path>)
    requires i <= |f|
    ensures r.Some? ==> ValidPath(f, r.value) && r.value[0] >= i && Named(NodeAt(f, r.value), name)
    decreases f, |f| - i
  {
    if i == |f| then None
    else if Named(f[i], name) then Some([i])
    else match (if f[i].Element? then FindFrom(f[i].children, 0, name) else None)
      case Some(p) =>
        assert ([i] + p)[1..] == p;
        Some([i] + p)
      case None => FindFrom(f, i + 1, name)
  }

  lemma {:induction false} FindFromFirst(f: seq<Node>, i: nat, name: string)
    requires i <= |f|
    ensures FindFrom(f, i, name).Some? ==>
      forall q :: ValidPath(f, q) && q[0] >= i && Before(q, FindFrom(f, i, name).value) ==> !Named(NodeAt(f, q), name)
    ensures FindFrom(f, i, name).None? ==>
      forall q :: ValidPath(f, q) && q[0] >= i ==> !Named(NodeAt(f, q), name)
    decreases f, |f| - i
  {
    if i == |f| {
    } else if Named(f[i], name) {
      forall q | ValidPath(f, q) && q[0] >= i
        ensures !Before(q, [i])
      {
        assert !Before(q[1..], []);
      }
    } else {
      var inner := if f[i].Element? then FindFrom(f[i].children, 0, name) else None;
      if f[i].Element? {
        FindFromFirst(f[i].children, 0, name);
      }
      FindFromFirst(f, i + 1, name);
      // Paths through f[i]: f[i] itself is not named, and below it only the inner search applies.
      forall q | ValidPath(f, q) && q[0] == i && |q| > 1
        ensures f[i].Element? && ValidPath(f[i].children, q[1..]) && NodeAt(f, q) == NodeAt(f[i].children, q[1..])
      {
      }
      match inner
      case Some(p) =>
        forall q | ValidPath(f, q) && q[0] >= i && Before(q, [i] + p)
          ensures !Named(NodeAt(f, q), name)
        {
          assert q[0] == i;
          if |q| > 1 {
            assert Before(q[1..], ([i] + p)[1..]);
            assert ([i] + p)[1..] == p;
          }
        }
      case None =>
    }
  }

  /** `soup.find(name)`: the first element named `name` in document order. */
  function Find(f: seq<Node>, name: string): (r: Option<Path>)
    ensures r.Some? <==> !NoneNamed(f, name)
    ensures r.Some? ==> FirstAt(f, r.value, name)
  {
    FindFromFirst(f, 0, name);
    FindFrom(f, 0, name)
  }

  lemma {:induction false} FirstAtUnique(f: seq<Node>, p: Path, p': Path, name: string)
    requires FirstAt(f, p, name) && FirstAt(f, p', name)
    ensures p == p'
  {
    if p != p' {
      BeforeTotal(p, p');
    }
  }

  /** The search result is exactly the path that `FirstAt` describes. */
  lemma FindIsFirst(f: seq<Node>, p: Path, name: string)
    ensures Find(f, name) == Some(p) <==> FirstAt(f, p, name)
  {
    if FirstAt(f, p, name) {
      FirstAtUnique(f, p, Find(f, name).value, name);
    }
  }

  // ---------------------------------------------------------------------------
  // Counting elements by name

  function CountNode(n: Node, name: string): nat
    decreases n
  {
    match n
    case Text(_) => 0
    case Element(nm, _, cs) => (if nm == name then 1 else 0) + Count(cs, name)
  }

  /** The number of elements named `name` anywhere in the forest. */
  function Count(f: seq<Node>, name: string): nat
    decreases f
  {
    if |f| == 0 then 0 else Count(f[..|f| - 1], name) + CountNode(f[|f| - 1], name)
  }

  lemma CountSnoc(f: seq<Node>, x: Node, name: string)
    ensures Count(f + [x], name) == Count(f, name) + CountNode(x, name)
  {
  }

  lemma CountText(s: string, name: string)
    ensures Count([Text(s)], name) == 0
  {
  }

  lemma {:induction false} CountCons(x: Node, f: seq<Node>, name: string)
    ensures Count([x] + f, name) == CountNode(x, name) + Count(f, name)
    decreases |f|
  {
    if |f| > 0 {
      assert ([x] + f)[..|f|] == [x] + f[..|f| - 1];
      CountCons(x, f[..|f| - 1], name);
    }
  }

  lemma {:induction false} CountUpdate(f: seq<Node>, i: nat, x: Node, name: string)
    requires i < |f|
    ensures Count(f[i := x], name) + CountNode(f[i], name) == Count(f, name) + CountNode(x, name)
    decreases |f|
  {
    var g := f[i := x];
    var last := |f| - 1;
    if i == last {
      assert g[..last] == f[..last];
    } else {
      assert g[..last] == f[..last][i := x];
      CountUpdate(f[..last], i, x, name);
    }
  }

  lemma {:induction false} CountZeroEach(f: seq<Node>, name: string)
    ensures Count(f, name) == 0 <==> forall i :: 0 <= i < |f| ==> CountNode(f[i], name) == 0
    decreases |f|
  {
    if |f| > 0 {
      var init := f[..|f| - 1];
      CountZeroEach(init, name);
      assert forall i :: 0 <= i < |init| ==> init[i] == f[i];
    }
  }

  lemma NoneNamedEach(f: seq<Node>, name: string)
    ensures NoneNamed(f, name) <==>
      forall i :: 0 <= i < |f| ==> !Named(f[i], name) && (f[i].Element? ==> NoneNamed(f[i].children, name))
  {
    if NoneNamed(f, name) {
      forall i | 0 <= i < |f|
        ensures !Named(f[i], name) && (f[i].Element? ==> NoneNamed(f[i].children, name))
      {
        assert ValidPath(f, [i]);
        if f[i].Element? {
          forall r | ValidPath(f[i].children, r) ensures !Named(NodeAt(f[i].children, r), name) {
            PathConcat(f, [i], r);
          }
        }
      }
    }
    if forall i :: 0 <= i < |f| ==> !Named(f[i], name) && (f[i].Element? ==> NoneNamed(f[i].children, name)) {
      forall q | ValidPath(f, q) ensures !Named(NodeAt(f, q), name) {
        if |q| > 1 {
          assert q == [q[0]] + q[1..];
          PathConcat(f, [q[0]], q[1..]);
        }
      }
    }
  }

  /** Counting finds nothing exactly when no path addresses such an element. */
  lemma {:induction false} CountZero(f: seq<Node>, name: string)
    ensures Count(f, name) == 0 <==> NoneNamed(f, name)
    decreases f
  {
    CountZeroEach(f, name);
    NoneNamedEach(f, name);
    forall i | 0 <= i < |f| && f[i].Element?
      ensures Count(f[i].children, name) == 0 <==> NoneNamed(f[i].children, name)
    {
      CountZero(f[i].children, name);
    }
  }

  // ---------------------------------------------------------------------------
  // Replacing the node at a path

  function ReplaceAt(f: seq<Node>, p: Path, n: Node): (g: seq<Node>)
    requires ValidPath(f, p)
    ensures |g| == |f|
    decreases |p|
  {
    var c := f[p[0]];
    if |p| == 1 then f[p[0] := n]
    else f[p[0] := Element(c.name, c.attrs, ReplaceAt(c.children, p[1..], n))]
  }

  lemma ReplaceAtHit(f: seq<Node>, p: Path, n: Node)
    requires ValidPath(f, p)
    ensures ValidPath(ReplaceAt(f, p, n), p) && NodeAt(ReplaceAt(f, p, n), p) == n
    decreases |p|
  {
  }

  /**
    Outside the replaced subtree nothing changes, except that the ancestors of
    the replaced node get new children (same tag, same number of children).
   */
  lemma {:induction false} ReplaceAtFrame(f: seq<Node>, p: Path, n: Node, q: Path)
    requires ValidPath(f, p) && ValidPath(f, q) && !(p <= q)
    ensures ValidPath(ReplaceAt(f, p, n), q)
    ensures q < p ==>
      && SameTag(NodeAt(ReplaceAt(f, p, n), q), NodeAt(f, q))
      && |NodeAt(ReplaceAt(f, p, n), q).children| == |NodeAt(f, q).children|
    ensures !(q < p) ==> NodeAt(ReplaceAt(f, p, n), q) == NodeAt(f, q)
    decreases |p|
  {
    var g := ReplaceAt(f, p, n);
    if q[0] != p[0] {
      assert g[q[0]] == f[q[0]];
      assert !(q < p);
    } else {
      assert |p| > 1;
      var c := f[p[0]];
      assert g[p[0]] == Element(c.name, c.attrs, ReplaceAt(c.children, p[1..], n));
      if |q| > 1 {
        assert !(p[1..] <= q[1..]);
        ReplaceAtFrame(c.children, p[1..], n, q[1..]);
        assert q < p <==> q[1..] < p[1..];
      } else {
        assert q < p;
      }
    }
  }

  /** A path of the new forest outside the replaced subtree was already a path. */
  lemma {:induction false} ReplaceAtBack(f: seq<Node>, p: Path, n: Node, q: Path)
    requires ValidPath(f, p) && ValidPath(ReplaceAt(f, p, n), q) && !(p <= q)
    ensures ValidPath(f, q)
    decreases |p|
  {
    var g := ReplaceAt(f, p, n);
    if q[0] != p[0] {
      assert g[q[0]] == f[q[0]];
    } else if |q| > 1 {
      var c := f[p[0]];
      assert |p| > 1;
      assert !(p[1..] <= q[1..]);
      ReplaceAtBack(c.children, p[1..], n, q[1..]);
    }
  }

  /** Below the replaced node, the new forest has exactly the new node's subtree. */
  lemma ReplaceAtBelow(f: seq<Node>, p: Path, n: Node, r: Path)
    requires ValidPath(f, p) && |r| > 0
    ensures ValidPath(ReplaceAt(f, p, n), p + r) <==> (n.Element? && ValidPath(n.children, r))
    ensures ValidPath(ReplaceAt(f, p, n), p + r) ==> NodeAt(ReplaceAt(f, p, n), p + r) == NodeAt(n.children, r)
  {
    ReplaceAtHit(f, p, n);
    PathConcat(ReplaceAt(f, p, n), p, r);
  }

  lemma ReplaceAtKeepsOutside(f: seq<Node>, p: Path, n: Node)
    requires ValidPath(f, p)
    ensures KeepsOutside(f, ReplaceAt(f, p, n), p)
    ensures forall q :: ValidPath(ReplaceAt(f, p, n), q) && !(p <= q) ==> ValidPath(f, q)
  {
  }

  /** Putting back the node that is already there changes nothing. */
  lemma {:induction false} ReplaceAtSame(f: seq<Node>, p: Path)
    requires ValidPath(f, p)
    ensures ReplaceAt(f, p, NodeAt(f, p)) == f
    decreases |p|
  {
    if |p| > 1 {
      ReplaceAtSame(f[p[0]].children, p[1..]);
    }
  }

  lemma {:induction false} ReplaceAtCount(f: seq<Node>, p: Path, n: Node, name: string)
    requires ValidPath(f, p)
    ensures Count(ReplaceAt(f, p, n), name) + CountNode(NodeAt(f, p), name)
         == Count(f, name) + CountNode(n, name)
    decreases |p|
  {
    var c := f[p[0]];
    if |p| == 1 {
      CountUpdate(f, p[0], n, name);
    } else {
      var c' := Element(c.name, c.attrs, ReplaceAt(c.children, p[1..], n));
      ReplaceAtCount(c.children, p[1..], n, name);
      CountUpdate(f, p[0], c', name);
    }
  }

  /**
    Replacing a node by one of the same name, or replacing a node that is
    neither the first match nor one of its ancestors, keeps the first match
    where it was, as long as a replacement earlier in the document brings in
    no element of that name.
   */
  lemma ReplaceKeepsFirst(f: seq<Node>, p0: Path, q0: Path, n: Node, name: string)
    requires FirstAt(f, p0, name) && ValidPath(f, q0)
    requires if q0 == p0 then Named(n, name) else !(q0 < p0)
    requires Before(q0, p0) ==> CountNode(n, name) == 0
    ensures FirstAt(ReplaceAt(f, q0, n), p0, name)
  {
    var g := ReplaceAt(f, q0, n);
    if q0 == p0 {
      ReplaceAtHit(f, q0, n);
    } else {
      ReplaceAtFrame(f, q0, n, p0);
    }
    forall q | ValidPath(g, q) && Before(q, p0)
      ensures !Named(NodeAt(g, q), name)
    {
      BeforeNotBelow(q, p0);
      if q0 <= q {
        // q lies in the new subtree, which then precedes p0 and has no such element.
        DescendantBefore(q0, q, p0);
        if q == q0 {
          ReplaceAtHit(f, q0, n);
        } else {
          var r := q[|q0|..];
          assert q == q0 + r;
          ReplaceAtBelow(f, q0, n, r);
          CountZero(n.children, name);
        }
      } else {
        ReplaceAtBack(f, q0, n, q);
        ReplaceAtFrame(f, q0, n, q);
      }
    }
  }

  // ---------------------------------------------------------------------------
  // Appending a child to the element at a path

  /** `tag.append(x)` on the element at `p`. */
  function AppendChild(f: seq<Node>, p: Path, x: Node): seq<Node>
    requires ValidPath(f, p) && NodeAt(f, p).Element?
  {
    var e := NodeAt(f, p);
    ReplaceAt(f, p, Element(e.name, e.attrs, e.children + [x]))
  }

  lemma {:induction false} NodeAtSnoc(cs: seq<Node>, x: Node, r: Path)
    requires |r| > 0
    ensures ValidPath(cs, r) ==> ValidPath(cs + [x], r) && NodeAt(cs + [x], r) == NodeAt(cs, r)
    ensures ValidPath(cs + [x], r) && !ValidPath(cs, r) ==> [|cs|] <= r
  {
    if r[0] < |cs| {
      assert (cs + [x])[r[0]] == cs[r[0]];
    }
  }

  /**
    Appending keeps every existing node at its path. The node at `p` and its
    ancestors keep their tags, the node at `p` gains `x` as its last child, and
    every new path lies within `x`.
   */
  lemma AppendChildFrame(f: seq<Node>, p: Path, x: Node, q: Path)
    requires ValidPath(f, p) && NodeAt(f, p).Element?
    ensures ValidPath(AppendChild(f, p, x), p)
    ensures SameTag(NodeAt(AppendChild(f, p, x), p), NodeAt(f, p))
    ensures NodeAt(AppendChild(f, p, x), p).children == NodeAt(f, p).children + [x]
    ensures ValidPath(f, q) ==> ValidPath(AppendChild(f, p, x), q)
    ensures ValidPath(f, q) && q <= p ==> SameTag(NodeAt(AppendChild(f, p, x), q), NodeAt(f, q))
    ensures ValidPath(f, q) && q < p ==>
      |NodeAt(AppendChild(f, p, x), q).children| == |NodeAt(f, q).children|
    ensures ValidPath(f, q) && !(q <= p) ==> NodeAt(AppendChild(f, p, x), q) == NodeAt(f, q)
    ensures ValidPath(AppendChild(f, p, x), q) && !ValidPath(f, q) ==> p + [|NodeAt(f, p).children|] <= q
  {
    var e := NodeAt(f, p);
    var e' := Element(e.name, e.attrs, e.children + [x]);
    var g := AppendChild(f, p, x);
    ReplaceAtHit(f, p, e');
    if p <= q && q != p {
      var r := q[|p|..];
      assert q == p + r;
      ReplaceAtBelow(f, p, e', r);
      PathConcat(f, p, r);
      NodeAtSnoc(e.children, x, r);
      if ValidPath(g, q) && !ValidPath(f, q) {
        assert p + [|e.children|] == q[..|p| + 1];
      }
    } else if !(p <= q) {
      if ValidPath(f, q) {
        ReplaceAtFrame(f, p, e', q);
      }
      if ValidPath(g, q) {
        ReplaceAtBack(f, p, e', q);
      }
    }
  }

  lemma AppendChildHit(f: seq<Node>, p: Path, x: Node)
    requires ValidPath(f, p) && NodeAt(f, p).Element?
    ensures ValidPath(AppendChild(f, p, x), p + [|NodeAt(f, p).children|])
    ensures NodeAt(AppendChild(f, p, x), p + [|NodeAt(f, p).children|]) == x
  {
    var e := NodeAt(f, p);
    var e' := Element(e.name, e.attrs, e.children + [x]);
    ReplaceAtBelow(f, p, e', [|e.children|]);
  }

  lemma AppendChildCount(f: seq<Node>, p: Path, x: Node, name: string)
    requires ValidPath(f, p) && NodeAt(f, p).Element?
    ensures Count(AppendChild(f, p, x), name) == Count(f, name) + CountNode(x, name)
  {
    var e := NodeAt(f, p);
    var e' := Element(e.name, e.attrs, e.children + [x]);
    ReplaceAtCount(f, p, e', name);
    CountSnoc(e.children, x, name);
  }

  /**
    Appending keeps the first match where it was, when the appended node brings
    in no element of that name or is appended under the match itself.
   */
  lemma AppendKeepsFirst(f: seq<Node>, p: Path, x: Node, p0: Path, name: string)
    requires ValidPath(f, p) && NodeAt(f, p).Element? && FirstAt(f, p0, name)
    requires p0 <= p || CountNode(x, name) == 0
    ensures FirstAt(AppendChild(f, p, x), p0, name)
  {
    var g := AppendChild(f, p, x);
    var k := |NodeAt(f, p).children|;
    AppendChildFrame(f, p, x, p0);
    forall q | ValidPath(g, q) && Before(q, p0)
      ensures !Named(NodeAt(g, q), name)
    {
      AppendChildFrame(f, p, x, q);
      if !ValidPath(f, q) {
        BeforeNotBelow(q, p0);
        assert !(p0 <= p);
        var r := q[|p| + 1..];
        assert q == (p + [k]) + r;
        AppendChildHit(f, p, x);
        if r != [] {
          PathConcat(g, p + [k], r);
          if x.Element? {
            CountZero(x.children, name);
          }
        } else {
          assert q == p + [k];
        }
      } else if q <= p {
        assert SameTag(NodeAt(g, q), NodeAt(f, q));
      } else {
        assert NodeAt(g, q) == NodeAt(f, q);
      }
    }
  }

  /** When the forest has no element named `name`, an appended one is the first. */
  lemma AppendFirstNew(f: seq<Node>, p: Path, x: Node, name: string)
    requires ValidPath(f, p) && NodeAt(f, p).Element? && NoneNamed(f, name) && Named(x, name)
    ensures FirstAt(AppendChild(f, p, x), p + [|NodeAt(f, p).children|], name)
  {
    var g := AppendChild(f, p, x);
    var k := |NodeAt(f, p).children|;
    AppendChildHit(f, p, x);
    forall q | ValidPath(g, q) && Before(q, p + [k])
      ensures !Named(NodeAt(g, q), name)
    {
      AppendChildFrame(f, p, x, q);
      BeforeNotBelow(q, p + [k]);
      assert ValidPath(f, q);
      assert !Named(NodeAt(f, q), name);
      if q <= p {
        assert SameTag(NodeAt(g, q), NodeAt(f, q));
      } else {
        assert NodeAt(g, q) == NodeAt(f, q);
      }
    }
  }

  lemma AppendChildKeeps(f: seq<Node>, p: Path, x: Node)
    requires ValidPath(f, p) && NodeAt(f, p).Element?
    ensures Keeps(f, AppendChild(f, p, x), p)
    ensures NewOnlyBelow(f, AppendChild(f, p, x), p, |NodeAt(f, p).children|)
  {
    var g := AppendChild(f, p, x);
    var k := |NodeAt(f, p).children|;
    forall q | ValidPath(f, q)
      ensures ValidPath(g, q)
      ensures if q <= p then SameTag(NodeAt(g, q), NodeAt(f, q)) else NodeAt(g, q) == NodeAt(f, q)
    {
      AppendChildFrame(f, p, x, q);
    }
    forall q | ValidPath(g, q) && !ValidPath(f, q)
      ensures p < q && q[|p|] >= k
    {
      AppendChildFrame(f, p, x, q);
      assert q[..|p| + 1] == p + [k];
    }
  }

  /** Nothing below `p` comes before its first child. */
  lemma {:induction false} NothingBeforeFirstChild(p: Path, q: Path)
    ensures p < q ==> !Before(q, p + [0])
    decreases |p|
  {
    if |p| > 0 && p < q {
      assert (p + [0])[1..] == p[1..] + [0];
      NothingBeforeFirstChild(p[1..], q[1..]);
    }
  }

  /** `tag.insert(0, x)` on the element at `p`. */
  function PrependChild(f: seq<Node>, p: Path, x: Node): seq<Node>
    requires ValidPath(f, p) && NodeAt(f, p).Element?
  {
    var e := NodeAt(f, p);
    ReplaceAt(f, p, Element(e.name, e.attrs, [x] + e.children))
  }
}
