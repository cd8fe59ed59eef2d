/**
  The self-contained logic of the SEO dashboard script (seo.py).

  `optimize_html_page` is modelled as a tree edit on an already parsed
  document: make sure a `head` exists, set or create the `title`, then append
  a description and a keywords `meta` tag to the head. Each step is one
  function, so that the composed edit reads like the script. BeautifulSoup's
  `soup.head`, `soup.title` and `soup.html` are `Find`, re-evaluated at every
  use as in Python; attribute access on `None` (an `AttributeError`) is the
  `Err` case of `Result`.

  The keyword list the UI passes in is parsed from a comma-separated text field,
  and the robots.txt check builds its URL from the site URL; both are modelled
  as pure string functions.
 */
module Seo {
  import opened Dom
  import opened PyStr

  /** The `AttributeError` raised when `soup.html` or `soup.head` is `None`. */
  datatype Error = NoHtml | NoHead

  datatype Result<T> = Ok(value: T) | Err(error: Error)

  /** `soup.new_tag("head")` */
  function EmptyHead(): Node
  {
    Element("head", [], [])
  }

  /** A new `title` tag whose `.string` has been set to `title`. */
  function TitleTag(title: string): Node
  {
    Element("title", [], [Text(title)])
  }

  /** `soup.new_tag("meta", attrs={"name": name, "content": content})` */
  function Meta(name: string, content: string): Node
  {
    Element("meta", [Attr("name", name), Attr("content", content)], [])
  }

  /** `tag.string = s`: every child of the tag is replaced by one text node. */
  function WithString(n: Node, s: string): Node
    requires n.Element?
  {
    Element(n.name, n.attrs, [Text(s)])
  }

  /** `', '.join(keywords)` */
  function KeywordsContent(keywords: seq<string>): string
  {
    Join(keywords, ", ")
  }

  // ---------------------------------------------------------------------------
  // Step 1: a head exists (seo.py:32-34)

  /**
    The new empty head is child 0 of the element at `pm`, the old children
    follow it, and nothing outside that element changes. The top level keeps
    its length, so together with `KeepsOutside` every new path lies under `pm`.
   */
  ghost predicate HeadInserted(d: seq<Node>, pm: Path, d1: seq<Node>)
  {
    && ValidPath(d, pm) && NodeAt(d, pm).Element?
    && |d1| == |d|
    && ValidPath(d1, pm)
    && SameTag(NodeAt(d1, pm), NodeAt(d, pm))
    && NodeAt(d1, pm).children == [EmptyHead()] + NodeAt(d, pm).children
    && KeepsOutside(d, d1, pm)
    && Find(d1, "head") == Some(pm + [0])
  }

  lemma InsertHeadFacts(d: seq<Node>, pm: Path)
    requires NoneNamed(d, "head") && FirstAt(d, pm, "html")
    ensures HeadInserted(d, pm, PrependChild(d, pm, EmptyHead()))
    ensures forall nm :: Count(PrependChild(d, pm, EmptyHead()), nm)
                      == Count(d, nm) + (if nm == "head" then 1 else 0)
  {
    var html := NodeAt(d, pm);
    var html' := Element(html.name, html.attrs, [EmptyHead()] + html.children);
    var d1 := ReplaceAt(d, pm, html');
    ReplaceAtHit(d, pm, html');
    ReplaceAtKeepsOutside(d, pm, html');
    ReplaceAtBelow(d, pm, html', [0]);
    forall q | ValidPath(d1, q) && Before(q, pm + [0])
      ensures !Named(NodeAt(d1, q), "head")
    {
      BeforeNotBelow(q, pm + [0]);
      NothingBeforeFirstChild(pm, q);
      if !(pm <= q) {
        assert ValidPath(d, q);
        assert !Named(NodeAt(d, q), "head");
        if q < pm {
          assert SameTag(NodeAt(d1, q), NodeAt(d, q));
        } else {
          assert NodeAt(d1, q) == NodeAt(d, q);
        }
      } else {
        assert q == pm;
      }
    }
    FindIsFirst(d1, pm + [0], "head");
    forall nm
      ensures Count(d1, nm) == Count(d, nm) + (if nm == "head" then 1 else 0)
    {
      ReplaceAtCount(d, pm, html', nm);
      CountCons(EmptyHead(), html.children, nm);
    }
  }

  /**
    `if not soup.head: soup.html.insert(0, soup.new_tag("head"))`. Fails only
    when the document has neither a head nor an html element.
   */
  function EnsureHead(d: seq<Node>): (r: Result<seq<Node>>)
    ensures r.Err? <==> NoneNamed(d, "head") && NoneNamed(d, "html")
    ensures r.Err? ==> r.error == NoHtml
    ensures !NoneNamed(d, "head") ==> r == Ok(d)
    ensures NoneNamed(d, "head") && r.Ok? ==> HeadInserted(d, Find(d, "html").value, r.value)
    ensures r.Ok? ==> forall nm :: Count(r.value, nm)
                                == Count(d, nm) + (if NoneNamed(d, "head") && nm == "head" then 1 else 0)
  {
    match Find(d, "head")
    case Some(_) => Ok(d)
    case None =>
      match Find(d, "html")
      case None => Err(NoHtml)
      case Some(pm) =>
        InsertHeadFacts(d, pm);
        Ok(PrependChild(d, pm, EmptyHead()))
  }

  // ---------------------------------------------------------------------------
  // Appending to the head (seo.py:42, seo.py:47, seo.py:48)

  /**
    `g` is `d` with `x` appended as the last child of the first head, at `ph`;
    every other node stays where it was, and the first head is still `ph`.
   */
  ghost predicate Appended(d: seq<Node>, ph: Path, x: Node, g: seq<Node>)
  {
    && FirstAt(d, ph, "head")
    && ValidPath(g, ph)
    && SameTag(NodeAt(g, ph), NodeAt(d, ph))
    && NodeAt(g, ph).children == NodeAt(d, ph).children + [x]
    && Keeps(d, g, ph)
    && NewOnlyBelow(d, g, ph, |NodeAt(d, ph).children|)
    && Find(g, "head") == Some(ph)
    && forall nm :: Count(g, nm) == Count(d, nm) + CountNode(x, nm)
  }

  lemma AppendFacts(d: seq<Node>, ph: Path, x: Node)
    requires FirstAt(d, ph, "head")
    ensures Appended(d, ph, x, AppendChild(d, ph, x))
  {
    var g := AppendChild(d, ph, x);
    AppendChildFrame(d, ph, x, ph);
    AppendChildKeeps(d, ph, x);
    AppendKeepsFirst(d, ph, x, ph, "head");
    FindIsFirst(g, ph, "head");
    forall nm ensures Count(g, nm) == Count(d, nm) + CountNode(x, nm) {
      AppendChildCount(d, ph, x, nm);
    }
  }

  /** `soup.head.append(x)`: fails exactly when the document has no head. */
  function AppendToHead(d: seq<Node>, x: Node): (r: Result<seq<Node>>)
    ensures r.Ok? <==> !NoneNamed(d, "head")
    ensures r.Err? ==> r.error == NoHead
    ensures r.Ok? ==> Appended(d, Find(d, "head").value, x, r.value)
  {
    match Find(d, "head")
    case None => Err(NoHead)
    case Some(ph) =>
      AppendFacts(d, ph, x);
      Ok(AppendChild(d, ph, x))
  }

  // ---------------------------------------------------------------------------
  // Step 2: the title (seo.py:37-42)

  /**
    The first title, at `pt`, now holds exactly one text node `title`; it is
    still the first title; nothing outside it changes; the elements counted
    drop by those that were inside the old title; and the first head stays
    first unless it was inside the title. "Nothing outside it changes" covers
    both directions: every old node outside the title is still there, and no
    new path appears outside it.
   */
  ghost predicate TitleReset(d: seq<Node>, pt: Path, title: string, d2: seq<Node>)
  {
    && FirstAt(d, pt, "title")
    && ValidPath(d2, pt)
    && NodeAt(d2, pt) == WithString(NodeAt(d, pt), title)
    && Find(d2, "title") == Some(pt)
    && KeepsOutside(d, d2, pt)
    && |d2| == |d|
    && (forall q :: ValidPath(d2, q) && !(pt <= q) ==> ValidPath(d, q))
    && (forall nm :: Count(d2, nm) + Count(NodeAt(d, pt).children, nm) == Count(d, nm))
    && (Find(d, "head").Some? && !(pt < Find(d, "head").value) ==> Find(d2, "head") == Find(d, "head"))
  }

  lemma ResetTitleCount(d: seq<Node>, pt: Path, title: string)
    requires FirstAt(d, pt, "title")
    ensures forall nm :: Count(ReplaceAt(d, pt, WithString(NodeAt(d, pt), title)), nm)
                       + Count(NodeAt(d, pt).children, nm) == Count(d, nm)
  {
    var t := WithString(NodeAt(d, pt), title);
    forall nm ensures Count(ReplaceAt(d, pt, t), nm) + Count(NodeAt(d, pt).children, nm) == Count(d, nm) {
      ReplaceAtCount(d, pt, t, nm);
      CountText(title, nm);
    }
  }

  lemma ResetTitleKeepsHead(d: seq<Node>, pt: Path, title: string)
    requires FirstAt(d, pt, "title")
    ensures Find(d, "head").Some? && !(pt < Find(d, "head").value) ==>
      Find(ReplaceAt(d, pt, WithString(NodeAt(d, pt), title)), "head") == Find(d, "head")
  {
    var t := WithString(NodeAt(d, pt), title);
    match Find(d, "head")
    case Some(ph) =>
      if !(pt < ph) {
        assert pt != ph;
        CountText(title, "head");
        ReplaceKeepsFirst(d, ph, pt, t, "head");
        FindIsFirst(ReplaceAt(d, pt, t), ph, "head");
      }
    case None =>
  }

  lemma ResetTitleFacts(d: seq<Node>, pt: Path, title: string)
    requires FirstAt(d, pt, "title")
    ensures TitleReset(d, pt, title, ReplaceAt(d, pt, WithString(NodeAt(d, pt), title)))
  {
    var t := WithString(NodeAt(d, pt), title);
    var d2 := ReplaceAt(d, pt, t);
    ReplaceAtHit(d, pt, t);
    ReplaceAtKeepsOutside(d, pt, t);
    ReplaceKeepsFirst(d, pt, pt, t, "title");
    FindIsFirst(d2, pt, "title");
    ResetTitleCount(d, pt, title);
    ResetTitleKeepsHead(d, pt, title);
  }

  /** The new title is the last child of the first head, and the only title. */
  ghost predicate TitleAppended(d: seq<Node>, ph: Path, title: string, d2: seq<Node>)
  {
    && Appended(d, ph, TitleTag(title), d2)
    && Find(d2, "title") == Some(ph + [|NodeAt(d, ph).children|])
    && Count(d2, "title") == 1
  }

  lemma NewTitleFacts(d: seq<Node>, title: string)
    requires NoneNamed(d, "title")
    ensures AppendToHead(d, TitleTag(title)).Ok? ==>
      TitleAppended(d, Find(d, "head").value, title, AppendToHead(d, TitleTag(title)).value)
  {
    match Find(d, "head")
    case Some(ph) =>
      var k := |NodeAt(d, ph).children|;
      var g := AppendChild(d, ph, TitleTag(title));
      AppendFirstNew(d, ph, TitleTag(title), "title");
      FindIsFirst(g, ph + [k], "title");
      CountZero(d, "title");
      CountText(title, "title");
    case None =>
  }

  /**
    `if soup.title: soup.title.string = title` and otherwise a new title
    holding `title` appended to the head (which fails when there is no head).
   */
  function SetTitle(d: seq<Node>, title: string): (r: Result<seq<Node>>)
    ensures r.Err? ==> r.error == NoHead
    ensures !NoneNamed(d, "title") ==> r.Ok? && TitleReset(d, Find(d, "title").value, title, r.value)
    ensures NoneNamed(d, "title") ==> (r.Ok? <==> !NoneNamed(d, "head"))
    ensures NoneNamed(d, "title") && r.Ok? ==> TitleAppended(d, Find(d, "head").value, title, r.value)
  {
    match Find(d, "title")
    case Some(pt) =>
      ResetTitleFacts(d, pt, title);
      Ok(ReplaceAt(d, pt, WithString(NodeAt(d, pt), title)))
    case None =>
      NewTitleFacts(d, title);
      AppendToHead(d, TitleTag(title))
  }

  // ---------------------------------------------------------------------------
  // The whole edit (seo.py:29-50)

  /** The first title of `d`, if there is one, is not a proper ancestor of `ph`. */
  ghost predicate TitleNotAbove(d: seq<Node>, ph: Path)
  {
    Find(d, "title").Some? ==> !(Find(d, "title").value < ph)
  }

  /**
    Step 1 succeeds, and in its result the first title is not a proper
    ancestor of the first head. Exactly then does setting the title leave
    that head in place (`AnchorClearExact`), so that the meta tags go to the
    head the edit started from.
   */
  ghost predicate AnchorClear(d: seq<Node>)
  {
    && EnsureHead(d).Ok?
    && Find(EnsureHead(d).value, "head").Some?
    && TitleNotAbove(EnsureHead(d).value, Find(EnsureHead(d).value, "head").value)
  }

  /** With a clear anchor, the title step succeeds and keeps the same first head. */
  lemma ClearAnchorSucceeds(doc: seq<Node>, title: string)
    ensures AnchorClear(doc) ==>
      && EnsureHead(doc).Ok?
      && SetTitle(EnsureHead(doc).value, title).Ok?
      && Find(SetTitle(EnsureHead(doc).value, title).value, "head") == Find(EnsureHead(doc).value, "head")
  {
    if AnchorClear(doc) {
      var d1 := EnsureHead(doc).value;
      if !NoneNamed(d1, "title") {
        var pt := Find(d1, "title").value;
        assert !(pt < Find(d1, "head").value);
      }
    }
  }

  /**
    `AnchorClear` is exact: once step 1 has succeeded, setting the title keeps
    the first head if and only if the anchor is clear. A title enclosing the
    first head loses it with its old children.
   */
  lemma AnchorClearExact(doc: seq<Node>, title: string)
    requires EnsureHead(doc).Ok?
    ensures Find(EnsureHead(doc).value, "head").Some?
    ensures SetTitle(EnsureHead(doc).value, title).Ok?
    ensures AnchorClear(doc) <==>
      Find(SetTitle(EnsureHead(doc).value, title).value, "head") == Find(EnsureHead(doc).value, "head")
  {
    ClearAnchorSucceeds(doc, title);
    var d1 := EnsureHead(doc).value;
    var ph := Find(d1, "head").value;
    if !AnchorClear(doc) {
      var pt := Find(d1, "title").value;
      var n := WithString(NodeAt(d1, pt), title);
      var d2 := ReplaceAt(d1, pt, n);
      assert SetTitle(d1, title) == Ok(d2);
      var r := ph[|pt|..];
      assert ph == pt + r;
      ReplaceAtBelow(d1, pt, n, r);
      if ValidPath(d2, ph) {
        // The only path below the reset title is its one text child.
        assert NodeAt(d2, ph) == Text(title);
      }
      assert !FirstAt(d2, ph, "head");
    }
  }

  /**
    `optimize_html_page` on a parsed document. It fails with `NoHtml` exactly
    when there is neither a head nor an html element, and it succeeds whenever
    the first title does not enclose the first head.
   */
  function OptimizeHtmlPage(doc: seq<Node>, title: string, description: string, keywords: seq<string>)
    : (r: Result<seq<Node>>)
    ensures r == Err(NoHtml) <==> NoneNamed(doc, "head") && NoneNamed(doc, "html")
    ensures AnchorClear(doc) ==> r.Ok?
  {
    ClearAnchorSucceeds(doc, title);
    match EnsureHead(doc)
    case Err(e) => Err(e)
    case Ok(d1) =>
      match SetTitle(d1, title)
      case Err(e) => Err(e)
      case Ok(d2) =>
        match AppendToHead(d2, Meta("description", description))
        case Err(e) => Err(e)
        case Ok(d3) => AppendToHead(d3, Meta("keywords", KeywordsContent(keywords)))
  }

  /**
    After the head step, the document has a title and every head lies inside
    the first one, so setting the title's text leaves no head.
   */
  ghost predicate HeadsAllInTitle(doc: seq<Node>)
  {
    && EnsureHead(doc).Ok?
    && Find(EnsureHead(doc).value, "title").Some?
    && Count(EnsureHead(doc).value, "head")
       == Count(NodeAt(EnsureHead(doc).value, Find(EnsureHead(doc).value, "title").value).children, "head")
  }

  /**
    `soup.head.append` at seo.py:47 raises exactly when every head is inside
    the first title; the second append (line 48) never raises after the first
    has succeeded.
   */
  lemma NoHeadExact(doc: seq<Node>, title: string, description: string, keywords: seq<string>)
    ensures OptimizeHtmlPage(doc, title, description, keywords) == Err(NoHead) <==> HeadsAllInTitle(doc)
  {
    if EnsureHead(doc).Ok? {
      var d1 := EnsureHead(doc).value;
      var d2 := SetTitle(d1, title).value;
      if Find(d1, "title").Some? {
        assert TitleReset(d1, Find(d1, "title").value, title, d2);
      } else {
        CountZero(d1, "head");
      }
      CountZero(d2, "head");
      if !NoneNamed(d2, "head") {
        var d3 := AppendToHead(d2, Meta("description", description)).value;
        assert Find(d3, "head").Some?;
      }
    }
  }

  /** A fragment without html and head elements makes `soup.html.insert` fail. */
  lemma FragmentFails(title: string, description: string, keywords: seq<string>)
    ensures OptimizeHtmlPage([Element("p", [], [Text("x")])], title, description, keywords) == Err(NoHtml)
  {
  }

  /**
    A head inside the only title is discarded when the title's text is set,
    so the meta tags have no head to go to.
   */
  lemma HeadInTitleFails(title: string, description: string, keywords: seq<string>)
    ensures OptimizeHtmlPage([Element("title", [], [Element("head", [], [])])], title, description, keywords)
         == Err(NoHead)
  {
  }

  /**
    A head inside the first title is discarded when the title's text is set,
    and the meta tags go to the head that comes after that title.
   */
  lemma HeadAfterTitleMoves(title: string, description: string, keywords: seq<string>)
    ensures !AnchorClear([Element("title", [], [Element("head", [], [])]), Element("head", [], [])])
    ensures OptimizeHtmlPage([Element("title", [], [Element("head", [], [])]), Element("head", [], [])],
                             title, description, keywords)
         == Ok([TitleTag(title),
                Element("head", [], [Meta("description", description), Meta("keywords", KeywordsContent(keywords))])])
  {
    var d2 := [TitleTag(title), Element("head", [], [])];
    assert FindFrom([Text(title)], 0, "head") == None by {
      assert FindFrom([Text(title)], 1, "head") == None;
    }
    assert FindFrom([], 0, "head") == None;
    assert FindFrom(d2, 1, "head") == Some([1]);
    assert Find(d2, "head") == Some([1]);
    var doc := [Element("title", [], [Element("head", [], [])]), Element("head", [], [])];
    assert EnsureHead(doc) == Ok(doc);
    assert Find(doc, "title") == Some([0]);
    assert WithString(NodeAt(doc, [0]), title) == TitleTag(title);
    assert ReplaceAt(doc, [0], TitleTag(title)) == d2;
    assert SetTitle(doc, title) == Ok(d2);
    var d3 := [TitleTag(title), Element("head", [], [Meta("description", description)])];
    assert NodeAt(d2, [1]) == Element("head", [], []);
    assert [] + [Meta("description", description)] == d3[1].children;
    assert AppendChild(d2, [1], Meta("description", description)) == ReplaceAt(d2, [1], d3[1]) == d3;
    assert AppendToHead(d2, Meta("description", description)) == Ok(d3);
    assert Find(d3, "head") == Some([1]);
    var d4 := [TitleTag(title),
               Element("head", [], [Meta("description", description), Meta("keywords", KeywordsContent(keywords))])];
    assert d3[1].children + [Meta("keywords", KeywordsContent(keywords))] == d4[1].children;
    assert AppendChild(d3, [1], Meta("keywords", KeywordsContent(keywords))) == ReplaceAt(d3, [1], d4[1]) == d4;
  }

  /**
    A head inside a title that is not the first one is left alone: the
    anchor is clear and the edit succeeds.
   */
  lemma HeadInLaterTitleSucceeds(title: string, description: string, keywords: seq<string>)
    ensures AnchorClear([Element("title", [], []), Element("div", [], [Element("title", [], [Element("head", [], [])])])])
    ensures OptimizeHtmlPage([Element("title", [], []), Element("div", [], [Element("title", [], [Element("head", [], [])])])],
                             title, description, keywords).Ok?
  {
    var doc := [Element("title", [], []), Element("div", [], [Element("title", [], [Element("head", [], [])])])];
    var inner := [Element("title", [], [Element("head", [], [])])];
    assert FindFrom([Element("head", [], [])], 0, "head") == Some([0]);
    assert [0] + [0] == [0, 0];
    assert FindFrom(inner, 0, "head") == Some([0, 0]);
    assert [1] + [0, 0] == [1, 0, 0];
    assert FindFrom(doc, 1, "head") == Some([1, 0, 0]);
    assert FindFrom([], 0, "head") == None;
    assert Find(doc, "head") == Some([1, 0, 0]);
    assert Find(doc, "title") == Some([0]);
  }

  // ---------------------------------------------------------------------------
  // What a successful run does, when the head is not inside a title

  /** `x` and then `y` appended to the first head, at `ph`; nothing else changes. */
  ghost predicate TwoAppended(d: seq<Node>, ph: Path, x: Node, y: Node, g: seq<Node>)
  {
    && FirstAt(d, ph, "head")
    && ValidPath(g, ph)
    && SameTag(NodeAt(g, ph), NodeAt(d, ph))
    && NodeAt(g, ph).children == NodeAt(d, ph).children + [x, y]
    && Keeps(d, g, ph)
    && NewOnlyBelow(d, g, ph, |NodeAt(d, ph).children|)
    && Find(g, "head") == Some(ph)
    && forall nm :: Count(g, nm) == Count(d, nm) + CountNode(x, nm) + CountNode(y, nm)
  }

  lemma TwoAppendedFacts(d: seq<Node>, ph: Path, x: Node, y: Node)
    requires FirstAt(d, ph, "head")
    ensures ValidPath(AppendChild(d, ph, x), ph) && NodeAt(AppendChild(d, ph, x), ph).Element?
    ensures TwoAppended(d, ph, x, y, AppendChild(AppendChild(d, ph, x), ph, y))
  {
    AppendChildFrame(d, ph, x, ph);
    var g1 := AppendChild(d, ph, x);
    var g := AppendChild(g1, ph, y);
    AppendFacts(d, ph, x);
    AppendFacts(g1, ph, y);
    assert NodeAt(d, ph).children + [x] + [y] == NodeAt(d, ph).children + [x, y];
    forall q | ValidPath(d, q)
      ensures ValidPath(g, q)
      ensures if q <= ph then SameTag(NodeAt(g, q), NodeAt(d, q)) else NodeAt(g, q) == NodeAt(d, q)
    {
      assert ValidPath(g1, q);
    }
    forall q | ValidPath(g, q) && !ValidPath(d, q)
      ensures ph < q && q[|ph|] >= |NodeAt(d, ph).children|
    {
      if ValidPath(g1, q) {
        // new with the first append
        assert NewOnlyBelow(d, g1, ph, |NodeAt(d, ph).children|);
      } else {
        // new with the second append, whose children start one index later
        assert NewOnlyBelow(g1, g, ph, |NodeAt(d, ph).children| + 1);
      }
    }
  }

  /**
    The documents a successful run goes through: `d1` after step 1, `d2` after
    step 2, `ph` the first head of both, and `out` the result.
   */
  ghost predicate Stages(doc: seq<Node>, title: string, description: string, keywords: seq<string>,
                         d1: seq<Node>, d2: seq<Node>, ph: Path, out: seq<Node>)
  {
    && EnsureHead(doc) == Ok(d1)
    && SetTitle(d1, title) == Ok(d2)
    && Find(d1, "head") == Some(ph)
    && Find(d2, "head") == Some(ph)
    && TitleNotAbove(d1, ph)
    && OptimizeHtmlPage(doc, title, description, keywords) == Ok(out)
    && TwoAppended(d2, ph, Meta("description", description), Meta("keywords", KeywordsContent(keywords)), out)
  }

  lemma StagesOf(doc: seq<Node>, title: string, description: string, keywords: seq<string>)
    returns (d1: seq<Node>, d2: seq<Node>, ph: Path, out: seq<Node>)
    requires AnchorClear(doc)
    ensures Stages(doc, title, description, keywords, d1, d2, ph, out)
  {
    ClearAnchorSucceeds(doc, title);
    d1 := EnsureHead(doc).value;
    d2 := SetTitle(d1, title).value;
    ph := Find(d1, "head").value;
    var md := Meta("description", description);
    var mk := Meta("keywords", KeywordsContent(keywords));
    var d3 := AppendToHead(d2, md).value;
    out := AppendToHead(d3, mk).value;
    assert d3 == AppendChild(d2, ph, md);
    assert out == AppendChild(d3, ph, mk);
    TwoAppendedFacts(d2, ph, md, mk);
  }

  /** Step 2 on a document with a title: the head keeps its children, the title is reset. */
  lemma ResetTitleStep(d1: seq<Node>, title: string, d2: seq<Node>, ph: Path)
    requires SetTitle(d1, title) == Ok(d2) && Find(d1, "head") == Some(ph) && TitleNotAbove(d1, ph)
    requires !NoneNamed(d1, "title")
    ensures var pt := Find(d1, "title").value;
      && Find(d2, "title") == Some(pt)
      && !(pt <= ph)
      && ValidPath(d2, ph) && NodeAt(d2, ph).Element?
      && |NodeAt(d2, ph).children| == |NodeAt(d1, ph).children|
      && NodeAt(d2, pt) == WithString(NodeAt(d1, pt), title)
  {
    var pt := Find(d1, "title").value;
    assert TitleReset(d1, pt, title, d2);
    assert pt != ph by {
      assert Named(NodeAt(d1, pt), "title") && Named(NodeAt(d1, ph), "head");
    }
    assert !(pt < ph);
    assert ValidPath(d1, ph) && !(pt <= ph);
  }

  /** Step 2 on a document without a title: the new title is the head's last child. */
  lemma NewTitleStep(d1: seq<Node>, title: string, d2: seq<Node>, ph: Path)
    requires SetTitle(d1, title) == Ok(d2) && Find(d1, "head") == Some(ph)
    requires NoneNamed(d1, "title")
    ensures var k := |NodeAt(d1, ph).children|;
      && Find(d2, "title") == Some(ph + [k])
      && Count(d2, "title") == 1
      && ValidPath(d2, ph) && NodeAt(d2, ph).Element?
      && NodeAt(d2, ph).children == NodeAt(d1, ph).children + [TitleTag(title)]
      && ValidPath(d2, ph + [k]) && NodeAt(d2, ph + [k]) == TitleTag(title)
  {
    assert d2 == AppendChild(d1, ph, TitleTag(title));
    AppendChildHit(d1, ph, TitleTag(title));
  }

  /**
    The head of the result ends with the description meta tag and then the
    keywords meta tag, whose content is the keywords joined with ", ". Before
    them come the head's old children, and the new title when the document
    had none.
   */
  lemma OptimizeMetas(doc: seq<Node>, title: string, description: string, keywords: seq<string>)
    requires AnchorClear(doc)
    ensures OptimizeHtmlPage(doc, title, description, keywords).Ok?
    ensures var out := OptimizeHtmlPage(doc, title, description, keywords).value;
            var d1 := EnsureHead(doc).value;
      && Find(out, "head") == Find(d1, "head")
      && Find(out, "head").Some?
      && var ph := Find(out, "head").value;
         var hs := NodeAt(out, ph).children;
         var before := NodeAt(d1, ph).children;
      && |hs| == |before| + (if Count(doc, "title") == 0 then 3 else 2)
      && hs[|hs| - 2] == Meta("description", description)
      && hs[|hs| - 1] == Meta("keywords", KeywordsContent(keywords))
      && (Count(doc, "title") == 0 ==>
            hs == before + [TitleTag(title), Meta("description", description), Meta("keywords", KeywordsContent(keywords))])
  {
    var d1, d2, ph, out := StagesOf(doc, title, description, keywords);
    StageMetas(doc, title, description, keywords, d1, d2, ph, out);
  }

  lemma StageMetas(doc: seq<Node>, title: string, description: string, keywords: seq<string>,
                   d1: seq<Node>, d2: seq<Node>, ph: Path, out: seq<Node>)
    requires Stages(doc, title, description, keywords, d1, d2, ph, out)
    ensures ValidPath(out, ph) && ValidPath(d1, ph)
    ensures var hs := NodeAt(out, ph).children;
            var before := NodeAt(d1, ph).children;
      && |hs| == |before| + (if Count(doc, "title") == 0 then 3 else 2)
      && hs[|hs| - 2] == Meta("description", description)
      && hs[|hs| - 1] == Meta("keywords", KeywordsContent(keywords))
      && (Count(doc, "title") == 0 ==>
            hs == before + [TitleTag(title), Meta("description", description), Meta("keywords", KeywordsContent(keywords))])
  {
    var md := Meta("description", description);
    var mk := Meta("keywords", KeywordsContent(keywords));
    assert NodeAt(out, ph).children == NodeAt(d2, ph).children + [md, mk];
    assert Count(d1, "title") == Count(doc, "title");
    CountZero(d1, "title");
    if NoneNamed(d1, "title") {
      NewTitleStep(d1, title, d2, ph);
      assert NodeAt(d1, ph).children + [TitleTag(title)] + [md, mk]
          == NodeAt(d1, ph).children + [TitleTag(title), md, mk];
    } else {
      ResetTitleStep(d1, title, d2, ph);
    }
  }


  /**
    The first title of the result holds exactly the text `title`. When the
    document had a title it is still the first one, with its name and
    attributes; otherwise the result has exactly one title, the new last
    child of the head before the two meta tags.
   */
  lemma OptimizeTitle(doc: seq<Node>, title: string, description: string, keywords: seq<string>)
    requires AnchorClear(doc)
    ensures OptimizeHtmlPage(doc, title, description, keywords).Ok?
    ensures var out := OptimizeHtmlPage(doc, title, description, keywords).value;
            var d1 := EnsureHead(doc).value;
      && Find(out, "title").Some?
      && NodeAt(out, Find(out, "title").value).children == [Text(title)]
      && (Count(doc, "title") > 0 ==>
            && Find(out, "title") == Find(d1, "title")
            && NodeAt(out, Find(out, "title").value) == WithString(NodeAt(d1, Find(d1, "title").value), title))
      && (Count(doc, "title") == 0 ==>
            && Count(out, "title") == 1
            && Find(out, "title") == Some(Find(d1, "head").value + [|NodeAt(d1, Find(d1, "head").value).children|]))
  {
    var d1, d2, ph, out := StagesOf(doc, title, description, keywords);
    CountZero(d1, "title");
    if NoneNamed(d1, "title") {
      NewTitleStep(d1, title, d2, ph);
    } else {
      ResetTitleStep(d1, title, d2, ph);
    }
    var pt := Find(d2, "title").value;
    AppendKeepsFirst(d2, ph, Meta("description", description), pt, "title");
    var d3 := AppendChild(d2, ph, Meta("description", description));
    AppendKeepsFirst(d3, ph, Meta("keywords", KeywordsContent(keywords)), pt, "title");
    FindIsFirst(out, pt, "title");
  }

  /**
    Element counts of the result: one more head when the document had none,
    two more meta tags, one more title when there was none, and otherwise
    none of the elements that were inside the old title.
   */
  lemma OptimizeCounts(doc: seq<Node>, title: string, description: string, keywords: seq<string>)
    requires AnchorClear(doc)
    ensures OptimizeHtmlPage(doc, title, description, keywords).Ok?
    ensures EnsureHead(doc).Ok? && (Count(doc, "title") == 0 <==> NoneNamed(EnsureHead(doc).value, "title"))
    ensures var out := OptimizeHtmlPage(doc, title, description, keywords).value;
            var d1 := EnsureHead(doc).value;
      forall nm ::
        Count(out, nm)
          + (if Count(doc, "title") == 0 then 0 else Count(NodeAt(d1, Find(d1, "title").value).children, nm))
        == Count(doc, nm)
          + (if nm == "head" && Count(doc, "head") == 0 then 1 else 0)
          + (if nm == "meta" then 2 else 0)
          + (if nm == "title" && Count(doc, "title") == 0 then 1 else 0)
  {
    var d1, d2, ph, out := StagesOf(doc, title, description, keywords);
    assert Count(d1, "title") == Count(doc, "title");
    CountZero(d1, "title");
    forall nm
      ensures Count(out, nm)
          + (if Count(doc, "title") == 0 then 0 else Count(NodeAt(d1, Find(d1, "title").value).children, nm))
        == Count(doc, nm)
          + (if nm == "head" && Count(doc, "head") == 0 then 1 else 0)
          + (if nm == "meta" then 2 else 0)
          + (if nm == "title" && Count(doc, "title") == 0 then 1 else 0)
    {
      StageCounts(doc, title, description, keywords, d1, d2, ph, out, nm);
    }
  }

  lemma StageCounts(doc: seq<Node>, title: string, description: string, keywords: seq<string>,
                    d1: seq<Node>, d2: seq<Node>, ph: Path, out: seq<Node>, nm: string)
    requires Stages(doc, title, description, keywords, d1, d2, ph, out)
    ensures Count(out, nm)
          + (if NoneNamed(d1, "title") then 0 else Count(NodeAt(d1, Find(d1, "title").value).children, nm))
        == Count(doc, nm)
          + (if nm == "head" && Count(doc, "head") == 0 then 1 else 0)
          + (if nm == "meta" then 2 else 0)
          + (if nm == "title" && NoneNamed(d1, "title") then 1 else 0)
  {
    CountZero(doc, "head");
    assert Count(d1, nm) == Count(doc, nm) + (if nm == "head" && Count(doc, "head") == 0 then 1 else 0);
    assert CountNode(Meta("description", description), nm) == (if nm == "meta" then 1 else 0);
    assert CountNode(Meta("keywords", KeywordsContent(keywords)), nm) == (if nm == "meta" then 1 else 0);
    assert Count(out, nm) == Count(d2, nm) + (if nm == "meta" then 2 else 0);
    if NoneNamed(d1, "title") {
      CountText(title, nm);
      assert TitleAppended(d1, ph, title, d2);
      assert Count(d2, nm) == Count(d1, nm) + CountNode(TitleTag(title), nm);
    } else {
      assert TitleReset(d1, Find(d1, "title").value, title, d2);
    }
  }

  /** `q` is the first title of `d`, or lies inside it. */
  ghost predicate InFirstTitle(d: seq<Node>, q: Path)
  {
    Find(d, "title").Some? && Find(d, "title").value <= q
  }

  /** `q` is a proper ancestor of the first title of `d`. */
  ghost predicate AboveFirstTitle(d: seq<Node>, q: Path)
  {
    Find(d, "title").Some? && q < Find(d, "title").value
  }

  /**
    Relative to `d1`, `out` keeps every node outside the first title at its
    path, unchanged except for the head at `ph`, its ancestors and the
    title's ancestors, which keep their name and attributes. Every new node is
    a child of the head from index `k` on, or lies inside the title.
   */
  ghost predicate KeepsRest(d1: seq<Node>, out: seq<Node>, ph: Path, k: nat)
  {
    && (forall q :: ValidPath(d1, q) && !InFirstTitle(d1, q) ==>
          && ValidPath(out, q)
          && if q <= ph || AboveFirstTitle(d1, q) then SameTag(NodeAt(out, q), NodeAt(d1, q))
             else NodeAt(out, q) == NodeAt(d1, q))
    && (forall q :: ValidPath(out, q) && !ValidPath(d1, q) ==>
          (ph < q && q[|ph|] >= k) || InFirstTitle(d1, q))
  }

  lemma KeepsRestNewTitle(doc: seq<Node>, title: string, description: string, keywords: seq<string>,
                          d1: seq<Node>, d2: seq<Node>, ph: Path, out: seq<Node>)
    requires Stages(doc, title, description, keywords, d1, d2, ph, out)
    requires NoneNamed(d1, "title")
    ensures KeepsRest(d1, out, ph, |NodeAt(d1, ph).children|)
  {
  }

  lemma KeepsRestResetTitle(doc: seq<Node>, title: string, description: string, keywords: seq<string>,
                            d1: seq<Node>, d2: seq<Node>, ph: Path, out: seq<Node>)
    requires Stages(doc, title, description, keywords, d1, d2, ph, out)
    requires !NoneNamed(d1, "title")
    ensures KeepsRest(d1, out, ph, |NodeAt(d1, ph).children|)
  {
    var k := |NodeAt(d1, ph).children|;
    var pt := Find(d1, "title").value;
    ResetTitleStep(d1, title, d2, ph);
    var t := WithString(NodeAt(d1, pt), title);
    assert d2 == ReplaceAt(d1, pt, t);
    ReplaceAtKeepsOutside(d1, pt, t);
    forall q | ValidPath(d1, q) && !(pt <= q)
      ensures ValidPath(out, q)
      ensures if q <= ph || q < pt then SameTag(NodeAt(out, q), NodeAt(d1, q)) else NodeAt(out, q) == NodeAt(d1, q)
    {
      assert ValidPath(d2, q);
    }
    forall q | ValidPath(out, q) && !ValidPath(d1, q)
      ensures (ph < q && q[|ph|] >= k) || pt <= q
    {
      if ValidPath(d2, q) {
        // new with the title reset: outside the title every path of d2 is old
        assert pt <= q;
      } else {
        // new with the meta tags, appended after the head's k children
        assert NewOnlyBelow(d2, out, ph, k);
      }
    }
  }

  /**
    Nothing else in the document changes: apart from the head, the title and
    their ancestors, every node of the document after step 1 is still in the
    result, at the same path and unchanged, and the only new nodes are the
    head's new last children and the title's text.
   */
  lemma OptimizeKeepsRest(doc: seq<Node>, title: string, description: string, keywords: seq<string>)
    requires AnchorClear(doc)
    ensures OptimizeHtmlPage(doc, title, description, keywords).Ok?
    ensures EnsureHead(doc).Ok? && Find(EnsureHead(doc).value, "head").Some?
    ensures var d1 := EnsureHead(doc).value;
            var ph := Find(d1, "head").value;
      KeepsRest(d1, OptimizeHtmlPage(doc, title, description, keywords).value, ph, |NodeAt(d1, ph).children|)
  {
    var d1, d2, ph, out := StagesOf(doc, title, description, keywords);
    if NoneNamed(d1, "title") {
      KeepsRestNewTitle(doc, title, description, keywords, d1, d2, ph, out);
    } else {
      KeepsRestResetTitle(doc, title, description, keywords, d1, d2, ph, out);
    }
  }

  /**
    The result of a run again has a clear anchor, and running the edit on it once more only appends another
    description and keywords meta tag to the same head: the title already
    holds `title`, so it is left as it is and no second title appears.
   */
  lemma OptimizeTwice(doc: seq<Node>, title: string, description: string, keywords: seq<string>)
    requires AnchorClear(doc)
    ensures OptimizeHtmlPage(doc, title, description, keywords).Ok?
    ensures var out := OptimizeHtmlPage(doc, title, description, keywords).value;
      && AnchorClear(out)
      && OptimizeHtmlPage(out, title, description, keywords).Ok?
      && Find(out, "head").Some?
      && TwoAppended(out, Find(out, "head").value,
                     Meta("description", description), Meta("keywords", KeywordsContent(keywords)),
                     OptimizeHtmlPage(out, title, description, keywords).value)
      && Count(OptimizeHtmlPage(out, title, description, keywords).value, "title") == Count(out, "title")
  {
    var d1, d2, ph, out := StagesOf(doc, title, description, keywords);
    OptimizeTitle(doc, title, description, keywords);
    AnchorStaysClear(doc, title, description, keywords);
    var e1, e2, eh, out2 := StagesOf(out, title, description, keywords);
    assert e1 == out;
    var pt := Find(out, "title").value;
    assert WithString(NodeAt(out, pt), title) == NodeAt(out, pt);
    ReplaceAtSame(out, pt);
    assert e2 == out;
  }

  /** A run keeps the anchor clear: the result has the same first head, and its first title is not above it. */
  lemma AnchorStaysClear(doc: seq<Node>, title: string, description: string, keywords: seq<string>)
    requires AnchorClear(doc)
    ensures OptimizeHtmlPage(doc, title, description, keywords).Ok?
    ensures AnchorClear(OptimizeHtmlPage(doc, title, description, keywords).value)
  {
    var d1, d2, ph, out := StagesOf(doc, title, description, keywords);
    OptimizeTitle(doc, title, description, keywords);
    assert EnsureHead(out) == Ok(out);
    assert Count(d1, "title") == Count(doc, "title");
    CountZero(d1, "title");
    if !NoneNamed(d1, "title") {
      assert Find(out, "title") == Find(d1, "title");
    }
  }

  // ---------------------------------------------------------------------------
  // Keywords typed by the user (seo.py:86, seo.py:97)

  /**
    `[kw.strip() for kw in kw_input.split(",")]`: one keyword per comma-separated
    field, each with its surrounding whitespace removed. Empty fields stay, so
    an empty input gives one empty keyword.
   */
  function ParseKeywords(input: string): (r: seq<string>)
    ensures |r| == CountChar(input, ',') + 1
    ensures forall i :: 0 <= i < |r| ==> Trimmed(r[i]) && ',' !in r[i]
    ensures forall i :: 0 <= i < |r| ==> StripsTo(Split(input, ',')[i], r[i])
    ensures input == "" ==> r == [""]
  {
    var fields := Split(input, ',');
    var r := StripEach(fields);
    assert input == "" ==> r == [""] by {
      if input == "" {
        assert fields == [""];
        assert |r[0]| == 0;
      }
    }
    r
  }

  /** `[f.strip() for f in fields]` */
  function StripEach(fields: seq<string>): (r: seq<string>)
    ensures |r| == |fields|
    ensures forall i :: 0 <= i < |r| ==> Trimmed(r[i]) && StripsTo(fields[i], r[i])
    ensures forall i :: 0 <= i < |r| ==> ',' in fields[i] || ',' !in r[i]
  {
    var r := seq(|fields|, i requires 0 <= i < |fields| => Strip(fields[i]));
    assert forall i :: 0 <= i < |r| ==> ',' in fields[i] || ',' !in r[i] by {
      forall i | 0 <= i < |r| && ',' !in fields[i] {
        StripNoNewChar(fields[i], ',');
      }
    }
    r
  }

  /** The fields of `", ".join(ks)` split at its commas: every keyword after the first gains a leading space. */
  function Spaced(ks: seq<string>): (r: seq<string>)
    ensures |r| == |ks|
  {
    seq(|ks|, i requires 0 <= i < |ks| => if i == 0 then ks[i] else " " + ks[i])
  }

  lemma {:induction false} JoinSpaced(ks: seq<string>)
    ensures Join(ks, ", ") == Join(Spaced(ks), ",")
    decreases |ks|
  {
    if |ks| > 1 {
      var rest := ks[1..];
      JoinSpaced(rest);
      JoinHeadPrefix(" ", Spaced(rest), ",");
      assert Spaced(rest)[0 := " " + Spaced(rest)[0]] == Spaced(ks)[1..];
    }
  }

  /**
    Splitting the keywords meta content at its commas gives the keywords back,
    each one after the first with the leading space of the `", "` separator.
   */
  lemma SplitSpaced(ks: seq<string>)
    requires |ks| > 0
    requires forall i :: 0 <= i < |ks| ==> ',' !in ks[i]
    ensures Split(KeywordsContent(ks), ',') == Spaced(ks)
  {
    var sp := Spaced(ks);
    JoinSpaced(ks);
    forall i | 0 <= i < |sp|
      ensures ',' !in sp[i]
    {
      if i > 0 {
        assert sp[i] == [' '] + ks[i];
      }
    }
    SplitJoin(sp, ',');
  }

  lemma StripSpaced(ks: seq<string>, i: nat)
    requires i < |ks| && Trimmed(ks[i])
    ensures Strip(Spaced(ks)[i]) == ks[i]
  {
  }

  /**
    Reading back the content of the keywords meta tag as the keyword field is
    read gives the keyword list again, provided it is not empty and its
    keywords are trimmed and free of commas.
   */
  lemma ParseKeywordsContent(ks: seq<string>)
    requires |ks| > 0
    requires forall i :: 0 <= i < |ks| ==> Trimmed(ks[i]) && ',' !in ks[i]
    ensures ParseKeywords(KeywordsContent(ks)) == ks
  {
    SplitSpaced(ks);
    var r := ParseKeywords(KeywordsContent(ks));
    forall i | 0 <= i < |ks|
      ensures r[i] == ks[i]
    {
      StripSpaced(ks, i);
    }
  }

  /** Parsing is stable: joining parsed keywords as the meta tag does and parsing again changes nothing. */
  lemma ParseKeywordsStable(input: string)
    ensures ParseKeywords(KeywordsContent(ParseKeywords(input))) == ParseKeywords(input)
  {
    ParseKeywordsContent(ParseKeywords(input));
  }

  // ---------------------------------------------------------------------------
  // The robots.txt address (seo.py:54)

  const RobotsPath: string := "/robots.txt"

  predicate IsSlash(c: char)
  {
    c == '/'
  }

  /**
    `f"{url.rstrip('/')}/robots.txt"`: the site URL without its trailing
    slashes, followed by `/robots.txt`.
   */
  function RobotsUrl(url: string): (r: string)
    ensures |r| >= |RobotsPath| && r[|r| - |RobotsPath|..] == RobotsPath
    ensures var base := r[..|r| - |RobotsPath|];
      && base <= url
      && (|base| == 0 || base[|base| - 1] != '/')
      && forall k :: |base| <= k < |url| ==> url[k] == '/'
  {
    var base := StripEnd(url, IsSlash);
    assert (base + RobotsPath)[..|base|] == base;
    base + RobotsPath
  }

  /** A URL that is a base without a trailing slash, followed by any number of slashes, gives that base's robots.txt. */
  lemma RobotsUrlOf(base: string, slashes: string)
    requires |base| == 0 || base[|base| - 1] != '/'
    requires forall k :: 0 <= k < |slashes| ==> slashes[k] == '/'
    ensures RobotsUrl(base + slashes) == base + RobotsPath
  {
    StripEndUnique(base, slashes, IsSlash);
  }

  /** Trailing slashes on the site URL do not matter. */
  lemma RobotsUrlTrailingSlash(url: string)
    ensures RobotsUrl(url + "/") == RobotsUrl(url)
  {
  }
}
