/**
 * `clean_up_page`: the document-to-document rewrite shared by the scraper and
 * the stand-alone clean-up tool.
 *
 * A page is given as what the rewrite looks at: the `span`/`img` elements
 * outside the article summaries, and for each `div.article` directly under
 * `div#main-content` the children of its first `div.article-summary` (or none).
 * Elements are trees of tags; text, comments and other non-element nodes are
 * leaves. Of a tag the model keeps its name, its class list and its other
 * attributes.
 */
module Html {
  import opened Wrappers
  import opened Text
  import PosixPath

  datatype Tag = Tag(name: string, classes: seq<string>, attrs: map<string, string>)

  datatype Node = Leaf(text: string) | Element(tag: Tag, children: seq<Node>)

  /** An article block; `summary` holds the children of its summary block, if it has one. */
  datatype Article = Article(summary: Option<seq<Node>>)

  datatype PageData = PageData(images: seq<Tag>, articles: seq<Article>)

  /** The attributes of a `span`/`img` that may hold an image reference, in the order they are visited. */
  const ImageAttributes: seq<string> := ["src", "data-img-src", "data-img-src-hr"]

  /** Matches the selector `span, img`. */
  predicate IsImageLike(t: Tag)
  {
    t.name == "span" || t.name == "img"
  }

  predicate IsAbsoluteOrSchemeRelative(v: string)
  {
    StartsWith(v, "http://") || StartsWith(v, "https://") || StartsWith(v, "//")
  }

  /** A reference is rewritten when it is non-empty and neither absolute nor scheme-relative. */
  predicate NeedsRewrite(v: string)
  {
    v != "" && !IsAbsoluteOrSchemeRelative(v)
  }

  /**
   * The new value of a relative reference: `//hostname/` followed by the
   * normalised path with its leading `.` and `/` characters stripped. Any other
   * value is kept as it is.
   */
  function RewriteRef(v: string, host: string): (r: string)
    ensures r == v <==> !NeedsRewrite(v)
    ensures !NeedsRewrite(r)
    ensures NeedsRewrite(v) ==> StartsWith(r, "//" + host + "/")
  {
    if NeedsRewrite(v) then
      var r := "//" + host + "/" + LStrip(PosixPath.NormPath(v), {'.', '/'});
      assert r[..2] == "//";
      assert r[..|"//" + host + "/"|] == "//" + host + "/";
      r
    else v
  }

  /** Spellings of one relative path that normalise alike are rewritten alike. */
  lemma RewriteRefNormalised(v: string, host: string)
    requires NeedsRewrite(v) && NeedsRewrite(PosixPath.NormPath(v))
    ensures RewriteRef(PosixPath.NormPath(v), host) == RewriteRef(v, host)
  {
    PosixPath.NormPathIdempotent(v);
  }

  predicate AttrNeedsRewrite(attrs: map<string, string>, x: string)
  {
    x in attrs && NeedsRewrite(attrs[x])
  }

  /** One turn of the inner loop: rewrite attribute `x` when it holds a relative reference. */
  function RewriteAttr(attrs: map<string, string>, x: string, host: string): map<string, string>
  {
    if AttrNeedsRewrite(attrs, x) then attrs[x := RewriteRef(attrs[x], host)] else attrs
  }

  /** The inner loop over the attribute names `names`, in order. */
  function RewriteAttrs(attrs: map<string, string>, names: seq<string>, host: string): map<string, string>
    decreases |names|
  {
    if names == [] then attrs
    else RewriteAttr(RewriteAttrs(attrs, names[..|names| - 1], host), names[|names| - 1], host)
  }

  /** The loop leaves the keys alone and maps every listed attribute through `RewriteRef`, whatever the order. */
  lemma {:induction false} RewriteAttrsValues(attrs: map<string, string>, names: seq<string>, host: string)
    ensures RewriteAttrs(attrs, names, host).Keys == attrs.Keys
    ensures forall x :: x in attrs ==>
      RewriteAttrs(attrs, names, host)[x] == if x in names then RewriteRef(attrs[x], host) else attrs[x]
    decreases |names|
  {
    if names != [] {
      var front := names[..|names| - 1];
      var last := names[|names| - 1];
      RewriteAttrsValues(attrs, front, host);
      assert forall x :: x in names <==> x in front || x == last;
    }
  }

  /** Some listed attribute of the tag holds a relative reference. */
  predicate TagNeedsRewrite(t: Tag)
  {
    exists m :: 0 <= m < |ImageAttributes| && AttrNeedsRewrite(t.attrs, ImageAttributes[m])
  }

  function RewriteTag(t: Tag, host: string): Tag
  {
    t.(attrs := RewriteAttrs(t.attrs, ImageAttributes, host))
  }

  /**
   * Rewriting a tag keeps its name, classes and attribute names, maps each of
   * `src`, `data-img-src`, `data-img-src-hr` through `RewriteRef` and leaves the
   * other attributes alone; it changes the tag exactly when one of those held a
   * relative reference, and afterwards none does.
   */
  lemma RewriteTagEffect(t: Tag, host: string)
    ensures RewriteTag(t, host).name == t.name && RewriteTag(t, host).classes == t.classes
    ensures RewriteTag(t, host).attrs.Keys == t.attrs.Keys
    ensures forall x :: x in t.attrs ==>
      RewriteTag(t, host).attrs[x] == if x in ImageAttributes then RewriteRef(t.attrs[x], host) else t.attrs[x]
    ensures RewriteTag(t, host) == t <==> !TagNeedsRewrite(t)
    ensures !TagNeedsRewrite(RewriteTag(t, host))
  {
    RewriteAttrsValues(t.attrs, ImageAttributes, host);
    RewriteAttrsClean(t.attrs, ImageAttributes, host);
    RewriteAttrsUnchanged(t.attrs, ImageAttributes, host);
  }

  /** After the loop over `names`, none of those attributes holds a relative reference. */
  lemma RewriteAttrsClean(attrs: map<string, string>, names: seq<string>, host: string)
    ensures forall m :: 0 <= m < |names| ==> !AttrNeedsRewrite(RewriteAttrs(attrs, names, host), names[m])
  {
    var r := RewriteAttrs(attrs, names, host);
    RewriteAttrsValues(attrs, names, host);
    forall m | 0 <= m < |names|
      ensures !AttrNeedsRewrite(r, names[m])
    {
      var x := names[m];
      if x in attrs {
        assert r[x] == RewriteRef(attrs[x], host);
      }
    }
  }

  /** The loop over `names` changes the attributes exactly when one of them holds a relative reference. */
  lemma RewriteAttrsUnchanged(attrs: map<string, string>, names: seq<string>, host: string)
    ensures RewriteAttrs(attrs, names, host) == attrs <==> forall m :: 0 <= m < |names| ==> !AttrNeedsRewrite(attrs, names[m])
  {
    var r := RewriteAttrs(attrs, names, host);
    RewriteAttrsValues(attrs, names, host);
    if exists m :: 0 <= m < |names| && AttrNeedsRewrite(attrs, names[m]) {
      var m :| 0 <= m < |names| && AttrNeedsRewrite(attrs, names[m]);
      var x := names[m];
      assert r[x] == RewriteRef(attrs[x], host);
      assert r[x] != attrs[x];
    } else {
      forall x | x in attrs
        ensures r[x] == attrs[x]
      {
        if x in names {
          var m :| 0 <= m < |names| && names[m] == x;
          assert !AttrNeedsRewrite(attrs, names[m]);
        }
      }
      assert r == attrs;
    }
  }

  /** Rewrite every `span`/`img` of a tree; a leaf stays as it is, and an element keeps its name, classes and number of children. */
  function RewriteNode(n: Node, host: string): (r: Node)
    ensures n.Leaf? ==> r == n
    ensures n.Element? ==> r.Element? && r.tag.name == n.tag.name && r.tag.classes == n.tag.classes
    ensures n.Element? ==> |r.children| == |n.children|
    decreases n
  {
    match n
    case Leaf(_) => n
    case Element(t, cs) => Element(if IsImageLike(t) then RewriteTag(t, host) else t, RewriteNodes(cs, host))
  }

  function RewriteNodes(ns: seq<Node>, host: string): (r: seq<Node>)
    ensures |r| == |ns|
    decreases ns
  {
    seq(|ns|, i requires 0 <= i < |ns| => RewriteNode(ns[i], host))
  }

  /** Some `span`/`img` of the tree holds a relative reference. */
  predicate NodeNeedsRewrite(n: Node)
    decreases n
  {
    match n
    case Leaf(_) => false
    case Element(t, cs) => (IsImageLike(t) && TagNeedsRewrite(t)) || NodesNeedRewrite(cs)
  }

  predicate NodesNeedRewrite(ns: seq<Node>)
    decreases ns
  {
    exists i :: 0 <= i < |ns| && NodeNeedsRewrite(ns[i])
  }

  /**
   * Rewriting a tree keeps its shape (leaves, tag names, classes, number of
   * children), changes it exactly when some `span`/`img` in it holds a relative
   * reference, and leaves none behind.
   */
  lemma {:induction false} RewriteNodeEffect(n: Node, host: string)
    ensures RewriteNode(n, host).Leaf? == n.Leaf?
    ensures n.Element? ==> RewriteNode(n, host).tag.name == n.tag.name
    ensures n.Element? ==> RewriteNode(n, host).tag.classes == n.tag.classes
    ensures n.Element? ==> |RewriteNode(n, host).children| == |n.children|
    ensures RewriteNode(n, host) == n <==> !NodeNeedsRewrite(n)
    ensures !NodeNeedsRewrite(RewriteNode(n, host))
    decreases n
  {
    match n
    case Leaf(_) =>
    case Element(t, cs) =>
      RewriteNodesEffect(cs, host);
      RewriteTagEffect(t, host);
  }

  lemma {:induction false} RewriteNodesEffect(ns: seq<Node>, host: string)
    ensures RewriteNodes(ns, host) == ns <==> !NodesNeedRewrite(ns)
    ensures !NodesNeedRewrite(RewriteNodes(ns, host))
    decreases ns
  {
    var r := RewriteNodes(ns, host);
    forall i | 0 <= i < |ns|
      ensures r[i] == ns[i] <==> !NodeNeedsRewrite(ns[i])
      ensures !NodeNeedsRewrite(r[i])
    {
      RewriteNodeEffect(ns[i], host);
    }
  }

  /** Matches the selector `img.first`. */
  predicate IsFirstImage(t: Tag)
  {
    t.name == "img" && "first" in t.classes
  }

  /** An element that `img.first` selects. */
  predicate IsFirstImageNode(n: Node)
  {
    n.Element? && IsFirstImage(n.tag)
  }

  /** The nodes of a tree in document order: the node itself, then the trees of its children in turn. */
  function PreOrder(n: Node): (r: seq<Node>)
    ensures |r| >= 1 && r[0] == n
    decreases n
  {
    match n
    case Leaf(_) => [n]
    case Element(_, cs) => [n] + PreOrderAll(cs)
  }

  function PreOrderAll(ns: seq<Node>): seq<Node>
    decreases ns
  {
    if ns == [] then [] else PreOrder(ns[0]) + PreOrderAll(ns[1..])
  }

  /** The position of the first `img.first` in a list of nodes, or its length when there is none. */
  function FirstMatchAt(s: seq<Node>): (k: nat)
    ensures k <= |s|
    ensures forall j :: 0 <= j < k ==> !IsFirstImageNode(s[j])
    ensures k < |s| ==> IsFirstImageNode(s[k])
  {
    if s == [] || IsFirstImageNode(s[0]) then 0 else 1 + FirstMatchAt(s[1..])
  }

  /** The first `img.first` in a list of nodes, by a plain scan. */
  function FirstMatch(s: seq<Node>): Option<Node>
  {
    var k := FirstMatchAt(s);
    if k < |s| then Some(s[k]) else None
  }

  /** Scanning a concatenation finds the first match of the front, or else the first match of the back. */
  lemma {:induction false} FirstMatchConcat(a: seq<Node>, b: seq<Node>)
    ensures FirstMatch(a + b) == if FirstMatch(a).Some? then FirstMatch(a) else FirstMatch(b)
    decreases |a|
  {
    if a == [] {
      assert a + b == b;
    } else if !IsFirstImageNode(a[0]) {
      FirstMatchConcat(a[1..], b);
      assert (a + b)[1..] == a[1..] + b;
    }
  }

  /** `select_one('img.first')` below a list of siblings: the first match in document (pre-)order. */
  function FindFirst(ns: seq<Node>): (r: Option<Node>)
    ensures r == FirstMatch(PreOrderAll(ns))
    ensures r.Some? ==> IsFirstImageNode(r.value)
    decreases ns
  {
    if ns == [] then None
    else
      FirstMatchConcat(PreOrder(ns[0]), PreOrderAll(ns[1..]));
      match FindFirstIn(ns[0])
      case Some(x) => Some(x)
      case None => FindFirst(ns[1..])
  }

  /** The first `img.first` in a tree, the root included. */
  function FindFirstIn(n: Node): (r: Option<Node>)
    ensures r == FirstMatch(PreOrder(n))
    ensures r.Some? ==> IsFirstImageNode(r.value)
    decreases n
  {
    match n
    case Leaf(_) => None
    case Element(t, cs) =>
      FirstMatchConcat([n], PreOrderAll(cs));
      if IsFirstImage(t) then Some(n) else FindFirst(cs)
  }

  /** There is an `img.first` somewhere in the tree. */
  predicate HasFirstImage(n: Node)
    decreases n
  {
    match n
    case Leaf(_) => false
    case Element(t, cs) => IsFirstImage(t) || exists i :: 0 <= i < |cs| && HasFirstImage(cs[i])
  }

  /** The search finds something exactly when there is something to find. */
  lemma {:induction false} FindFirstFinds(ns: seq<Node>)
    ensures FindFirst(ns).Some? <==> exists i :: 0 <= i < |ns| && HasFirstImage(ns[i])
    decreases ns
  {
    if ns != [] {
      FindFirstInFinds(ns[0]);
      FindFirstFinds(ns[1..]);
      assert forall i :: 1 <= i < |ns| ==> ns[i] == ns[1..][i - 1];
      assert forall i :: 0 <= i < |ns| - 1 ==> ns[1..][i] == ns[i + 1];
    }
  }

  lemma {:induction false} FindFirstInFinds(n: Node)
    ensures FindFirstIn(n).Some? <==> HasFirstImage(n)
    decreases n
  {
    match n
    case Leaf(_) =>
    case Element(t, cs) => FindFirstFinds(cs);
  }

  /** Searching after the rewrite finds the rewritten version of what searching before it finds. */
  lemma {:induction false} FindFirstRewrite(ns: seq<Node>, host: string)
    ensures FindFirst(RewriteNodes(ns, host)) ==
      match FindFirst(ns) case None => None case Some(x) => Some(RewriteNode(x, host))
    decreases ns
  {
    if ns != [] {
      FindFirstInRewrite(ns[0], host);
      FindFirstRewrite(ns[1..], host);
      assert RewriteNodes(ns, host)[1..] == RewriteNodes(ns[1..], host);
    }
  }

  lemma {:induction false} FindFirstInRewrite(n: Node, host: string)
    ensures FindFirstIn(RewriteNode(n, host)) ==
      match FindFirstIn(n) case None => None case Some(x) => Some(RewriteNode(x, host))
    decreases n
  {
    match n
    case Leaf(_) =>
    case Element(t, cs) =>
      RewriteTagEffect(t, host);
      FindFirstRewrite(cs, host);
  }

  /** What the search finds in trees without relative references holds none either. */
  lemma {:induction false} FindFirstClean(ns: seq<Node>)
    requires !NodesNeedRewrite(ns)
    ensures FindFirst(ns).Some? ==> !NodeNeedsRewrite(FindFirst(ns).value)
    decreases ns
  {
    if ns != [] {
      FindFirstInClean(ns[0]);
      assert forall i :: 0 <= i < |ns| - 1 ==> ns[1..][i] == ns[i + 1];
      FindFirstClean(ns[1..]);
    }
  }

  lemma {:induction false} FindFirstInClean(n: Node)
    requires !NodeNeedsRewrite(n)
    ensures FindFirstIn(n).Some? ==> !NodeNeedsRewrite(FindFirstIn(n).value)
    decreases n
  {
    match n
    case Leaf(_) =>
    case Element(t, cs) => FindFirstClean(cs);
  }

  /** A direct child of a summary that is restructured: a `p` with an `img.first` below it. */
  predicate IsFirstImageParagraph(c: Node)
  {
    c.Element? && c.tag.name == "p" && FindFirst(c.children).Some?
  }

  /** The marker class disappears from the image only when it is the image's one and only class. */
  function Unmark(img: Node): (r: Node)
    ensures r.Leaf? == img.Leaf?
    ensures img.Element? ==> r.tag.name == img.tag.name && r.tag.attrs == img.tag.attrs && r.children == img.children
    ensures img.Element? ==> r.tag.classes == if img.tag.classes == ["first"] then [] else img.tag.classes
  {
    match img
    case Leaf(_) => img
    case Element(t, cs) => Element(if t.classes == ["first"] then t.(classes := []) else t, cs)
  }

  function Div(classes: seq<string>, children: seq<Node>): Node
  {
    Element(Tag("div", classes, map[]), children)
  }

  /** The three nested blocks the image is moved into. */
  function Wrapper(img: Node): Node
  {
    Div(["first", "graphic-container", "wide", "center", "ImageElement"],
      [Div(["graphic"], [Div(["figure-content"], [img])])])
  }

  /**
   * What a summary child becomes: a first-image paragraph gives way to the
   * wrapper around its first image, unmarked, which is no such paragraph any
   * more; any other child stays as it is.
   */
  function RestructureChild(c: Node): (r: Node)
    ensures !IsFirstImageParagraph(c) ==> r == c
    ensures IsFirstImageParagraph(c) ==> r == Wrapper(Unmark(FindFirst(c.children).value))
    ensures !IsFirstImageParagraph(r)
  {
    if IsFirstImageParagraph(c) then Wrapper(Unmark(FindFirst(c.children).value)) else c
  }

  /**
   * The loop over the children of a summary: every first-image paragraph is
   * replaced, in its place, by the wrapper around its (unmarked) first image;
   * every other child stays where it is, as it is.
   */
  function Restructure(cs: seq<Node>): (r: seq<Node>)
    ensures |r| == |cs|
    ensures forall j :: 0 <= j < |cs| && !IsFirstImageParagraph(cs[j]) ==> r[j] == cs[j]
    ensures forall j :: 0 <= j < |cs| && IsFirstImageParagraph(cs[j]) ==>
      r[j] == Wrapper(Unmark(FindFirst(cs[j].children).value)) && r[j] != cs[j]
    ensures forall j :: 0 <= j < |cs| ==> !IsFirstImageParagraph(r[j])
    ensures r == cs <==> forall j :: 0 <= j < |cs| ==> !IsFirstImageParagraph(cs[j])
  {
    seq(|cs|, j requires 0 <= j < |cs| => RestructureChild(cs[j]))
  }

  /** The rewrite does not change which children are first-image paragraphs. */
  lemma ParagraphMatchRewrite(c: Node, host: string)
    ensures IsFirstImageParagraph(RewriteNode(c, host)) == IsFirstImageParagraph(c)
  {
    RewriteNodeEffect(c, host);
    if c.Element? {
      FindFirstRewrite(c.children, host);
    }
  }

  function RewriteImages(images: seq<Tag>, host: string): (r: seq<Tag>)
    ensures |r| == |images|
  {
    seq(|images|, i requires 0 <= i < |images| => RewriteTag(images[i], host))
  }

  function RewriteArticle(a: Article, host: string): Article
  {
    match a.summary
    case None => a
    case Some(cs) => Article(Some(RewriteNodes(cs, host)))
  }

  function RestructureArticle(a: Article): Article
  {
    match a.summary
    case None => a
    case Some(cs) => Article(Some(Restructure(cs)))
  }

  function RewriteSummaries(articles: seq<Article>, host: string): (r: seq<Article>)
    ensures |r| == |articles|
  {
    seq(|articles|, i requires 0 <= i < |articles| => RewriteArticle(articles[i], host))
  }

  function RestructureAll(articles: seq<Article>): (r: seq<Article>)
    ensures |r| == |articles|
  {
    seq(|articles|, i requires 0 <= i < |articles| => RestructureArticle(articles[i]))
  }

  predicate AnyTagNeedsRewrite(images: seq<Tag>)
  {
    exists i :: 0 <= i < |images| && TagNeedsRewrite(images[i])
  }

  predicate SummaryNeedsRewrite(a: Article)
  {
    a.summary.Some? && NodesNeedRewrite(a.summary.value)
  }

  predicate HasFirstImageParagraph(a: Article)
  {
    a.summary.Some? && exists j :: 0 <= j < |a.summary.value| && IsFirstImageParagraph(a.summary.value[j])
  }

  /** Something in the page would be rewritten or restructured. */
  predicate NeedsCleanUp(d: PageData)
  {
    || AnyTagNeedsRewrite(d.images)
    || (exists i :: 0 <= i < |d.articles| && SummaryNeedsRewrite(d.articles[i]))
    || (exists i :: 0 <= i < |d.articles| && HasFirstImageParagraph(d.articles[i]))
  }

  /**
   * `clean_up_page(soup, hostname)`: first every `span`/`img` is rewritten, then
   * the summaries are restructured; the flag says whether any rewrite or
   * replacement happened.
   */
  function CleanUp(d: PageData, host: string): (r: (PageData, bool))
    ensures |r.0.images| == |d.images| && |r.0.articles| == |d.articles|
    ensures forall i :: 0 <= i < |d.articles| ==> r.0.articles[i].summary.Some? == d.articles[i].summary.Some?
  {
    var rewritten := RewriteSummaries(d.articles, host);
    (PageData(RewriteImages(d.images, host), RestructureAll(rewritten)), NeedsCleanUp(d))
  }

  /** One summary: it changes exactly when it holds a relative reference or a first-image paragraph. */
  lemma ArticleCleanUp(a: Article, host: string)
    ensures RestructureArticle(RewriteArticle(a, host)) == a <==>
      !SummaryNeedsRewrite(a) && !HasFirstImageParagraph(a)
  {
    if a.summary.Some? {
      var cs := a.summary.value;
      var rw := RewriteNodes(cs, host);
      RewriteNodesEffect(cs, host);
      forall j | 0 <= j < |cs|
        ensures IsFirstImageParagraph(rw[j]) == IsFirstImageParagraph(cs[j])
        ensures rw[j] == cs[j] <==> !NodeNeedsRewrite(cs[j])
        ensures rw[j].Leaf? == cs[j].Leaf? && (cs[j].Element? ==> rw[j].tag.name == cs[j].tag.name)
      {
        ParagraphMatchRewrite(cs[j], host);
        RewriteNodeEffect(cs[j], host);
      }
      var rs := Restructure(rw);
      if HasFirstImageParagraph(a) {
        var j :| 0 <= j < |cs| && IsFirstImageParagraph(cs[j]);
        assert rs[j] != cs[j];
      } else if SummaryNeedsRewrite(a) {
        var j :| 0 <= j < |cs| && NodeNeedsRewrite(cs[j]);
        assert rs[j] == rw[j];
      } else {
        assert rw == cs;
      }
    }
  }

  /** The flag is true exactly when the page was changed. */
  lemma CleanUpFlag(d: PageData, host: string)
    ensures CleanUp(d, host).1 <==> CleanUp(d, host).0 != d
  {
    var r := CleanUp(d, host).0;
    forall i | 0 <= i < |d.images|
      ensures r.images[i] == d.images[i] <==> !TagNeedsRewrite(d.images[i])
    {
      RewriteTagEffect(d.images[i], host);
    }
    forall i | 0 <= i < |d.articles|
      ensures r.articles[i] == d.articles[i] <==>
        !SummaryNeedsRewrite(d.articles[i]) && !HasFirstImageParagraph(d.articles[i])
    {
      ArticleCleanUp(d.articles[i], host);
    }
    if !NeedsCleanUp(d) {
      assert r.images == d.images;
      assert r.articles == d.articles;
    } else if AnyTagNeedsRewrite(d.images) {
      var i :| 0 <= i < |d.images| && TagNeedsRewrite(d.images[i]);
      assert r.images[i] != d.images[i];
    } else if exists i :: 0 <= i < |d.articles| && SummaryNeedsRewrite(d.articles[i]) {
      var i :| 0 <= i < |d.articles| && SummaryNeedsRewrite(d.articles[i]);
      assert r.articles[i] != d.articles[i];
    } else {
      var i :| 0 <= i < |d.articles| && HasFirstImageParagraph(d.articles[i]);
      assert r.articles[i] != d.articles[i];
    }
  }

  /** A restructured child holds no relative reference when the rewritten one did not. */
  lemma RestructureChildClean(c: Node)
    requires !NodeNeedsRewrite(c)
    ensures !NodeNeedsRewrite(RestructureChild(c))
    ensures !IsFirstImageParagraph(RestructureChild(c))
  {
    if IsFirstImageParagraph(c) {
      FindFirstClean(c.children);
      var img := FindFirst(c.children).value;
      var u := Unmark(img);
      assert !NodeNeedsRewrite(u) by {
        assert !TagNeedsRewrite(u.tag) <== !TagNeedsRewrite(img.tag);
        assert u.children == img.children;
      }
      var inner := Div(["figure-content"], [u]);
      var middle := Div(["graphic"], [inner]);
      assert !NodesNeedRewrite([u]);
      assert !NodeNeedsRewrite(inner);
      assert !NodesNeedRewrite([inner]);
      assert !NodeNeedsRewrite(middle);
      assert !NodesNeedRewrite([middle]);
    }
  }

  /** Cleaning up a page leaves nothing to clean up. */
  lemma CleanUpLeavesNothing(d: PageData, host: string)
    ensures !NeedsCleanUp(CleanUp(d, host).0)
  {
    var r := CleanUp(d, host).0;
    forall i | 0 <= i < |d.images|
      ensures !TagNeedsRewrite(r.images[i])
    {
      RewriteTagEffect(d.images[i], host);
    }
    forall i | 0 <= i < |d.articles|
      ensures !SummaryNeedsRewrite(r.articles[i]) && !HasFirstImageParagraph(r.articles[i])
    {
      var a := d.articles[i];
      if a.summary.Some? {
        var rw := RewriteNodes(a.summary.value, host);
        var rs := Restructure(rw);
        assert r.articles[i].summary.value == rs;
        forall j | 0 <= j < |rw|
          ensures !NodeNeedsRewrite(rs[j]) && !IsFirstImageParagraph(rs[j])
        {
          RewriteNodeEffect(a.summary.value[j], host);
          RestructureChildClean(rw[j]);
        }
      }
    }
  }

  /** A second clean-up changes nothing and reports no change. */
  lemma CleanUpIdempotent(d: PageData, host: string)
    ensures CleanUp(CleanUp(d, host).0, host) == (CleanUp(d, host).0, false)
  {
    var r := CleanUp(d, host).0;
    CleanUpLeavesNothing(d, host);
    CleanUpFlag(r, host);
  }
}
