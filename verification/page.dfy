/**
 * The clean-up as the program runs it: `clean_up_page` updating a parsed page
 * in place, and the command-line tool that cleans a list of files and writes
 * back only the ones that changed.
 */
module Cleanup {
  import opened Wrappers
  import opened Html

  /** A parsed page whose elements are updated in place. */
  class Page {
    var images: seq<Tag>
    var articles: seq<Article>

    function Data(): PageData
      reads this
    {
      PageData(images, articles)
    }

    constructor(d: PageData)
      ensures Data() == d
    {
      images := d.images;
      articles := d.articles;
    }

    /**
     * Rewrites the relative references of every `span`/`img`, then replaces the
     * first-image paragraphs of every summary; the result is `Html.CleanUp`.
     */
    method CleanUp(host: string) returns (replaced: bool)
      modifies this
      ensures (Data(), replaced) == Html.CleanUp(old(Data()), host)
    {
      ghost var d := Data();
      var outside := RewriteImageElements(host);
      var inside := RewriteSummaryElements(host);
      ghost var rewritten := articles;
      var moved := RestructureSummaries();
      forall j | 0 <= j < |d.articles|
        ensures HasFirstImageParagraph(rewritten[j]) == HasFirstImageParagraph(d.articles[j])
      {
        if d.articles[j].summary.Some? {
          var cs := d.articles[j].summary.value;
          forall c | 0 <= c < |cs|
            ensures IsFirstImageParagraph(RewriteNodes(cs, host)[c]) == IsFirstImageParagraph(cs[c])
          {
            ParagraphMatchRewrite(cs[c], host);
          }
        }
      }
      replaced := outside || inside || moved;
    }

    /** The loop over the `span`/`img` elements outside the summaries. */
    method RewriteImageElements(host: string) returns (changed: bool)
      modifies this
      ensures images == RewriteImages(old(images), host) && articles == old(articles)
      ensures changed == AnyTagNeedsRewrite(old(images))
    {
      changed := false;
      var i := 0;
      while i < |images|
        invariant 0 <= i <= |images| == |old(images)|
        invariant forall j :: 0 <= j < i ==> images[j] == RewriteTag(old(images)[j], host)
        invariant forall j :: i <= j < |images| ==> images[j] == old(images)[j]
        invariant changed <==> exists j :: 0 <= j < i && TagNeedsRewrite(old(images)[j])
        invariant articles == old(articles)
      {
        var t, c := RewriteAttributes(images[i], host);
        images := images[i := t];
        changed := changed || c;
        i := i + 1;
      }
    }

    /** The same loop over the `span`/`img` elements inside the summaries. */
    method RewriteSummaryElements(host: string) returns (changed: bool)
      modifies this
      ensures articles == RewriteSummaries(old(articles), host) && images == old(images)
      ensures changed == exists j :: 0 <= j < |old(articles)| && SummaryNeedsRewrite(old(articles)[j])
    {
      changed := false;
      var a := 0;
      while a < |articles|
        invariant 0 <= a <= |articles| == |old(articles)|
        invariant forall j :: 0 <= j < a ==> articles[j] == RewriteArticle(old(articles)[j], host)
        invariant forall j :: a <= j < |articles| ==> articles[j] == old(articles)[j]
        invariant changed <==> exists j :: 0 <= j < a && SummaryNeedsRewrite(old(articles)[j])
        invariant images == old(images)
      {
        var article := articles[a];
        if article.summary.Some? && NodesNeedRewrite(article.summary.value) {
          changed := true;
        }
        articles := articles[a := RewriteArticle(article, host)];
        a := a + 1;
      }
    }

    /** The loop over the articles that replaces the first-image paragraphs of their summaries. */
    method RestructureSummaries() returns (changed: bool)
      modifies this
      ensures articles == RestructureAll(old(articles)) && images == old(images)
      ensures changed == exists j :: 0 <= j < |old(articles)| && HasFirstImageParagraph(old(articles)[j])
    {
      changed := false;
      var a := 0;
      while a < |articles|
        invariant 0 <= a <= |articles| == |old(articles)|
        invariant forall j :: 0 <= j < a ==> articles[j] == RestructureArticle(old(articles)[j])
        invariant forall j :: a <= j < |articles| ==> articles[j] == old(articles)[j]
        invariant changed <==> exists j :: 0 <= j < a && HasFirstImageParagraph(old(articles)[j])
        invariant images == old(images)
      {
        var article, c := RestructureSummary(articles[a]);
        articles := articles[a := article];
        changed := changed || c;
        a := a + 1;
      }
    }
  }

  /** Turn `k` of the attribute loop sees the attribute as the element had it, and extends the loop by one name. */
  lemma AttributeStep(attrs: map<string, string>, k: nat, host: string)
    requires k < |ImageAttributes|
    ensures AttrNeedsRewrite(RewriteAttrs(attrs, ImageAttributes[..k], host), ImageAttributes[k])
        == AttrNeedsRewrite(attrs, ImageAttributes[k])
    ensures RewriteAttrs(attrs, ImageAttributes[..k + 1], host)
        == RewriteAttr(RewriteAttrs(attrs, ImageAttributes[..k], host), ImageAttributes[k], host)
    ensures (exists m :: 0 <= m < k + 1 && AttrNeedsRewrite(attrs, ImageAttributes[m]))
        <==> (exists m :: 0 <= m < k && AttrNeedsRewrite(attrs, ImageAttributes[m])) || AttrNeedsRewrite(attrs, ImageAttributes[k])
  {
    RewriteAttrsValues(attrs, ImageAttributes[..k], host);
    assert ImageAttributes[k] !in ImageAttributes[..k];
    assert ImageAttributes[..k + 1][..k] == ImageAttributes[..k];
  }

  /** Once every attribute name has been visited, the loop has rewritten the whole tag. */
  lemma AttributeLoopDone(img: Tag, host: string)
    ensures img.(attrs := RewriteAttrs(img.attrs, ImageAttributes[..|ImageAttributes|], host)) == RewriteTag(img, host)
    ensures (exists m :: 0 <= m < |ImageAttributes| && AttrNeedsRewrite(img.attrs, ImageAttributes[m])) == TagNeedsRewrite(img)
  {
    assert ImageAttributes[..|ImageAttributes|] == ImageAttributes;
  }

  /** The inner loop over `src`, `data-img-src` and `data-img-src-hr` of one element. */
  method RewriteAttributes(img: Tag, host: string) returns (t: Tag, changed: bool)
    ensures t == RewriteTag(img, host)
    ensures changed == TagNeedsRewrite(img)
  {
    changed := false;
    var attrs := img.attrs;
    var k := 0;
    while k < |ImageAttributes|
      invariant 0 <= k <= |ImageAttributes|
      invariant attrs == RewriteAttrs(img.attrs, ImageAttributes[..k], host)
      invariant changed <==> exists m :: 0 <= m < k && AttrNeedsRewrite(img.attrs, ImageAttributes[m])
    {
      var x := ImageAttributes[k];
      AttributeStep(img.attrs, k, host);
      if AttrNeedsRewrite(attrs, x) {
        attrs := attrs[x := RewriteRef(attrs[x], host)];
        changed := true;
      }
      k := k + 1;
    }
    AttributeLoopDone(img, host);
    t := img.(attrs := attrs);
  }

  /** One article of the loop: an article without a summary is skipped, otherwise its children are restructured. */
  method RestructureSummary(article: Article) returns (r: Article, changed: bool)
    ensures r == RestructureArticle(article)
    ensures changed == HasFirstImageParagraph(article)
  {
    if article.summary.None? {
      return article, false;
    }
    var cs;
    cs, changed := RestructureChildren(article.summary.value);
    r := Article(Some(cs));
  }

  /** The loop over the children of one summary, replacing each first-image paragraph where it stands. */
  method RestructureChildren(children: seq<Node>) returns (cs: seq<Node>, changed: bool)
    ensures cs == Restructure(children)
    ensures changed == exists j :: 0 <= j < |children| && IsFirstImageParagraph(children[j])
  {
    changed := false;
    cs := children;
    var c := 0;
    while c < |cs|
      invariant 0 <= c <= |cs| == |children|
      invariant forall j :: 0 <= j < c ==> cs[j] == RestructureChild(children[j])
      invariant forall j :: c <= j < |cs| ==> cs[j] == children[j]
      invariant changed <==> exists j :: 0 <= j < c && IsFirstImageParagraph(children[j])
    {
      var child := cs[c];
      if child.Element? && child.tag.name == "p" && FindFirst(child.children).Some? {
        var img := FindFirst(child.children).value;
        cs := cs[c := Wrapper(Unmark(img))];
        changed := true;
      }
      c := c + 1;
    }
  }

  /** How a run of the tool ends. */
  datatype Status =
    | Usage          // too few arguments: the usage line is printed and the exit code is 1
    | MissingFile(path: string)  // a named file cannot be opened: the run stops with an error
    | Completed

  /** The end of a run: how it ended, the files afterwards, and the files reported as cleaned up. */
  datatype RunResult = RunResult(status: Status, files: map<string, PageData>, cleaned: seq<string>)

  /**
   * The loop over the named files, from the state reached so far. It keeps the
   * set of files, runs to the end exactly when every named file exists, and
   * otherwise stops at a named file that does not.
   */
  function Process(paths: seq<string>, host: string, files: map<string, PageData>, cleaned: seq<string>): (r: RunResult)
    ensures r.files.Keys == files.Keys
    ensures !r.status.Usage?
    ensures r.status.Completed? <==> forall p :: p in paths ==> p in files
    ensures r.status.MissingFile? ==> r.status.path in paths && r.status.path !in files
    decreases |paths|
  {
    if paths == [] then RunResult(Completed, files, cleaned)
    else if paths[0] !in files then RunResult(MissingFile(paths[0]), files, cleaned)
    else
      var (page, changed) := Html.CleanUp(files[paths[0]], host);
      if changed then Process(paths[1..], host, files[paths[0] := page], cleaned + [paths[0]])
      else Process(paths[1..], host, files, cleaned)
  }

  /**
   * `main` of the clean-up tool, on the argument vector (program name first)
   * and the files it can open: the usage error exactly when fewer than two
   * arguments follow the program name, otherwise the loop over the file names
   * after the host name.
   */
  function Run(argv: seq<string>, files: map<string, PageData>): (r: RunResult)
    ensures r.files.Keys == files.Keys
    ensures r.status.Usage? <==> |argv| < 3
    ensures r.status.Usage? ==> r == RunResult(Usage, files, [])
    ensures r.status.Completed? <==> |argv| >= 3 && forall p :: p in argv[2..] ==> p in files
    ensures r.status.MissingFile? ==> r.status.path in argv[2..] && r.status.path !in files
  {
    if |argv| < 3 then RunResult(Usage, files, [])
    else Process(argv[2..], argv[1], files, [])
  }

  method RunCleanup(argv: seq<string>, fs: map<string, PageData>) returns (r: RunResult)
    ensures r == Run(argv, fs)
  {
    if |argv| < 3 {
      return RunResult(Usage, fs, []);
    }
    var host := argv[1];
    var files := fs;
    var cleaned := [];
    var i := 2;
    while i < |argv|
      invariant 2 <= i <= |argv|
      invariant Process(argv[i..], host, files, cleaned) == Run(argv, fs)
    {
      var path := argv[i];
      assert argv[i..][1..] == argv[i + 1..];
      if path !in files {
        return RunResult(MissingFile(path), files, cleaned);
      }
      var page := new Page(files[path]);
      var changed := page.CleanUp(host);
      if changed {
        files := files[path := page.Data()];
        cleaned := cleaned + [path];
      }
      i := i + 1;
    }
    return RunResult(Completed, files, cleaned);
  }

  /** A file the page holds nothing to clean up in. */
  predicate IsClean(d: PageData, host: string)
  {
    !Html.CleanUp(d, host).1
  }

  /**
   * What the loop does to the files: it adds no file and removes none, touches
   * only the files it is given, writes back exactly the files it reports as
   * cleaned, leaves each file it reaches clean, and writes what the clean-up
   * computed.
   */
  lemma {:induction false} ProcessEffect(paths: seq<string>, host: string, files: map<string, PageData>, cleaned: seq<string>)
    ensures Process(paths, host, files, cleaned).files.Keys == files.Keys
    ensures forall p :: p in files && p !in paths ==> Process(paths, host, files, cleaned).files[p] == files[p]
    ensures forall p :: p in files && Process(paths, host, files, cleaned).files[p] != files[p] ==>
      p in Process(paths, host, files, cleaned).cleaned
    ensures Process(paths, host, files, cleaned).status.Completed? ==>
      forall p :: p in paths ==> p in files && IsClean(Process(paths, host, files, cleaned).files[p], host)
    ensures |cleaned| <= |Process(paths, host, files, cleaned).cleaned|
    ensures Process(paths, host, files, cleaned).cleaned[..|cleaned|] == cleaned
    decreases |paths|
  {
    if paths != [] && paths[0] in files {
      var p0 := paths[0];
      var (page, changed) := Html.CleanUp(files[p0], host);
      Html.CleanUpIdempotent(files[p0], host);
      Html.CleanUpFlag(files[p0], host);
      var files' := if changed then files[p0 := page] else files;
      var cleaned' := if changed then cleaned + [p0] else cleaned;
      ProcessEffect(paths[1..], host, files', cleaned');
      var r := Process(paths, host, files, cleaned);
      assert r == Process(paths[1..], host, files', cleaned');
      assert IsClean(files'[p0], host);
      assert r.cleaned[..|cleaned'|] == cleaned';
      assert r.cleaned[..|cleaned|] == cleaned' [..|cleaned|];
      if changed {
        assert p0 in r.cleaned by {
          assert r.cleaned[|cleaned|] == cleaned'[|cleaned|];
        }
      }
      forall p | p in files && r.files[p] != files[p]
        ensures p in r.cleaned
      {
        if p != p0 || !changed {
          assert r.files[p] != files'[p];
        }
      }
      if r.status.Completed? {
        forall p | p in paths
          ensures p in files && IsClean(r.files[p], host)
        {
          if p == p0 && p !in paths[1..] {
            assert r.files[p0] == files'[p0];
          }
        }
      }
    }
  }

  /** The tool writes a file only when its clean-up reported a change, and only files named on the command line. */
  lemma RunWritesOnlyCleaned(argv: seq<string>, fs: map<string, PageData>)
    ensures Run(argv, fs).files.Keys == fs.Keys
    ensures forall p :: p in fs && Run(argv, fs).files[p] != fs[p] ==> p in Run(argv, fs).cleaned
    ensures forall p :: p in fs && (|argv| < 3 || p !in argv[2..]) ==> Run(argv, fs).files[p] == fs[p]
  {
    if |argv| >= 3 {
      ProcessEffect(argv[2..], argv[1], fs, []);
    }
  }

  /** Every file the loop reaches is already clean: nothing is written and nothing reported. */
  lemma {:induction false} ProcessClean(paths: seq<string>, host: string, files: map<string, PageData>, cleaned: seq<string>)
    requires forall p :: p in paths && p in files ==> IsClean(files[p], host)
    ensures Process(paths, host, files, cleaned).files == files
    ensures Process(paths, host, files, cleaned).cleaned == cleaned
    decreases |paths|
  {
    if paths != [] && paths[0] in files {
      ProcessClean(paths[1..], host, files, cleaned);
    }
  }

  /** Running the tool a second time on the same arguments writes nothing and reports nothing. */
  lemma RunTwice(argv: seq<string>, fs: map<string, PageData>)
    requires Run(argv, fs).status.Completed?
    ensures Run(argv, Run(argv, fs).files) == RunResult(Completed, Run(argv, fs).files, [])
  {
    var files := Run(argv, fs).files;
    ProcessEffect(argv[2..], argv[1], fs, []);
    ProcessClean(argv[2..], argv[1], files, []);
  }
}
