/**
 * The feed side of the scraper: seeding a feed from the existing one, and
 * merging the articles of a listing page into it.
 *
 * The feed library's generator and the title-to-entry dictionary that `main`
 * builds beside it are one object here, `Feed`: `entries` lists the feed's
 * entries in the order they were added, and `existing` maps a title to the
 * position of its entry. The dictionary holds the very entry objects of the
 * feed, so updating an entry found through it updates the feed.
 */
module Scraper {
  import opened Wrappers
  import Dates
  import Invisible

  /** A feed entry; a field that was never set is `None`. */
  datatype Entry = Entry(
    id: Option<string>,
    title: Option<string>,
    link: Option<string>,
    guid: Option<string>,
    description: Option<string>,
    published: Option<string>,
    author: Option<string>)

  /** A freshly created entry. */
  const Blank: Entry := Entry(None, None, None, None, None, None, None)

  /** Python truthiness of an optional string: set and non-empty. */
  predicate Truthy(o: Option<string>)
  {
    o.Some? && o.value != ""
  }

  /** An entry of the existing feed, as the feed reader returns it. */
  datatype SourceEntry = SourceEntry(
    id: string, title: string, link: string, description: string, published: string, author: Option<string>)

  /** The channel data of the existing feed. */
  datatype SourceMeta = SourceMeta(title: string, link: string, subtitle: string, language: string, description: string)

  /**
   * The channel data of the new feed. In the feed library the subtitle and the
   * description are one field, so the description set last is what it holds.
   */
  datatype FeedMeta = FeedMeta(title: string, link: string, language: string, description: string)

  /**
   * The title anchor of an article: the text of its first `span` child (if
   * any), its `href` (if any), and that `href` resolved against the page URL.
   */
  datatype TitleLink = TitleLink(title: Option<string>, href: Option<string>, joined: string)

  /**
   * What `scrape_page` reads from one article block: the title anchor, the text
   * of the timestamp link, and the serialised children of the summary block.
   */
  datatype ScrapedArticle = ScrapedArticle(
    titleLink: Option<TitleLink>, timestamp: Option<string>, summary: Option<string>)

  /** What happened to one article. */
  datatype Verdict = Added | Updated | NoTitle | NoDate | NoDescription

  /** The two ways an article stops the run with an exception. */
  datatype ScrapeError =
    | BadDate(text: string)  // the timestamp does not parse as a date
    | NoSummary              // the article has no summary block

  predicate InRange(entries: seq<Entry>, existing: map<string, nat>)
  {
    forall t :: t in existing ==> existing[t] < |entries|
  }

  /**
   * The dictionary points at entries of the feed that carry the title they are
   * filed under, a link and a publication date, as seeded entries do.
   */
  predicate Indexed(entries: seq<Entry>, existing: map<string, nat>)
  {
    forall t :: t in existing ==>
      && existing[t] < |entries|
      && entries[existing[t]].title == Some(t)
      && entries[existing[t]].link.Some?
      && entries[existing[t]].published.Some?
  }

  // ---------------------------------------------------------------- seeding

  /** The channel data: the description falls back to the title when it is empty. */
  function MetaOf(source: SourceMeta): (m: FeedMeta)
    ensures m.title == source.title && m.link == source.link && m.language == source.language
    ensures source.description != "" ==> m.description == source.description
    ensures source.description == "" ==> m.description == source.title
  {
    FeedMeta(source.title, source.link, source.language,
      if source.description != "" then source.description else source.title)
  }

  /** The entry added for one entry of the existing feed; its guid is its link. */
  function SeedEntry(e: SourceEntry): Entry
  {
    Entry(Some(e.id), Some(e.title), Some(e.link), Some(e.link), Some(e.description), Some(e.published), e.author)
  }

  function SeedEntries(src: seq<SourceEntry>): (r: seq<Entry>)
    ensures |r| == |src|
  {
    seq(|src|, i requires 0 <= i < |src| => SeedEntry(src[i]))
  }

  /** The dictionary filled in the seeding loop: each title, in order, is filed under its entry's position. */
  function SeedIndex(src: seq<SourceEntry>): (r: map<string, nat>)
    ensures forall t :: t in r ==> r[t] < |src|
    decreases |src|
  {
    if src == [] then map[]
    else SeedIndex(src[..|src| - 1])[src[|src| - 1].title := |src| - 1]
  }

  /**
   * Every title of the existing feed is a key, and it is filed under the last
   * entry with that title: a later duplicate overwrites an earlier one.
   */
  lemma {:induction false} SeedIndexLatest(src: seq<SourceEntry>)
    ensures forall t :: t in SeedIndex(src) <==> exists i :: 0 <= i < |src| && src[i].title == t
    ensures forall t :: t in SeedIndex(src) ==>
      && SeedIndex(src)[t] < |src|
      && src[SeedIndex(src)[t]].title == t
      && forall j :: SeedIndex(src)[t] < j < |src| ==> src[j].title != t
    decreases |src|
  {
    if src != [] {
      var front := src[..|src| - 1];
      SeedIndexLatest(front);
      forall t
        ensures t in SeedIndex(src) <==> exists i :: 0 <= i < |src| && src[i].title == t
      {
        if exists i :: 0 <= i < |src| && src[i].title == t {
          var i :| 0 <= i < |src| && src[i].title == t;
          if i < |src| - 1 {
            assert front[i].title == t;
          }
        }
        if t in SeedIndex(front) {
          var i :| 0 <= i < |front| && front[i].title == t;
          assert src[i].title == t;
        }
      }
    }
  }

  /** The seeded feed and dictionary agree, and every seeded entry has a link and a date. */
  lemma SeedIndexed(src: seq<SourceEntry>)
    ensures Indexed(SeedEntries(src), SeedIndex(src))
  {
    SeedIndexLatest(src);
  }

  // ----------------------------------------------------------- one article

  /** The title text of the article, when it has a title anchor with a `span` in it. */
  function TitleText(a: ScrapedArticle): Option<string>
  {
    if a.titleLink.Some? then a.titleLink.value.title else None
  }

  /** The article's title is a key of the dictionary. */
  predicate IsKnown(existing: map<string, nat>, a: ScrapedArticle)
  {
    TitleText(a).Some? && TitleText(a).value in existing
  }

  /** The entry the article is merged into, and its position when it is an existing one. */
  function Pick(entries: seq<Entry>, existing: map<string, nat>, a: ScrapedArticle): (r: (Entry, Option<nat>))
    requires InRange(entries, existing)
    ensures r.1.Some? <==> IsKnown(existing, a)
    ensures r.1.Some? ==> r.1.value == existing[TitleText(a).value] && r.0 == entries[r.1.value]
    ensures r.1.None? ==> r.0 == Blank.(title := TitleText(a))
  {
    if IsKnown(existing, a) then
      var k := existing[TitleText(a).value];
      (entries[k], Some(k))
    else (Blank.(title := TitleText(a)), None)
  }

  /**
   * An entry without a link takes the article's resolved `href` as link and
   * guid when the title anchor has a non-empty one; nothing else changes.
   */
  function Link(e: Entry, a: ScrapedArticle): (r: Entry)
    ensures r == e.(link := r.link, guid := r.guid)
    ensures e.link.Some? ==> r == e
    ensures r.link.Some? <==> e.link.Some? || (a.titleLink.Some? && Truthy(a.titleLink.value.href))
    ensures e.link.None? && r.link.Some? ==> r.link == r.guid == Some(a.titleLink.value.joined)
  {
    if a.titleLink.Some? && e.link.None? && Truthy(a.titleLink.value.href) then
      e.(link := Some(a.titleLink.value.joined), guid := Some(a.titleLink.value.joined))
    else e
  }

  /**
   * An entry without a date takes the display form of the article's timestamp;
   * `Success(None)` means the article is skipped for want of a timestamp, and a
   * timestamp that does not parse is the error. An entry with a date is kept.
   */
  function WithPublished(e: Entry, a: ScrapedArticle): (r: Result<Option<Entry>, ScrapeError>)
    ensures e.published.Some? ==> r == Success(Some(e))
    ensures r == Success(None) <==> e.published.None? && a.timestamp.None?
    ensures r.Failure? <==> e.published.None? && a.timestamp.Some? && Dates.FormatDate(a.timestamp.value).Failure?
    ensures r.Failure? ==> r.error == BadDate(a.timestamp.value)
    ensures e.published.None? && r.Success? && r.value.Some? ==>
      r.value.value == e.(published := Some(Dates.FormatDate(a.timestamp.value).value.1))
  {
    if e.published.Some? then Success(Some(e))
    else if a.timestamp.None? then Success(None)
    else match Dates.FormatDate(a.timestamp.value)
      case Failure(_) => Failure(BadDate(a.timestamp.value))
      case Success((_, display)) => Success(Some(e.(published := Some(display))))
  }

  /** Puts back an existing entry that was worked on; a new one is not in the feed. */
  function Store(entries: seq<Entry>, slot: Option<nat>, e: Entry): seq<Entry>
    requires slot.Some? ==> slot.value < |entries|
  {
    if slot.Some? then entries[slot.value := e] else entries
  }

  /** The body of the loop over the articles of a page: the new entry list and the verdict, or the error. */
  function Merge(entries: seq<Entry>, existing: map<string, nat>, a: ScrapedArticle): (r: Result<(seq<Entry>, Verdict), ScrapeError>)
    requires InRange(entries, existing)
    ensures r.Success? ==> |r.value.0| == |entries| + (if r.value.1 == Added then 1 else 0)
  {
    var (e0, slot) := Pick(entries, existing, a);
    var e1 := Link(e0, a);
    if !Truthy(e1.title) then Success((Store(entries, slot, e1), NoTitle))
    else match WithPublished(e1, a)
      case Failure(err) => Failure(err)
      case Success(None) => Success((Store(entries, slot, e1), NoDate))
      case Success(Some(e2)) =>
        if a.summary.None? then Failure(NoSummary)
        else
          var description := Invisible.RemoveInvisibleChars(a.summary.value);
          if description == "" then Success((Store(entries, slot, e2), NoDescription))
          else
            var e3 := e2.(description := Some(description));
            if slot.Some? then Success((entries[slot.value := e3], Updated))
            else Success((entries + [e3], Added))
  }

  /** A date is at hand: the entry is an existing one, or the timestamp parses. */
  predicate DateAvailable(existing: map<string, nat>, a: ScrapedArticle)
  {
    IsKnown(existing, a) || (a.timestamp.Some? && Dates.FormatDate(a.timestamp.value).Success?)
  }

  /** The summary's text, once cleaned, is non-empty. */
  predicate HasDescription(a: ScrapedArticle)
  {
    a.summary.Some? && Invisible.RemoveInvisibleChars(a.summary.value) != ""
  }

  /**
   * The outcome of one article, in terms of the article alone: it fails exactly
   * when it has a title and then a timestamp that does not parse or no summary
   * block; it is taken in (added when its title is new, used as an update when
   * the title is known) exactly when it has a title, a date and a non-empty
   * description; and when it is skipped the feed is as it was.
   */
  lemma MergeOutcome(entries: seq<Entry>, existing: map<string, nat>, a: ScrapedArticle)
    requires Indexed(entries, existing)
    ensures var r := Merge(entries, existing, a);
      && (r.Failure? <==>
            Truthy(TitleText(a)) &&
            ((!IsKnown(existing, a) && a.timestamp.Some? && Dates.FormatDate(a.timestamp.value).Failure?)
             || (DateAvailable(existing, a) && a.summary.None?)))
      && (r.Success? && r.value.1 == Added <==>
            Truthy(TitleText(a)) && DateAvailable(existing, a) && HasDescription(a) && !IsKnown(existing, a))
      && (r.Success? && r.value.1 == Updated <==>
            Truthy(TitleText(a)) && DateAvailable(existing, a) && HasDescription(a) && IsKnown(existing, a))
      && (r.Success? && r.value.1 != Added && r.value.1 != Updated ==> r.value.0 == entries)
  {
    var (e0, slot) := Pick(entries, existing, a);
    if slot.Some? {
      assert Link(e0, a) == e0;
      assert entries[slot.value := e0] == entries;
    }
  }

  /**
   * An article whose title is known updates that entry in place and is never
   * appended: its id, title, link, guid, date and author stay, only the
   * description can change, and every other entry is untouched.
   */
  lemma MergeKnownTitle(entries: seq<Entry>, existing: map<string, nat>, a: ScrapedArticle)
    requires Indexed(entries, existing) && IsKnown(existing, a)
    requires Merge(entries, existing, a).Success?
    ensures var (es, v) := Merge(entries, existing, a).value; var k := existing[TitleText(a).value];
      && |es| == |entries|
      && v != Added && v != NoDate
      && (forall j :: 0 <= j < |es| && j != k ==> es[j] == entries[j])
      && es[k] == entries[k].(description := es[k].description)
      && (v == Updated ==> es[k].description == Some(Invisible.RemoveInvisibleChars(a.summary.value)))
  {
    var k := existing[TitleText(a).value];
    assert Link(entries[k], a) == entries[k];
    assert entries[k := entries[k]] == entries;
  }

  /** The entry a new article becomes once it is taken in. */
  function NewEntry(a: ScrapedArticle): Entry
  {
    var link := if a.titleLink.Some? && Truthy(a.titleLink.value.href) then Some(a.titleLink.value.joined) else None;
    var date :=
      if a.timestamp.Some? && Dates.FormatDate(a.timestamp.value).Success?
      then Some(Dates.FormatDate(a.timestamp.value).value.1)
      else None;
    var description := if a.summary.Some? then Some(Invisible.RemoveInvisibleChars(a.summary.value)) else None;
    Entry(None, TitleText(a), link, link, description, date, None)
  }

  /**
   * An article with a new title that is taken in becomes a new last entry
   * carrying its title, the resolved link as link and guid when it has an
   * `href`, the formatted date and the cleaned summary.
   */
  lemma MergeNewTitle(entries: seq<Entry>, existing: map<string, nat>, a: ScrapedArticle)
    requires Indexed(entries, existing) && !IsKnown(existing, a)
    requires Merge(entries, existing, a).Success? && Merge(entries, existing, a).value.1 == Added
    ensures a.titleLink.Some? && a.timestamp.Some? && a.summary.Some?
    ensures Dates.FormatDate(a.timestamp.value).Success?
    ensures Merge(entries, existing, a).value.0 == entries + [NewEntry(a)]
  {
  }

  /** A new article with a title, a date and a description is appended as `NewEntry`. */
  lemma CompleteNewArticle(entries: seq<Entry>, existing: map<string, nat>, a: ScrapedArticle)
    requires Indexed(entries, existing) && !IsKnown(existing, a)
    requires Truthy(TitleText(a)) && DateAvailable(existing, a) && HasDescription(a)
    ensures Merge(entries, existing, a) == Success((entries + [NewEntry(a)], Added))
  {
    MergeOutcome(entries, existing, a);
    MergeNewTitle(entries, existing, a);
  }

  /** After a successful article the dictionary still points at good entries. */
  lemma MergeKeepsIndexed(entries: seq<Entry>, existing: map<string, nat>, a: ScrapedArticle)
    requires Indexed(entries, existing)
    requires Merge(entries, existing, a).Success?
    ensures var es := Merge(entries, existing, a).value.0;
      && Indexed(es, existing)
      && (forall i :: 0 <= i < |entries| ==> es[i] == entries[i].(description := es[i].description))
      && (forall i :: 0 <= i < |entries| && es[i] != entries[i] ==> exists t :: t in existing && existing[t] == i)
  {
    MergeOutcome(entries, existing, a);
    if IsKnown(existing, a) {
      MergeKnownTitle(entries, existing, a);
    }
  }

  // ------------------------------------------------------------- a page

  function Count(vs: seq<Verdict>, v: Verdict): nat
  {
    if vs == [] then 0 else (if vs[0] == v then 1 else 0) + Count(vs[1..], v)
  }

  /**
   * The loop over the articles of one page: one verdict per article, and the
   * feed grows by one entry per `Added` verdict; the first error ends it.
   */
  function MergeAll(entries: seq<Entry>, existing: map<string, nat>, articles: seq<ScrapedArticle>): (r: Result<(seq<Entry>, seq<Verdict>), ScrapeError>)
    requires InRange(entries, existing)
    ensures r.Success? ==> |r.value.1| == |articles| && |r.value.0| == |entries| + Count(r.value.1, Added)
    decreases |articles|
  {
    if articles == [] then Success((entries, []))
    else match Merge(entries, existing, articles[0])
      case Failure(err) => Failure(err)
      case Success((es, v)) =>
        match MergeAll(es, existing, articles[1..])
        case Failure(err) => Failure(err)
        case Success((es', vs)) =>
          assert ([v] + vs)[0] == v && ([v] + vs)[1..] == vs;
          Success((es', [v] + vs))
  }

  /**
   * A page never removes or reorders entries: it appends one entry per `Added`
   * verdict, changes nothing of an older entry but its description, and only
   * for entries the dictionary points at; the dictionary still holds.
   */
  lemma {:induction false} MergeAllEffect(entries: seq<Entry>, existing: map<string, nat>, articles: seq<ScrapedArticle>)
    requires Indexed(entries, existing)
    requires MergeAll(entries, existing, articles).Success?
    ensures var (es, vs) := MergeAll(entries, existing, articles).value;
      && |vs| == |articles|
      && |es| == |entries| + Count(vs, Added)
      && Indexed(es, existing)
      && (forall i :: 0 <= i < |entries| ==> es[i] == entries[i].(description := es[i].description))
      && (forall i :: 0 <= i < |entries| && es[i] != entries[i] ==> exists t :: t in existing && existing[t] == i)
    decreases |articles|
  {
    if articles != [] {
      var (es1, v) := Merge(entries, existing, articles[0]).value;
      MergeKeepsIndexed(entries, existing, articles[0]);
      MergeAllEffect(es1, existing, articles[1..]);
      var (es, vs) := MergeAll(entries, existing, articles).value;
      var vs1 := MergeAll(es1, existing, articles[1..]).value.1;
      assert vs == [v] + vs1;
      assert ([v] + vs1)[1..] == vs1;
      forall i | 0 <= i < |entries| && es[i] != entries[i]
        ensures exists t :: t in existing && existing[t] == i
      {
        if es1[i] == entries[i] {
          assert es[i] != es1[i];
        }
      }
    }
  }

  /**
   * Titles found on the page are not added to the dictionary, so the same new
   * article met twice is appended twice.
   */
  lemma RepeatedNewTitle(entries: seq<Entry>, existing: map<string, nat>, a: ScrapedArticle)
    requires Indexed(entries, existing) && !IsKnown(existing, a)
    requires Truthy(TitleText(a)) && DateAvailable(existing, a) && HasDescription(a)
    ensures MergeAll(entries, existing, [a, a]) == Success((entries + [NewEntry(a), NewEntry(a)], [Added, Added]))
  {
    CompleteNewArticle(entries, existing, a);
    var es1 := entries + [NewEntry(a)];
    assert Indexed(es1, existing) by {
      forall t | t in existing
        ensures es1[existing[t]] == entries[existing[t]]
      {
      }
    }
    CompleteNewArticle(es1, existing, a);
    var es2 := es1 + [NewEntry(a)];
    assert [a][0] == a && [a][1..] == [];
    assert MergeAll(es1, existing, [a]) == Success((es2, [Added])) by {
      assert MergeAll(es2, existing, []) == Success((es2, []));
      assert [Added] + [] == [Added];
    }
    assert [a, a][0] == a && [a, a][1..] == [a];
    assert MergeAll(entries, existing, [a, a]) == Success((es2, [Added, Added])) by {
      assert [Added] + [Added] == [Added, Added];
    }
    assert es2 == entries + [NewEntry(a), NewEntry(a)];
  }

  /**
   * An existing feed with one entry, say titled "Hello World", and a page with
   * an article of that title and a newer summary: the feed still has exactly
   * one entry, with the new description and everything else as it was.
   */
  lemma SameTitleUpdates(src: SourceEntry, a: ScrapedArticle)
    requires TitleText(a) == Some(src.title) && src.title != "" && HasDescription(a)
    ensures MergeAll(SeedEntries([src]), SeedIndex([src]), [a]) ==
      Success(([SeedEntry(src).(description := Some(Invisible.RemoveInvisibleChars(a.summary.value)))], [Updated]))
  {
    var es := SeedEntries([src]);
    var existing := SeedIndex([src]);
    assert es == [SeedEntry(src)];
    assert [src][..0] == [];
    assert SeedIndex([src][..0]) == map[];
    assert existing == map[src.title := 0];
    SeedIndexed([src]);
    MergeOutcome(es, existing, a);
    MergeKnownTitle(es, existing, a);
    var es1 := Merge(es, existing, a).value.0;
    assert es1 == [SeedEntry(src).(description := Some(Invisible.RemoveInvisibleChars(a.summary.value)))];
    assert IsKnown(existing, a) && DateAvailable(existing, a);
    assert Merge(es, existing, a) == Success((es1, Updated));
    assert [a][0] == a && [a][1..] == [];
    assert MergeAll(es1, existing, []) == Success((es1, []));
    assert [Updated] + [] == [Updated];
  }

  /** Wraps the verdicts of the articles already done around the outcome of the rest. */
  function Prefixed(done: seq<Verdict>, r: Result<(seq<Entry>, seq<Verdict>), ScrapeError>): Result<(seq<Entry>, seq<Verdict>), ScrapeError>
  {
    match r
    case Failure(err) => Failure(err)
    case Success((es, vs)) => Success((es, done + vs))
  }

  /** A merged article puts its verdict in front of those of the rest of the page. */
  lemma MergeAllStep(entries: seq<Entry>, existing: map<string, nat>, articles: seq<ScrapedArticle>, es: seq<Entry>, v: Verdict)
    requires InRange(entries, existing) && articles != []
    requires Merge(entries, existing, articles[0]) == Success((es, v))
    ensures InRange(es, existing)
    ensures MergeAll(entries, existing, articles) == Prefixed([v], MergeAll(es, existing, articles[1..]))
  {
  }

  /** Verdicts put in front one at a time accumulate in order. */
  lemma PrefixedAppend(done: seq<Verdict>, v: Verdict, r: Result<(seq<Entry>, seq<Verdict>), ScrapeError>)
    ensures Prefixed(done, Prefixed([v], r)) == Prefixed(done + [v], r)
  {
    if r.Success? {
      assert done + ([v] + r.value.1) == done + [v] + r.value.1;
    }
  }

  /** An article whose merge fails ends the page with that error. */
  lemma PrefixedStop(done: seq<Verdict>, entries: seq<Entry>, existing: map<string, nat>, articles: seq<ScrapedArticle>)
    requires InRange(entries, existing) && articles != []
    requires Merge(entries, existing, articles[0]).Failure?
    ensures Prefixed(done, MergeAll(entries, existing, articles)) == Failure(Merge(entries, existing, articles[0]).error)
  {
  }

  lemma PrefixedEmpty(r: Result<(seq<Entry>, seq<Verdict>), ScrapeError>)
    ensures Prefixed([], r) == r
  {
    if r.Success? {
      assert [] + r.value.1 == r.value.1;
    }
  }

  /** The feed generator with the dictionary of existing entries. */
  class Feed {
    var meta: FeedMeta
    var entries: seq<Entry>
    var existing: map<string, nat>

    ghost predicate Valid()
      reads this
    {
      Indexed(entries, existing)
    }

    /** The seeding in `main`: the channel data, then one entry per entry of the existing feed, in order. */
    constructor(source: SourceMeta, src: seq<SourceEntry>)
      ensures meta == MetaOf(source) && entries == SeedEntries(src) && existing == SeedIndex(src)
      ensures Valid()
    {
      var description := source.description;
      if description == "" {
        description := source.title;
      }
      var es: seq<Entry> := [];
      var index: map<string, nat> := map[];
      var i := 0;
      while i < |src|
        invariant 0 <= i <= |src|
        invariant es == SeedEntries(src[..i]) && index == SeedIndex(src[..i])
      {
        assert src[..i + 1][..i] == src[..i];
        es := es + [SeedEntry(src[i])];
        index := index[src[i].title := i];
        i := i + 1;
      }
      assert src[..i] == src;
      meta := FeedMeta(source.title, source.link, source.language, description);
      entries := es;
      existing := index;
      SeedIndexed(src);
    }

    /** The entry an article is merged into: the stored one for a known title, else a fresh one with the title; then its link. */
    method TitleEntry(a: ScrapedArticle) returns (entry: Entry, isExisting: bool, slot: nat)
      requires InRange(entries, existing)
      ensures isExisting == Pick(entries, existing, a).1.Some?
      ensures isExisting ==> slot == Pick(entries, existing, a).1.value && slot < |entries|
      ensures entry == Link(Pick(entries, existing, a).0, a)
    {
      isExisting := false;
      slot := 0;
      entry := Blank;
      if a.titleLink.Some? {
        var titleLink := a.titleLink.value;
        if titleLink.title.Some? {
          if titleLink.title.value in existing {
            slot := existing[titleLink.title.value];
            entry := entries[slot];
            isExisting := true;
          } else {
            entry := entry.(title := titleLink.title);
          }
        }
        if entry.link.None? && Truthy(titleLink.href) {
          entry := entry.(link := Some(titleLink.joined), guid := Some(titleLink.joined));
        }
      }
    }

    /** One article of a page. */
    method MergeArticle(a: ScrapedArticle) returns (r: Result<Verdict, ScrapeError>)
      requires InRange(entries, existing)
      modifies this
      ensures meta == old(meta) && existing == old(existing)
      ensures Merge(old(entries), existing, a) ==
        match r case Success(v) => Success((entries, v)) case Failure(err) => Failure(err)
    {
      var entry, isExisting, slot := TitleEntry(a);
      if !Truthy(entry.title) {
        if isExisting {
          entries := entries[slot := entry];
        }
        return Success(NoTitle);
      }
      if entry.published.None? {
        if a.timestamp.Some? {
          var date := Dates.FormatDate(a.timestamp.value);
          if date.Failure? {
            return Failure(BadDate(a.timestamp.value));
          }
          entry := entry.(published := Some(date.value.1));
        } else {
          if isExisting {
            entries := entries[slot := entry];
          }
          return Success(NoDate);
        }
      }
      if a.summary.None? {
        return Failure(NoSummary);
      }
      var description := Invisible.RemoveInvisibleChars(a.summary.value);
      if description == "" {
        if isExisting {
          entries := entries[slot := entry];
        }
        return Success(NoDescription);
      }
      entry := entry.(description := Some(description));
      if isExisting {
        entries := entries[slot := entry];
        return Success(Updated);
      }
      entries := entries + [entry];
      return Success(Added);
    }

    /** The loop over the articles of one page; an exception ends it. */
    method ScrapeArticles(articles: seq<ScrapedArticle>) returns (r: Result<seq<Verdict>, ScrapeError>)
      requires Valid()
      modifies this
      ensures meta == old(meta) && existing == old(existing)
      ensures r.Success? ==> Valid()
      ensures MergeAll(old(entries), existing, articles) ==
        match r case Success(vs) => Success((entries, vs)) case Failure(err) => Failure(err)
    {
      var verdicts := [];
      var i := 0;
      assert articles[0..] == articles;
      PrefixedEmpty(MergeAll(entries, existing, articles));
      while i < |articles|
        invariant 0 <= i <= |articles|
        invariant meta == old(meta) && existing == old(existing) && Valid()
        invariant Prefixed(verdicts, MergeAll(entries, existing, articles[i..])) ==
          MergeAll(old(entries), existing, articles)
      {
        assert articles[i..][0] == articles[i];
        assert articles[i..][1..] == articles[i + 1..];
        ghost var before := entries;
        var v := MergeArticle(articles[i]);
        if v.Failure? {
          PrefixedStop(verdicts, before, existing, articles[i..]);
          return Failure(v.error);
        }
        MergeKeepsIndexed(before, existing, articles[i]);
        MergeAllStep(before, existing, articles[i..], entries, v.value);
        PrefixedAppend(verdicts, v.value, MergeAll(entries, existing, articles[i + 1..]));
        verdicts := verdicts + [v.value];
        i := i + 1;
      }
      assert articles[i..] == [];
      assert verdicts + [] == verdicts;
      return Success(verdicts);
    }
  }
}
